/** A buffer of values laid end to end, read until it or a quota is used up.
    The format of one value is a parameter. */
module Framing {
  import opened Octets
  import opened Wire

  datatype Entries<+T> = Leaves(leaves: seq<T>) | Broken

  predicate Wanted(max: int, got: nat) {
    max <= 0 || got < max
  }

  /** Reading a value uses up some input. */
  ghost predicate Shortens<T(!new)>(take: Bytes -> Parse<T>) {
    forall s :: take(s).Done? ==> |take(s).rest| < |s|
  }

  ghost predicate StableAt<T(!new)>(take: Bytes -> Parse<T>, s: Bytes, more: Bytes) {
    take(s).Done? ==> take(s + more) == Done(take(s).value, take(s).rest + more)
  }

  /** Reading a value takes no notice of what follows it. */
  ghost predicate Stable<T(!new)>(take: Bytes -> Parse<T>) {
    forall s, more :: StableAt(take, s, more)
  }

  ghost predicate UndoneAt<T(!new)>(take: Bytes -> Parse<T>, encode: T -> Bytes, v: T, rest: Bytes) {
    encode(v) != [] && take(encode(v) + rest) == Done(v, rest)
  }

  /** `encode` is undone by `take` on the values that fit. */
  ghost predicate Codec<T(!new)>(take: Bytes -> Parse<T>, encode: T -> Bytes, fits: T -> bool) {
    forall v, rest {:trigger UndoneAt(take, encode, v, rest)} :: fits(v) ==> UndoneAt(take, encode, v, rest)
  }

  ghost predicate HeaderAt<T(!new)>(take: Bytes -> Parse<T>, header: nat, s: Bytes) {
    take(s).Ended? <==> |s| < header
  }

  /** The input is taken to have ended when it cannot hold a header. */
  ghost predicate HeaderOf<T(!new)>(take: Bytes -> Parse<T>, header: nat) {
    forall s :: HeaderAt(take, header, s)
  }

  function Prepend<T>(vs: seq<T>, e: Entries<T>): Entries<T> {
    if e.Broken? then Broken else Leaves(vs + e.leaves)
  }

  /** Running out inside a value's header ends the list quietly. */
  ghost function Frames<T(!new)>(take: Bytes -> Parse<T>, s: Bytes, max: int, got: nat): (r: Entries<T>)
    requires Shortens(take)
    decreases |s|
  {
    if s == [] || !Wanted(max, got) then Leaves([])
    else
      match take(s)
      case Ended => Leaves([])
      case Bad => Broken
      case Done(v, rest) => Prepend([v], Frames(take, rest, max, got + 1))
  }

  function Joined<T>(encode: T -> Bytes, vs: seq<T>): (bs: Bytes) {
    if vs == [] then [] else encode(vs[0]) + Joined(encode, vs[1..])
  }

  function FirstOf<T>(vs: seq<T>, max: int, got: nat): (ms: seq<T>) {
    if max <= 0 then vs
    else if got >= max then []
    else if |vs| <= max - got then vs
    else vs[..max - got]
  }

  /** One turn of the reading loop, on values. */
  lemma Turn<T(!new)>(take: Bytes -> Parse<T>, all: Entries<T>, vs: seq<T>, s: Bytes, max: int)
    requires Shortens(take) && s != [] && Wanted(max, |vs|)
    requires all == Prepend(vs, Frames(take, s, max, |vs|))
    ensures take(s).Ended? ==> all == Leaves(vs)
    ensures take(s).Bad? ==> all == Broken
    ensures take(s).Done? ==> all == Prepend(vs + [take(s).value], Frames(take, take(s).rest, max, |vs| + 1))
  {
    if take(s).Done? {
      PrependTwice(vs, [take(s).value], Frames(take, take(s).rest, max, |vs| + 1));
    }
  }

  lemma PrependTwice<T>(a: seq<T>, b: seq<T>, e: Entries<T>)
    ensures Prepend(a, Prepend(b, e)) == Prepend(a + b, e)
  {
    if e.Leaves? {
      assert a + (b + e.leaves) == a + b + e.leaves;
    }
  }

  lemma {:induction false} FramesRoundTrip<T(!new)>(take: Bytes -> Parse<T>, encode: T -> Bytes, fits: T -> bool,
                                                    vs: seq<T>, max: int, got: nat)
    requires Shortens(take) && Codec(take, encode, fits)
    requires forall v | v in vs :: fits(v)
    ensures Frames(take, Joined(encode, vs), max, got) == Leaves(FirstOf(vs, max, got))
  {
    if vs != [] && Wanted(max, got) {
      assert UndoneAt(take, encode, vs[0], Joined(encode, vs[1..]));
      FramesRoundTrip(take, encode, fits, vs[1..], max, got + 1);
      assert FirstOf(vs, max, got) == [vs[0]] + FirstOf(vs[1..], max, got + 1);
    }
  }

  predicate LeadingPart<T(==)>(a: seq<T>, b: seq<T>) {
    |a| <= |b| && a == b[..|a|]
  }

  lemma {:induction false} FramesTruncation<T(!new)>(take: Bytes -> Parse<T>, s: Bytes, more: Bytes, max: int, got: nat)
    requires Shortens(take) && Stable(take)
    requires Frames(take, s + more, max, got).Leaves?
    ensures Frames(take, s, max, got).Leaves? ==>
              LeadingPart(Frames(take, s, max, got).leaves, Frames(take, s + more, max, got).leaves)
    decreases |s|
  {
    if s != [] && Wanted(max, got) && take(s).Done? {
      assert s + more != [] && StableAt(take, s, more);
      FramesTruncation(take, take(s).rest, more, max, got + 1);
    }
  }

  lemma CutIsLeading<T(!new)>(take: Bytes -> Parse<T>, data: Bytes, cut: nat, max: int)
    requires Shortens(take) && Stable(take) && cut <= |data|
    requires Frames(take, data, max, 0).Leaves?
    ensures Frames(take, data[..cut], max, 0).Leaves? ==>
              LeadingPart(Frames(take, data[..cut], max, 0).leaves, Frames(take, data, max, 0).leaves)
  {
    assert data[..cut] + data[cut..] == data;
    FramesTruncation(take, data[..cut], data[cut..], max, 0);
  }

  /** A cut inside a value: quiet within its header, an error after it. */
  lemma CutValue<T(!new)>(take: Bytes -> Parse<T>, header: nat, whole: Bytes, cut: nat)
    requires Shortens(take) && Stable(take)
    requires HeaderOf(take, header)
    requires take(whole).Done? && take(whole).rest == [] && cut < |whole|
    ensures take(whole[..cut]) == if cut < header then Ended else Bad
  {
    assert whole[..cut] + whole[cut..] == whole;
    assert StableAt(take, whole[..cut], whole[cut..]) && HeaderAt(take, header, whole[..cut]);
  }

  /** Exactly which cuts go unnoticed: those that fall in a header. What is
      read is then every whole value before the cut. */
  lemma {:induction false} FramesCut<T(!new)>(take: Bytes -> Parse<T>, encode: T -> Bytes, fits: T -> bool, header: nat,
                                              vs: seq<T>, k: nat, cut: nat, got: nat)
    requires Shortens(take) && Stable(take) && Codec(take, encode, fits)
    requires HeaderOf(take, header)
    requires forall i | 0 <= i < |vs| :: fits(vs[i])
    requires k < |vs| && cut < |encode(vs[k])|
    ensures |Joined(encode, vs[..k])| + cut < |Joined(encode, vs)|
    ensures Frames(take, Joined(encode, vs)[..|Joined(encode, vs[..k])| + cut], 0, got)
         == if cut == 0 || cut < header then Leaves(vs[..k]) else Broken
  {
    if k == 0 {
      CutFirst(take, encode, fits, header, vs, cut, got);
    } else {
      FramesCut(take, encode, fits, header, vs[1..], k - 1, cut, got + 1);
      CutLater(take, encode, fits, vs, k, cut, got);
    }
  }

  lemma CutLater<T(!new)>(take: Bytes -> Parse<T>, encode: T -> Bytes, fits: T -> bool, vs: seq<T>, k: nat,
                   cut: nat, got: nat)
    requires Shortens(take) && Codec(take, encode, fits)
    requires 0 < k < |vs| && fits(vs[0])
    requires |Joined(encode, vs[1..][..k - 1])| + cut < |Joined(encode, vs[1..])|
    ensures |Joined(encode, vs[..k])| + cut < |Joined(encode, vs)|
    ensures Frames(take, Joined(encode, vs)[..|Joined(encode, vs[..k])| + cut], 0, got)
         == Prepend([vs[0]],
                    Frames(take, Joined(encode, vs[1..])[..|Joined(encode, vs[1..][..k - 1])| + cut], 0, got + 1))
    ensures vs[..k] == [vs[0]] + vs[1..][..k - 1]
  {
    CutSplits(encode, vs, k, cut);
    var tail := Joined(encode, vs[1..])[..|Joined(encode, vs[1..][..k - 1])| + cut];
    FrameFirst(take, encode, fits, vs[0], tail, got);
  }

  lemma FrameFirst<T(!new)>(take: Bytes -> Parse<T>, encode: T -> Bytes, fits: T -> bool, v: T, tail: Bytes, got: nat)
    requires Shortens(take) && Codec(take, encode, fits) && fits(v)
    ensures Frames(take, encode(v) + tail, 0, got) == Prepend([v], Frames(take, tail, 0, got + 1))
  {
    assert UndoneAt(take, encode, v, tail);
  }

  lemma CutFirst<T(!new)>(take: Bytes -> Parse<T>, encode: T -> Bytes, fits: T -> bool, header: nat,
                          vs: seq<T>, cut: nat, got: nat)
    requires Shortens(take) && Stable(take) && Codec(take, encode, fits)
    requires HeaderOf(take, header)
    requires vs != [] && fits(vs[0]) && cut < |encode(vs[0])|
    ensures |Joined(encode, vs[..0])| + cut < |Joined(encode, vs)|
    ensures Frames(take, Joined(encode, vs)[..|Joined(encode, vs[..0])| + cut], 0, got)
         == if cut == 0 || cut < header then Leaves([]) else Broken
  {
    var whole := encode(vs[0]);
    assert Joined(encode, vs[..0]) == [];
    assert Joined(encode, vs)[..cut] == whole[..cut] && whole + [] == whole;
    assert UndoneAt(take, encode, vs[0], []);
    CutValue(take, header, whole, cut);
  }

  lemma CutSplits<T>(encode: T -> Bytes, vs: seq<T>, k: nat, cut: nat)
    requires 0 < k <= |vs| && |Joined(encode, vs[1..][..k - 1])| + cut <= |Joined(encode, vs[1..])|
    ensures |Joined(encode, vs[..k])| == |encode(vs[0])| + |Joined(encode, vs[1..][..k - 1])|
    ensures Joined(encode, vs)[..|Joined(encode, vs[..k])| + cut]
         == encode(vs[0]) + Joined(encode, vs[1..])[..|Joined(encode, vs[1..][..k - 1])| + cut]
  {
    assert vs[..k][0] == vs[0] && vs[..k][1..] == vs[1..][..k - 1];
  }
}
