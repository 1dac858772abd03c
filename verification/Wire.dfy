/** Big-endian numbers and length-prefixed fields, as values consumed from the
    front of an octet string and as reads that move a reader along. */
module Wire {
  import opened Octets

  /** A read: the value and what is left, the input ran out, or it is wrong. */
  datatype Parse<+T> = Done(value: T, rest: Bytes) | Ended | Bad

  function Pow256(w: nat): (p: int)
    ensures p >= 1
  {
    if w == 0 then 1 else 256 * Pow256(w - 1)
  }

  function Number(bs: Bytes): (v: int)
    ensures v >= 0
  {
    if bs == [] then 0 else 256 * Number(bs[..|bs| - 1]) + bs[|bs| - 1]
  }

  function Encode(v: int, w: nat): (bs: Bytes)
    requires 0 <= v < Pow256(w)
    ensures |bs| == w
  {
    if w == 0 then [] else Encode(v / 256, w - 1) + [v % 256]
  }

  lemma {:induction false} NumberEncode(v: int, w: nat)
    requires 0 <= v < Pow256(w)
    ensures Number(Encode(v, w)) == v
  {
    if w > 0 {
      NumberEncode(v / 256, w - 1);
      var bs := Encode(v, w);
      assert bs[..w - 1] == Encode(v / 256, w - 1);
    }
  }

  /** Every octet string is the encoding of its number. */
  lemma {:induction false} EncodeNumber(bs: Bytes)
    ensures Number(bs) < Pow256(|bs|)
    ensures Encode(Number(bs), |bs|) == bs
  {
    if bs != [] {
      var front := bs[..|bs| - 1];
      EncodeNumber(front);
      assert Number(bs) / 256 == Number(front) && Number(bs) % 256 == bs[|bs| - 1];
      assert bs == front + [bs[|bs| - 1]];
    }
  }

  function Take(s: Bytes, n: nat): (p: Parse<Bytes>) {
    if n <= |s| then Done(s[..n], s[n..]) else Ended
  }

  function TakeNumber(s: Bytes, w: nat): (p: Parse<int>)
    ensures p.Done? ==> p.value >= 0
    ensures p.Done? <==> |s| >= w
    ensures !p.Bad?
  {
    if w <= |s| then Done(Number(s[..w]), s[w..]) else Ended
  }

  /** A field behind a `w`-octet count of its length. */
  function TakeField(s: Bytes, w: nat): (p: Parse<Bytes>)
    ensures p.Done? ==> |p.rest| + w <= |s|
    ensures !p.Bad?
  {
    match TakeNumber(s, w)
    case Done(n, rest) => Take(rest, n)
    case _ => Ended
  }

  function Field(v: Bytes, w: nat): (bs: Bytes)
    requires |v| < Pow256(w)
    ensures |bs| == w + |v|
  {
    Encode(|v|, w) + v
  }

  /** Reading takes no notice of what follows a complete value. */
  lemma TakeIsStable(s: Bytes, n: nat, more: Bytes)
    requires Take(s, n).Done?
    ensures Take(s + more, n) == Done(Take(s, n).value, Take(s, n).rest + more)
  {
    assert (s + more)[..n] == s[..n] && (s + more)[n..] == s[n..] + more;
  }

  lemma NumberIsStable(s: Bytes, w: nat, more: Bytes)
    requires TakeNumber(s, w).Done?
    ensures TakeNumber(s + more, w) == Done(TakeNumber(s, w).value, TakeNumber(s, w).rest + more)
  {
    assert (s + more)[..w] == s[..w] && (s + more)[w..] == s[w..] + more;
  }

  lemma FieldIsStable(s: Bytes, w: nat, more: Bytes)
    requires TakeField(s, w).Done?
    ensures TakeField(s + more, w) == Done(TakeField(s, w).value, TakeField(s, w).rest + more)
  {
    NumberIsStable(s, w, more);
    TakeIsStable(TakeNumber(s, w).rest, TakeNumber(s, w).value, more);
  }

  lemma TakeEncoded(v: Bytes, rest: Bytes)
    ensures Take(v + rest, |v|) == Done(v, rest)
  {
    assert (v + rest)[..|v|] == v && (v + rest)[|v|..] == rest;
  }

  lemma NumberEncoded(v: int, w: nat, rest: Bytes)
    requires 0 <= v < Pow256(w)
    ensures TakeNumber(Encode(v, w) + rest, w) == Done(v, rest)
  {
    NumberEncode(v, w);
    assert (Encode(v, w) + rest)[..w] == Encode(v, w) && (Encode(v, w) + rest)[w..] == rest;
  }

  /** A field reads back, whatever follows it. */
  lemma FieldEncoded(v: Bytes, w: nat, rest: Bytes)
    requires |v| < Pow256(w)
    ensures TakeField(Field(v, w) + rest, w) == Done(v, rest)
  {
    assert Field(v, w) + rest == Encode(|v|, w) + (v + rest);
    NumberEncoded(|v|, w, v + rest);
    TakeEncoded(v, rest);
  }

  /** What is read as a number or a field is what that number or field is written as. */
  lemma NumberParsed(s: Bytes, w: nat)
    requires w <= |s|
    ensures TakeNumber(s, w).value < Pow256(w)
    ensures s == Encode(TakeNumber(s, w).value, w) + TakeNumber(s, w).rest
  {
    EncodeNumber(s[..w]);
  }

  lemma FieldParsed(s: Bytes, w: nat)
    requires TakeField(s, w).Done?
    ensures |TakeField(s, w).value| < Pow256(w)
    ensures s == Field(TakeField(s, w).value, w) + TakeField(s, w).rest
  {
    NumberParsed(s, w);
    var rest := TakeNumber(s, w).rest;
    assert rest == TakeField(s, w).value + TakeField(s, w).rest;
  }

  /** A reader over one buffer. A short read uses up what was there. */
  class Reader {
    const data: Bytes
    var pos: nat

    ghost predicate Valid()
      reads this
    {
      pos <= |data|
    }

    ghost function Rest(): Bytes
      requires Valid()
      reads this
    {
      data[pos..]
    }

    /** How the reader moved, given what the value-level read says. */
    ghost predicate Moved<T(!new)>(p: Parse<T>)
      reads this
    {
      Valid() && (p.Done? ==> Rest() == p.rest)
    }

    constructor (data: Bytes)
      ensures Valid() && Rest() == data
    {
      this.data, pos := data, 0;
    }

    method Len() returns (n: nat)
      requires Valid()
      ensures n == |Rest()|
    {
      n := |data| - pos;
    }

    method ReadFull(n: nat) returns (ok: bool, v: Bytes)
      requires Valid()
      modifies this
      ensures Moved(Take(old(Rest()), n))
      ensures ok <==> Take(old(Rest()), n).Done?
      ensures ok ==> v == Take(old(Rest()), n).value
    {
      ok := n <= |data| - pos;
      if ok {
        v := data[pos..pos + n];
        pos := pos + n;
      } else {
        v := [];
        pos := |data|;
      }
    }

    method ReadNumber(w: nat) returns (ok: bool, v: nat)
      requires Valid()
      modifies this
      ensures Moved(TakeNumber(old(Rest()), w))
      ensures ok <==> TakeNumber(old(Rest()), w).Done?
      ensures ok ==> v == TakeNumber(old(Rest()), w).value
    {
      var bs;
      ok, bs := ReadFull(w);
      v := if ok then Number(bs) else 0;
    }

    method ReadField(w: nat) returns (ok: bool, v: Bytes)
      requires Valid()
      modifies this
      ensures Moved(TakeField(old(Rest()), w))
      ensures ok <==> TakeField(old(Rest()), w).Done?
      ensures ok ==> v == TakeField(old(Rest()), w).value
    {
      var n;
      ok, n := ReadNumber(w);
      v := [];
      if ok {
        ok, v := ReadFull(n);
      }
    }
  }
}
