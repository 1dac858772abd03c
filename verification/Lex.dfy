/** Bytewise order of octet strings, as strings and blobs are compared. */
module Lex {
  predicate Less(a: seq<int>, b: seq<int>) {
    b != [] && (a == [] || a[0] < b[0] || (a[0] == b[0] && Less(a[1..], b[1..])))
  }

  predicate Leq(a: seq<int>, b: seq<int>) {
    a == b || Less(a, b)
  }

  lemma {:induction false} Irreflexive(a: seq<int>)
    ensures !Less(a, a)
  {
    if a != [] {
      Irreflexive(a[1..]);
    }
  }

  lemma {:induction false} Transitive(a: seq<int>, b: seq<int>, c: seq<int>)
    requires Less(a, b) && Less(b, c)
    ensures Less(a, c)
  {
    if a != [] && a[0] == b[0] && b[0] == c[0] {
      Transitive(a[1..], b[1..], c[1..]);
    }
  }

  lemma {:induction false} Total(a: seq<int>, b: seq<int>)
    ensures Less(a, b) || a == b || Less(b, a)
  {
    if a != [] && b != [] && a[0] == b[0] {
      Total(a[1..], b[1..]);
      assert a == [a[0]] + a[1..] && b == [b[0]] + b[1..];
    }
  }

  lemma LeqTransitive(a: seq<int>, b: seq<int>, c: seq<int>)
    requires Leq(a, b) && Leq(b, c)
    ensures Leq(a, c)
    ensures Less(a, b) || Less(b, c) ==> Less(a, c)
  {
    if a != b && b != c {
      Transitive(a, b, c);
    }
  }

  lemma Asymmetric(a: seq<int>, b: seq<int>)
    requires Less(a, b)
    ensures !Less(b, a) && a != b
  {
    Irreflexive(a);
    if Less(b, a) {
      Transitive(a, b, a);
    }
  }

  /** The strings agree before octet `q`, and there the first one ends or is smaller. */
  ghost predicate LessAt(a: seq<int>, b: seq<int>, q: int) {
    0 <= q <= |a| && q < |b| && a[..q] == b[..q] && (q == |a| || a[q] < b[q])
  }

  /** The order is that of the first difference, a proper beginning coming first. */
  lemma {:induction false} LessIsFirstDifference(a: seq<int>, b: seq<int>)
    ensures Less(a, b) <==> exists q :: LessAt(a, b, q)
  {
    if a != [] && b != [] {
      LessIsFirstDifference(a[1..], b[1..]);
      if a[0] == b[0] && Less(a[1..], b[1..]) {
        var q :| LessAt(a[1..], b[1..], q);
        assert a[..q + 1] == [a[0]] + a[1..][..q] && b[..q + 1] == [b[0]] + b[1..][..q];
        assert LessAt(a, b, q + 1);
      } else if a[0] < b[0] {
        assert LessAt(a, b, 0);
      }
      if q :| LessAt(a, b, q) && q > 0 {
        assert a[0] == a[..q][0] && b[0] == b[..q][0];
        assert a[1..][..q - 1] == a[..q][1..] && b[1..][..q - 1] == b[..q][1..];
        assert LessAt(a[1..], b[1..], q - 1);
      }
    } else if b != [] {
      assert LessAt(a, b, 0);
    }
  }
}
