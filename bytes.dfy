/**
 * Byte strings and the order the key-value engine keeps its keys in:
 * lexicographic comparison of unsigned bytes, a proper prefix sorting first
 * (the order of byte slices, which sled's `IVec` keys use).
 */
module Bytes {

  newtype byte = x: int | 0 <= x < 256

  /** Strict lexicographic order on byte strings. */
  predicate Less(a: seq<byte>, b: seq<byte>)
    decreases |a|
  {
    if |a| == 0 then |b| > 0
    else if |b| == 0 then false
    else if a[0] != b[0] then a[0] < b[0]
    else Less(a[1..], b[1..])
  }

  lemma {:induction false} LessIrreflexive(a: seq<byte>)
    ensures !Less(a, a)
    decreases |a|
  {
    if |a| > 0 {
      LessIrreflexive(a[1..]);
    }
  }

  lemma {:induction false} LessAsymmetric(a: seq<byte>, b: seq<byte>)
    ensures Less(a, b) ==> !Less(b, a)
    decreases |a|
  {
    if |a| > 0 && |b| > 0 && a[0] == b[0] {
      LessAsymmetric(a[1..], b[1..]);
    }
  }

  lemma {:induction false} LessTransitive(a: seq<byte>, b: seq<byte>, c: seq<byte>)
    requires Less(a, b) && Less(b, c)
    ensures Less(a, c)
    decreases |a|
  {
    if |a| > 0 && a[0] == b[0] && b[0] == c[0] {
      LessTransitive(a[1..], b[1..], c[1..]);
    }
  }

  lemma {:induction false} LessTotal(a: seq<byte>, b: seq<byte>)
    ensures a == b || Less(a, b) || Less(b, a)
    decreases |a|
  {
    if |a| > 0 && |b| > 0 && a[0] == b[0] {
      LessTotal(a[1..], b[1..]);
      if a[1..] == b[1..] {
        assert a == [a[0]] + a[1..] && b == [b[0]] + b[1..];
      }
    }
  }

  /** `k` sorts before every other member of `s`. */
  predicate IsLeast(k: seq<byte>, s: set<seq<byte>>)
  {
    k in s && forall k' :: k' in s && k' != k ==> Less(k, k')
  }

  lemma {:induction false} LeastExists(s: set<seq<byte>>)
    requires s != {}
    ensures exists k :: IsLeast(k, s)
    decreases |s|
  {
    var x :| x in s;
    if s != {x} {
      var rest := s - {x};
      LeastExists(rest);
      var y :| IsLeast(y, rest);
      LessTotal(x, y);
      if Less(x, y) {
        forall k' | k' in s && k' != x ensures Less(x, k') {
          if k' != y { LessTransitive(x, y, k'); }
        }
        assert IsLeast(x, s);
      } else {
        assert IsLeast(y, s);
      }
    } else {
      assert IsLeast(x, s);
    }
  }

  lemma LeastUnique(s: set<seq<byte>>, k1: seq<byte>, k2: seq<byte>)
    requires IsLeast(k1, s) && IsLeast(k2, s)
    ensures k1 == k2
  {
    if k1 != k2 {
      LessAsymmetric(k1, k2);
    }
  }

  /** The smallest key of a non-empty set of keys. */
  function Least(s: set<seq<byte>>): (k: seq<byte>)
    requires s != {}
    ensures k in s
    ensures forall k' :: k' in s && k' != k ==> Less(k, k')
  {
    LeastExists(s);
    assert forall k1, k2 :: IsLeast(k1, s) && IsLeast(k2, s) ==> k1 == k2 by {
      forall k1, k2 | IsLeast(k1, s) && IsLeast(k2, s) ensures k1 == k2 {
        LeastUnique(s, k1, k2);
      }
    }
    var k :| IsLeast(k, s);
    k
  }
}
