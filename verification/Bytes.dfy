/** Byte strings, as `std::string` holds them, and their lexicographic order. */
module Bytes {
  newtype byte = x: int | 0 <= x < 256

  type Bytes = seq<byte>

  function Ascii(s: string): (b: Bytes)
    requires forall i :: 0 <= i < |s| ==> s[i] < '\U{80}'
    ensures |b| == |s|
  {
    seq(|s|, i requires 0 <= i < |s| => s[i] as int as byte)
  }

  function Zeros(n: nat): (b: Bytes)
    ensures |b| == n && forall i :: 0 <= i < n ==> b[i] == 0
  {
    seq(n, _ => 0 as byte)
  }

  /** The first `p` bytes of `x + t`, when they include all of `x`. */
  lemma {:induction false} Peel(x: Bytes, t: Bytes, p: nat)
    requires |x| <= p <= |x| + |t|
    ensures (x + t)[..p][..|x|] == x && (x + t)[..p][|x|..] == t[..p - |x|]
  {
  }

  /** `operator<` of `std::string`: unsigned bytes, first difference decides, a prefix is less. */
  predicate Less(a: Bytes, b: Bytes) {
    b != [] && (a == [] || a[0] < b[0] || (a[0] == b[0] && Less(a[1..], b[1..])))
  }

  lemma {:induction false} Trichotomy(a: Bytes, b: Bytes)
    ensures Less(a, b) || a == b || Less(b, a)
    ensures !(Less(a, b) && Less(b, a)) && !Less(a, a)
  {
    if a != [] && b != [] {
      Trichotomy(a[1..], b[1..]);
      Trichotomy(a[1..], a[1..]);
      assert a == [a[0]] + a[1..] && b == [b[0]] + b[1..];
    } else if a != [] {
      Trichotomy(a[1..], a[1..]);
    }
  }

  lemma {:induction false} Transitive(a: Bytes, b: Bytes, c: Bytes)
    requires Less(a, b) && Less(b, c)
    ensures Less(a, c)
  {
    if a != [] && a[0] == b[0] && b[0] == c[0] {
      Transitive(a[1..], b[1..], c[1..]);
    }
  }

  /** A common prefix does not matter. */
  lemma {:induction false} SamePrefix(p: Bytes, a: Bytes, b: Bytes)
    ensures Less(p + a, p + b) <==> Less(a, b)
  {
    if p == [] {
      assert p + a == a && p + b == b;
    } else {
      assert (p + a)[1..] == p[1..] + a && (p + b)[1..] == p[1..] + b;
      SamePrefix(p[1..], a, b);
    }
  }

  /** The first difference decides. */
  lemma {:induction false} FirstDifference(a: Bytes, b: Bytes, i: nat)
    requires i < |a| && i < |b| && a[..i] == b[..i] && a[i] < b[i]
    ensures Less(a, b)
  {
    SamePrefix(a[..i], a[i..], b[i..]);
    assert a == a[..i] + a[i..] && b == b[..i] + b[i..];
  }

  /** The order in full: up to some place the strings agree, and there the first ends or has the smaller
      byte. */
  lemma {:induction false} LessExactly(a: Bytes, b: Bytes)
    ensures Less(a, b) <==> exists i :: 0 <= i <= |a| && i < |b| && a[..i] == b[..i] && (i == |a| || a[i] < b[i])
  {
    if Less(a, b) {
      var i := FirstPlace(a, b);
    }
    if i :| 0 <= i <= |a| && i < |b| && a[..i] == b[..i] && (i == |a| || a[i] < b[i]) {
      if i < |a| {
        FirstDifference(a, b, i);
      } else {
        SamePrefix(a, [], b[i..]);
        assert a + [] == a && b == a + b[i..];
      }
    }
  }

  lemma {:induction false} FirstPlace(a: Bytes, b: Bytes) returns (i: nat)
    requires Less(a, b)
    ensures i <= |a| && i < |b| && a[..i] == b[..i] && (i == |a| || a[i] < b[i])
  {
    if a == [] || a[0] < b[0] {
      i := 0;
    } else {
      var j := FirstPlace(a[1..], b[1..]);
      i := j + 1;
      assert a[..i] == [a[0]] + a[1..][..j] && b[..i] == [b[0]] + b[1..][..j];
    }
  }

  /** `k` is the least of a set of keys. */
  predicate IsLeast(k: Bytes, keys: set<Bytes>) {
    k in keys && forall j :: j in keys && j != k ==> Less(k, j)
  }

  lemma {:induction false} LeastExists(keys: set<Bytes>) returns (k: Bytes)
    requires keys != {}
    ensures IsLeast(k, keys)
    decreases |keys|
  {
    var j :| j in keys;
    if keys == {j} {
      k := j;
    } else {
      var rest := keys - {j};
      assert keys == rest + {j};
      var l := LeastExists(rest);
      Trichotomy(j, l);
      k := if Less(j, l) then j else l;
      forall i | i in keys && i != k
        ensures Less(k, i)
      {
        if k == j && i != l {
          assert i in rest;
          Transitive(j, l, i);
        }
      }
    }
  }

  lemma {:induction false} SomeLeast(keys: set<Bytes>)
    requires keys != {}
    ensures exists k :: IsLeast(k, keys)
  {
    var k := LeastExists(keys);
  }

  lemma {:induction false} LeastUnique(k: Bytes, j: Bytes, keys: set<Bytes>)
    requires IsLeast(k, keys) && IsLeast(j, keys)
    ensures k == j
  {
    Trichotomy(k, j);
  }
}
