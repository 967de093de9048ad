/**
 * The ordering Python's `sorted` uses on strings: code point by code point,
 * a proper prefix before any longer string. `SortedKeys` is `sorted(d)` for
 * the keys of a dictionary.
 */
module StringOrder {

  /** `a <= b` as Python compares two strings. */
  predicate Below(a: string, b: string)
  {
    if a == [] then true
    else if b == [] then false
    else if a[0] != b[0] then a[0] < b[0]
    else Below(a[1..], b[1..])
  }

  lemma {:induction false} BelowReflexive(a: string)
    ensures Below(a, a)
  {
    if a != [] { BelowReflexive(a[1..]); }
  }

  lemma {:induction false} BelowTotal(a: string, b: string)
    ensures Below(a, b) || Below(b, a)
  {
    if a != [] && b != [] && a[0] == b[0] {
      BelowTotal(a[1..], b[1..]);
    }
  }

  lemma {:induction false} BelowAntisymmetric(a: string, b: string)
    requires Below(a, b) && Below(b, a)
    ensures a == b
  {
    if a != [] && b != [] {
      BelowAntisymmetric(a[1..], b[1..]);
      assert a == [a[0]] + a[1..] && b == [b[0]] + b[1..];
    }
  }

  lemma {:induction false} BelowTransitive(a: string, b: string, c: string)
    requires Below(a, b) && Below(b, c)
    ensures Below(a, c)
  {
    if a != [] && b != [] && c != [] && a[0] == b[0] == c[0] {
      BelowTransitive(a[1..], b[1..], c[1..]);
    }
  }

  lemma BelowAntisymmetricAll()
    ensures forall a, b :: Below(a, b) && Below(b, a) ==> a == b
  {
    forall a, b | Below(a, b) && Below(b, a) ensures a == b {
      BelowAntisymmetric(a, b);
    }
  }

  predicate IsLeast(m: string, ks: set<string>)
  {
    m in ks && forall k :: k in ks ==> Below(m, k)
  }

  lemma {:induction false} LeastExists(ks: set<string>)
    requires ks != {}
    ensures exists m :: IsLeast(m, ks)
    decreases |ks|
  {
    var x :| x in ks;
    if ks != {x} {
      LeastExists(ks - {x});
      var m :| IsLeast(m, ks - {x});
      BelowTotal(x, m);
      if Below(x, m) {
        forall k | k in ks ensures Below(x, k) {
          if k != x { BelowTransitive(x, m, k); } else { BelowReflexive(x); }
        }
        assert IsLeast(x, ks);
      } else {
        assert IsLeast(m, ks);
      }
    } else {
      BelowReflexive(x);
      assert IsLeast(x, ks);
    }
  }

  /** Strictly ascending in Python's string order: sorted, no key twice. */
  predicate StrictlyAscending(r: seq<string>)
  {
    forall i, j :: 0 <= i < j < |r| ==> Below(r[i], r[j]) && r[i] != r[j]
  }

  /** `sorted(keys)`: every key once (ascending, as `SortedKeysAscending` shows). */
  function SortedKeys(ks: set<string>): (r: seq<string>)
    ensures |r| == |ks|
    ensures forall k :: k in r <==> k in ks
    decreases |ks|
  {
    if ks == {} then []
    else
      LeastExists(ks);
      BelowAntisymmetricAll();
      var m :| IsLeast(m, ks);
      [m] + SortedKeys(ks - {m})
  }

  /** The first key is the least one, and the rest are the sorted keys without it. */
  lemma SortedKeysHead(ks: set<string>)
    requires ks != {}
    ensures var r := SortedKeys(ks);
      r != [] && IsLeast(r[0], ks) && r[1..] == SortedKeys(ks - {r[0]})
  {
  }

  /** The keys come out in strictly ascending order. */
  lemma {:induction false} SortedKeysAscending(ks: set<string>)
    ensures StrictlyAscending(SortedKeys(ks))
    decreases |ks|
  {
    if ks != {} {
      var r := SortedKeys(ks);
      SortedKeysHead(ks);
      var m, rest := r[0], r[1..];
      SortedKeysAscending(ks - {m});
      forall i, j | 0 <= i < j < |r| ensures Below(r[i], r[j]) && r[i] != r[j] {
        if i == 0 {
          assert r[j] == rest[j - 1] && r[j] in ks - {m};
        } else {
          assert r[i] == rest[i - 1] && r[j] == rest[j - 1];
        }
      }
    }
  }
}
