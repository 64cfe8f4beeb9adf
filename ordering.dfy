/**
 * The iteration order of `std::map`: its keys in ascending order of the map's comparison.
 * `World` walks its listener map (keyed by entity id, compared with `<`) and its blueprint
 * map (keyed by name, compared as strings) in this order.
 */
module Ordering {

  /** `less` is a strict total order on the values of `T`. */
  ghost predicate StrictTotal<T(!new)>(less: (T, T) -> bool)
  {
    && (forall a :: !less(a, a))
    && (forall a, b :: a != b ==> less(a, b) || less(b, a))
    && (forall a, b, c :: less(a, b) && less(b, c) ==> less(a, c))
  }

  /** `s` is strictly increasing under `less`. */
  ghost predicate Increasing<T>(s: seq<T>, less: (T, T) -> bool)
  {
    forall i, j :: 0 <= i < j < |s| ==> less(s[i], s[j])
  }

  /** `m` is the least element of `keys` under `less`. */
  predicate Least<T>(m: T, keys: set<T>, less: (T, T) -> bool)
  {
    m in keys && forall k :: k in keys && k != m ==> less(m, k)
  }

  /** Every non-empty finite set has a least element under a strict total order. */
  lemma {:induction false} LeastExists<T(!new)>(keys: set<T>, less: (T, T) -> bool)
    requires StrictTotal(less) && keys != {}
    ensures exists m :: Least(m, keys, less)
    decreases |keys|
  {
    var k :| k in keys;
    if keys != {k} {
      LeastExists(keys - {k}, less);
      var m :| Least(m, keys - {k}, less);
      if less(k, m) {
        forall x | x in keys && x != k ensures less(k, x) {
          if x != m {
            assert less(m, x);
          }
        }
        assert Least(k, keys, less);
      } else {
        assert k != m && less(m, k);
        assert Least(m, keys, less);
      }
    } else {
      assert Least(k, keys, less);
    }
  }

  /** The keys of a `std::map` in iteration order: every key exactly once, in strictly increasing order. */
  ghost function Sorted<T(!new)>(keys: set<T>, less: (T, T) -> bool): (r: seq<T>)
    requires StrictTotal(less)
    ensures Increasing(r, less)
    ensures forall k :: k in keys <==> k in r
    ensures |r| == |keys|
    decreases |keys|
  {
    if keys == {} then []
    else
      LeastExists(keys, less);
      var m :| Least(m, keys, less);
      var rest := Sorted(keys - {m}, less);
      assert forall j :: 0 <= j < |rest| ==> rest[j] in keys - {m};
      [m] + rest
  }

  /** Walking a `std::map`: its keys picked one at a time, least first, which is the order `Sorted` gives. */
  method AscendingKeys<T(==,!new)>(keys: set<T>, less: (T, T) -> bool) returns (r: seq<T>)
    requires StrictTotal(less)
    ensures r == Sorted(keys, less)
  {
    r := [];
    var rest := keys;
    while rest != {}
      invariant Increasing(r, less)
      invariant forall k :: k in keys <==> k in r || k in rest
      invariant forall k :: k in r ==> k !in rest
      invariant forall i, k :: 0 <= i < |r| && k in rest ==> less(r[i], k)
      invariant |r| + |rest| == |keys|
      decreases |rest|
    {
      LeastExists(rest, less);
      var m :| Least(m, rest, less);
      r := r + [m];
      rest := rest - {m};
    }
    IncreasingUnique(r, Sorted(keys, less), less);
  }

  /** Two strictly increasing listings of the same keys are the same listing: the iteration order is determined by the keys. */
  lemma {:induction false} IncreasingUnique<T(!new)>(r: seq<T>, s: seq<T>, less: (T, T) -> bool)
    requires StrictTotal(less) && Increasing(r, less) && Increasing(s, less)
    requires forall k :: k in r <==> k in s
    ensures r == s
    decreases |r|
  {
    if r != [] {
      assert r[0] in s;
    }
    if s != [] {
      assert s[0] in r;
    }
    if r != [] && s != [] {
      FirstIsLeast(s, r[0], less);
      FirstIsLeast(r, s[0], less);
      assert r[0] == s[0];
      forall k ensures k in r[1..] <==> k in s[1..] {
        if k in r[1..] {
          var i :| 1 <= i < |r| && r[i] == k;
          assert less(r[0], k) && k in r && k in s;
          var j :| 0 <= j < |s| && s[j] == k;
          assert j != 0 && s[1..][j - 1] == k;
        }
        if k in s[1..] {
          var i :| 1 <= i < |s| && s[i] == k;
          assert less(s[0], k) && k in s && k in r;
          var j :| 0 <= j < |r| && r[j] == k;
          assert j != 0 && r[1..][j - 1] == k;
        }
      }
      IncreasingUnique(r[1..], s[1..], less);
      assert r == [r[0]] + r[1..] && s == [s[0]] + s[1..];
    }
  }

  /** The first element of an increasing sequence is below every other element of it. */
  lemma {:induction false} FirstIsLeast<T>(s: seq<T>, k: T, less: (T, T) -> bool)
    requires Increasing(s, less) && k in s
    ensures k == s[0] || less(s[0], k)
  {
    var i :| 0 <= i < |s| && s[i] == k;
    if i != 0 {
      assert less(s[0], s[i]);
    }
  }

  /** The order of entity ids. */
  function NatLess(a: nat, b: nat): bool
  {
    a < b
  }

  /** The order of `std::string`: character by character, a proper prefix first. */
  function StringLess(a: string, b: string): bool
  {
    if a == [] then b != []
    else if b == [] then false
    else if a[0] != b[0] then a[0] < b[0]
    else StringLess(a[1..], b[1..])
  }

  lemma {:induction false} NatLessTotal()
    ensures StrictTotal(NatLess)
  {
  }

  lemma {:induction false} StringLessIrreflexive(a: string)
    ensures !StringLess(a, a)
  {
    if a != [] {
      StringLessIrreflexive(a[1..]);
    }
  }

  lemma {:induction false} StringLessConnected(a: string, b: string)
    requires a != b
    ensures StringLess(a, b) || StringLess(b, a)
  {
    if a != [] && b != [] && a[0] == b[0] {
      assert a == [a[0]] + a[1..] && b == [b[0]] + b[1..];
      StringLessConnected(a[1..], b[1..]);
    }
  }

  lemma {:induction false} StringLessTransitive(a: string, b: string, c: string)
    requires StringLess(a, b) && StringLess(b, c)
    ensures StringLess(a, c)
  {
    if a != [] && b != [] && c != [] && a[0] == b[0] && b[0] == c[0] {
      StringLessTransitive(a[1..], b[1..], c[1..]);
    }
  }

  lemma {:induction false} StringLessTotal()
    ensures StrictTotal(StringLess)
  {
    forall a ensures !StringLess(a, a) {
      StringLessIrreflexive(a);
    }
    forall a, b | a != b ensures StringLess(a, b) || StringLess(b, a) {
      StringLessConnected(a, b);
    }
    forall a, b, c | StringLess(a, b) && StringLess(b, c) ensures StringLess(a, c) {
      StringLessTransitive(a, b, c);
    }
  }
}
