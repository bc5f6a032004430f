/**
 * Row order for queries. A table is a map from id to row; a query's result
 * is the set of matching ids listed by an ORDER BY key, with the id as the
 * last tie-breaker (the order in which the database returns rows that an
 * ORDER BY does not separate, and the order of a query without ORDER BY).
 */
module Ordering {

  /** An ORDER BY key: compared lexicographically, smaller first. */
  type Key = (int, int)

  /** Row `a` comes before row `b`: smaller key, or equal key and smaller id. */
  predicate Precedes(key: nat -> Key, a: nat, b: nat)
  {
    var ka, kb := key(a), key(b);
    ka.0 < kb.0 || (ka.0 == kb.0 && (ka.1 < kb.1 || (ka.1 == kb.1 && a < b)))
  }

  /** The key that orders rows by id alone. */
  function ById(): nat -> Key
  {
    k => (0, 0)
  }

  lemma PrecedesTransitive(key: nat -> Key, a: nat, b: nat, c: nat)
    requires Precedes(key, a, b) && Precedes(key, b, c)
    ensures Precedes(key, a, c)
  {
  }

  /** Any two different rows are ordered one way or the other, and never both. */
  lemma PrecedesTotal(key: nat -> Key, a: nat, b: nat)
    requires a != b
    ensures Precedes(key, a, b) != Precedes(key, b, a)
  {
  }

  /** The first row of `s` under `key`: it precedes every other row of `s`. */
  predicate IsFirst(s: set<nat>, key: nat -> Key, m: nat)
  {
    m in s && forall k :: k in s && k != m ==> Precedes(key, m, k)
  }

  /** Every non-empty set of ids has a first row under any key. */
  lemma {:induction false} FirstExists(s: set<nat>, key: nat -> Key)
    requires s != {}
    ensures exists m :: IsFirst(s, key, m)
    decreases |s|
  {
    var x :| x in s;
    if s == {x} {
      assert IsFirst(s, key, x);
    } else {
      var rest := s - {x};
      FirstExists(rest, key);
      var m :| IsFirst(rest, key, m);
      if Precedes(key, x, m) {
        forall k | k in s && k != x ensures Precedes(key, x, k) {
          if k != m {
            PrecedesTransitive(key, x, m, k);
          }
        }
        assert IsFirst(s, key, x);
      } else {
        PrecedesTotal(key, x, m);
        assert IsFirst(s, key, m);
      }
    }
  }

  /** The first row is unique. */
  lemma FirstUnique(s: set<nat>, key: nat -> Key)
    ensures forall m1, m2 :: IsFirst(s, key, m1) && IsFirst(s, key, m2) ==> m1 == m2
  {
    forall m1, m2 | IsFirst(s, key, m1) && IsFirst(s, key, m2) ensures m1 == m2 {
      if m1 != m2 {
        PrecedesTotal(key, m1, m2);
      }
    }
  }

  /** The row that comes first in `s` under `key`. */
  function First(s: set<nat>, key: nat -> Key): (m: nat)
    requires s != {}
    ensures IsFirst(s, key, m)
  {
    FirstExists(s, key);
    FirstUnique(s, key);
    var m :| IsFirst(s, key, m);
    m
  }

  /** The ids of `s`, each once, listed in the order of `key`. */
  function SortedIds(s: set<nat>, key: nat -> Key): (r: seq<nat>)
    ensures |r| == |s|
    ensures forall k :: k in r <==> k in s
    ensures forall i, j :: 0 <= i < j < |r| ==> Precedes(key, r[i], r[j])
    decreases |s|
  {
    if s == {} then []
    else
      var m := First(s, key);
      var rest := SortedIds(s - {m}, key);
      PrependFirst(s, key, m, rest);
      [m] + rest
  }

  /** Putting the first row of `s` before a key-ordered listing of the others gives a key-ordered listing of `s`. */
  lemma PrependFirst(s: set<nat>, key: nat -> Key, m: nat, rest: seq<nat>)
    requires IsFirst(s, key, m)
    requires |rest| == |s - {m}| && forall k :: k in rest <==> k in s - {m}
    requires forall i, j :: 0 <= i < j < |rest| ==> Precedes(key, rest[i], rest[j])
    ensures |[m] + rest| == |s|
    ensures forall k :: k in [m] + rest <==> k in s
    ensures forall i, j :: 0 <= i < j < |[m] + rest| ==> Precedes(key, ([m] + rest)[i], ([m] + rest)[j])
  {
    var r := [m] + rest;
    forall i, j | 0 <= i < j < |r| ensures Precedes(key, r[i], r[j]) {
      assert r[j] == rest[j - 1];
      if i == 0 {
        assert rest[j - 1] in s - {m};
      } else {
        assert r[i] == rest[i - 1];
      }
    }
  }

  /** A listing in key order never repeats an id. */
  lemma SortedIdsDistinct(s: set<nat>, key: nat -> Key, i: nat, j: nat)
    requires i < j < |SortedIds(s, key)|
    ensures SortedIds(s, key)[i] != SortedIds(s, key)[j]
  {
    var r := SortedIds(s, key);
    assert Precedes(key, r[i], r[j]);
  }
}
