/**
 Sequence helpers shared by the processors: pandas' `drop_duplicates` (keep the
 first row of each key) and the ascending order of a set of integer keys.
 */
module Seqs {

  /** The keys occurring in `s`. */
  function KeySet<T(==), K(==)>(s: seq<T>, key: T -> K): set<K>
  {
    set x | x in s :: key(x)
  }

  /**
   `drop_duplicates` on key `key` with `keep='first'`: walks `s` in order and keeps a
   row only when no earlier row (and no key in `seen`) has its key.
   */
  function KeepFirstBy<T(==), K(==)>(s: seq<T>, key: T -> K, seen: set<K>): (r: seq<T>)
    ensures forall x :: x in r ==> x in s
    ensures forall i :: 0 <= i < |r| ==> key(r[i]) !in seen
    ensures forall i, j :: 0 <= i < j < |r| ==> key(r[i]) != key(r[j])
    ensures KeySet(r, key) == KeySet(s, key) - seen
    decreases |s|
  {
    if s == [] then []
    else if key(s[0]) in seen then KeepFirstBy(s[1..], key, seen)
    else
      KeySetCons(s, key);
      var rest := KeepFirstBy(s[1..], key, seen + {key(s[0])});
      KeySetCons([s[0]] + rest, key);
      assert ([s[0]] + rest)[1..] == rest;
      [s[0]] + rest
  }

  lemma KeySetCons<T, K>(s: seq<T>, key: T -> K)
    requires s != []
    ensures KeySet(s, key) == {key(s[0])} + KeySet(s[1..], key)
  {
    assert forall x :: x in s <==> x == s[0] || x in s[1..];
  }

  lemma KeySetMono<T, K>(a: seq<T>, b: seq<T>, key: T -> K)
    requires forall x :: x in a ==> x in b
    ensures KeySet(a, key) <= KeySet(b, key)
  {
  }

  /**
   Keep-first read as a scan in file order: appending a row to the input appends
   it to the output exactly when neither an earlier row nor `seen` has its key.
   With `KeepFirstBy([], key, seen) == []` this fixes the result for every input.
   */
  lemma {:induction false} KeepFirstSnoc<T, K>(s: seq<T>, x: T, key: T -> K, seen: set<K>)
    ensures KeepFirstBy(s + [x], key, seen) ==
            KeepFirstBy(s, key, seen) + (if key(x) in seen + KeySet(s, key) then [] else [x])
    decreases |s|
  {
    if s == [] {
      assert [] + [x] == [x];
      assert [x][1..] == [];
    } else {
      var t := s + [x];
      assert t[0] == s[0] && t[1..] == s[1..] + [x];
      KeySetCons(s, key);
      if key(s[0]) in seen {
        KeepFirstSnoc(s[1..], x, key, seen);
      } else {
        KeepFirstSnoc(s[1..], x, key, seen + {key(s[0])});
      }
    }
  }

  /** Every kept row is the first row of the input with its key. */
  lemma {:induction false} KeptFirstOccurrence<T, K>(s: seq<T>, key: T -> K, seen: set<K>, x: T)
    requires x in KeepFirstBy(s, key, seen)
    ensures exists j :: 0 <= j < |s| && s[j] == x && forall i :: 0 <= i < j ==> key(s[i]) != key(x)
    decreases |s|
  {
    var r := KeepFirstBy(s, key, seen);
    if key(s[0]) in seen {
      KeptFirstOccurrence(s[1..], key, seen, x);
      var j :| 0 <= j < |s[1..]| && s[1..][j] == x && forall i :: 0 <= i < j ==> key(s[1..][i]) != key(x);
      assert key(x) != key(s[0]) by {
        var m :| 0 <= m < |r| && r[m] == x;
      }
      assert s[j + 1] == x;
      assert forall i :: 1 <= i < j + 1 ==> s[i] == s[1..][i - 1];
    } else if x != s[0] {
      var rest := KeepFirstBy(s[1..], key, seen + {key(s[0])});
      assert r == [s[0]] + rest;
      assert x in rest;
      KeptFirstOccurrence(s[1..], key, seen + {key(s[0])}, x);
      var j :| 0 <= j < |s[1..]| && s[1..][j] == x && forall i :: 0 <= i < j ==> key(s[1..][i]) != key(x);
      assert key(x) != key(s[0]) by {
        var m :| 0 <= m < |rest| && rest[m] == x;
      }
      assert s[j + 1] == x;
      assert forall i :: 1 <= i < j + 1 ==> s[i] == s[1..][i - 1];
    } else {
      assert s[0] == x;
    }
  }

  /** On rows whose keys are already distinct and unseen, `drop_duplicates` keeps every row in place. */
  lemma {:induction false} KeepFirstByDistinct<T, K>(s: seq<T>, key: T -> K, seen: set<K>)
    requires forall i, j :: 0 <= i < j < |s| ==> key(s[i]) != key(s[j])
    requires forall i :: 0 <= i < |s| ==> key(s[i]) !in seen
    ensures KeepFirstBy(s, key, seen) == s
  {
    if s != [] {
      KeepFirstByDistinct(s[1..], key, seen + {key(s[0])});
    }
  }

  /** The least element of a non-empty set of integers. */
  function Min(s: set<int>): (m: int)
    requires s != {}
    ensures m in s
    ensures forall x :: x in s ==> m <= x
  {
    MinExists(s);
    var m :| m in s && forall x :: x in s ==> m <= x;
    m
  }

  lemma MinExists(s: set<int>)
    requires s != {}
    ensures exists m :: m in s && forall x :: x in s ==> m <= x
    decreases |s|
  {
    var y := PickElement(s);
    if s != {y} {
      MinExists(s - {y});
      var m :| m in s - {y} && forall x :: x in s - {y} ==> m <= x;
      var least := if y < m then y else m;
      forall x | x in s
        ensures least <= x
      {
        if x != y {
          assert x in s - {y};
        }
      }
      assert least in s;
    } else {
      assert forall x :: x in s ==> y <= x;
    }
  }

  lemma PickElementExists(s: set<int>)
    requires s != {}
    ensures exists y :: y in s
  {
    if forall y :: y !in s {
      assert false;
    }
  }

  ghost function PickElement(s: set<int>): (y: int)
    requires s != {}
    ensures y in s
  {
    PickElementExists(s);
    var y :| y in s; y
  }

  /** No element occurs twice. */
  predicate Distinct<T(==)>(s: seq<T>)
  {
    forall i, j :: 0 <= i < j < |s| ==> s[i] != s[j]
  }

  lemma DistinctConcat<T>(a: seq<T>, b: seq<T>)
    requires Distinct(a) && Distinct(b)
    requires forall x :: x in a ==> x !in b
    ensures Distinct(a + b)
  {
    forall i, j | 0 <= i < j < |a + b|
      ensures (a + b)[i] != (a + b)[j]
    {
      if i < |a| && j >= |a| {
        assert (a + b)[i] in a;
        assert (a + b)[j] == b[j - |a|];
      }
    }
  }

  predicate StrictlyIncreasing(s: seq<int>)
  {
    forall i, j :: 0 <= i < j < |s| ==> s[i] < s[j]
  }

  /** The elements of a set of integers in ascending order. */
  function SortedKeys(s: set<int>): (r: seq<int>)
    ensures StrictlyIncreasing(r)
    ensures forall k :: k in r <==> k in s
    ensures |r| == |s|
    decreases |s|
  {
    if s == {} then []
    else
      var m := Min(s);
      [m] + SortedKeys(s - {m})
  }
}
