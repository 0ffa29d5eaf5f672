/**
 The crawled listing snapshot and its de-duplication in
 house_list_processor/main.py: rows are sorted by `house_id` ascending and
 `is_pr_item` descending with missing ids last, then only the first row of
 each `house_id` is kept.
 */
module Snapshot {
  import opened Values
  import Seqs

  type HouseId = int

  /**
   One row of the listing spider's CSV. A `house_id` cell may be empty (NaN once
   read); a price that could not be parsed is missing.
   */
  datatype SnapRow = SnapRow(
    houseId: Option<HouseId>,
    isPrItem: bool,
    name: string,
    price: Option<int>,
    saleCategory: string,
    city: string)

  function IdOf(r: SnapRow): Option<HouseId>
  {
    r.houseId
  }

  /** The ids occurring in a snapshot, the missing id included when a row lacks one. */
  function Ids(s: seq<SnapRow>): set<Option<HouseId>>
  {
    Seqs.KeySet(s, IdOf)
  }

  function PriceOf(r: SnapRow): Option<int>
  {
    r.price
  }

  /** The prices occurring in a snapshot, the missing price included when a row lacks one. */
  function Prices(s: seq<SnapRow>): set<Option<int>>
  {
    Seqs.KeySet(s, PriceOf)
  }

  /** Ascending `house_id` with `na_position='last'`, as a strict order on ids. */
  predicate IdBefore(a: Option<HouseId>, b: Option<HouseId>)
  {
    match a
    case None => false
    case Some(x) => b.None? || x < b.value
  }

  /** `x` may precede `y` in the order `sort_values(by=['house_id', 'is_pr_item'], ascending=[True, False])`. */
  predicate SortLe(x: SnapRow, y: SnapRow)
  {
    IdBefore(x.houseId, y.houseId) || (x.houseId == y.houseId && (x.isPrItem || !y.isPrItem))
  }

  predicate Sorted(s: seq<SnapRow>)
  {
    forall i, j :: 0 <= i < j < |s| ==> SortLe(s[i], s[j])
  }

  /** Ids strictly ascending, so each id occurs once and a missing id can only come last. */
  predicate StrictlyAscending(s: seq<SnapRow>)
  {
    forall i, j :: 0 <= i < j < |s| ==> IdBefore(s[i].houseId, s[j].houseId)
  }

  lemma SortLeTransitive(x: SnapRow, y: SnapRow, z: SnapRow)
    requires SortLe(x, y) && SortLe(y, z)
    ensures SortLe(x, z)
  {
  }

  /** Inserts `x` before the first row it may precede; rows that tie keep their input order. */
  function Insert(x: SnapRow, s: seq<SnapRow>): (r: seq<SnapRow>)
    ensures multiset(r) == multiset(s) + multiset{x}
  {
    if s == [] then [x]
    else if SortLe(x, s[0]) then [x] + s
    else
      assert s == [s[0]] + s[1..];
      [s[0]] + Insert(x, s[1..])
  }

  lemma {:induction false} InsertSorted(x: SnapRow, s: seq<SnapRow>)
    requires Sorted(s)
    ensures Sorted(Insert(x, s))
  {
    if s != [] {
      if SortLe(x, s[0]) {
        forall y | y in s
          ensures SortLe(x, y)
        {
          var j :| 0 <= j < |s| && s[j] == y;
          if j > 0 {
            SortLeTransitive(x, s[0], s[j]);
          }
        }
        ConsSorted(x, s);
      } else {
        var rest := Insert(x, s[1..]);
        InsertSorted(x, s[1..]);
        forall y | y in rest
          ensures SortLe(s[0], y)
        {
          assert y in multiset(rest);
          if y != x {
            assert y in multiset(s[1..]);
          }
        }
        ConsSorted(s[0], rest);
      }
    }
  }

  /** A row that may precede every row of a sorted sequence can be put in front of it. */
  lemma ConsSorted(a: SnapRow, rest: seq<SnapRow>)
    requires Sorted(rest)
    requires forall y :: y in rest ==> SortLe(a, y)
    ensures Sorted([a] + rest)
  {
    var r := [a] + rest;
    forall i, j | 0 <= i < j < |r|
      ensures SortLe(r[i], r[j])
    {
      assert r[j] == rest[j - 1];
      if i > 0 {
        assert r[i] == rest[i - 1];
      }
    }
  }

  /** A stable sort of the snapshot in the order of `SortLe`. */
  function SortRows(s: seq<SnapRow>): (r: seq<SnapRow>)
    ensures Sorted(r)
    ensures multiset(r) == multiset(s)
  {
    if s == [] then []
    else
      assert s == [s[0]] + s[1..];
      InsertSorted(s[0], SortRows(s[1..]));
      Insert(s[0], SortRows(s[1..]))
  }

  /** The row of `rows` whose id is `k`, the first one if there are several. */
  function RowFor(rows: seq<SnapRow>, k: Option<HouseId>): (r: Option<SnapRow>)
    ensures r.Some? ==> r.value in rows && r.value.houseId == k
    ensures r.None? <==> k !in Ids(rows)
  {
    if rows == [] then None
    else
      Seqs.KeySetCons(rows, IdOf);
      if rows[0].houseId == k then Some(rows[0]) else RowFor(rows[1..], k)
  }

  /** A row no earlier row shares an id with is the row `RowFor` finds for that id. */
  lemma {:induction false} RowForAt(s: seq<SnapRow>, j: nat)
    requires j < |s|
    requires forall i :: 0 <= i < j ==> s[i].houseId != s[j].houseId
    ensures RowFor(s, s[j].houseId) == Some(s[j])
  {
    if j > 0 {
      assert s[1..][j - 1] == s[j];
      RowForAt(s[1..], j - 1);
    }
  }

  /**
   Inserting `x` into a sorted sequence makes `x` the first row of its id exactly
   when the id had no row yet or `x` may precede the row that was first; every
   other id keeps its first row.
   */
  lemma {:induction false} InsertRowFor(x: SnapRow, t: seq<SnapRow>, k: Option<HouseId>)
    requires Sorted(t)
    ensures RowFor(Insert(x, t), k) ==
            if x.houseId != k then RowFor(t, k)
            else match RowFor(t, k)
              case None => Some(x)
              case Some(b) => if SortLe(x, b) then Some(x) else Some(b)
  {
    if t == [] {
      assert RowFor([x], k) == if x.houseId == k then Some(x) else RowFor([x][1..], k);
    } else if SortLe(x, t[0]) {
      var r := [x] + t;
      assert r[1..] == t;
      if x.houseId == k && RowFor(t, k).Some? {
        var b := RowFor(t, k).value;
        var j :| 0 <= j < |t| && t[j] == b;
        if j > 0 {
          SortLeTransitive(x, t[0], b);
        }
      }
    } else {
      var rest := Insert(x, t[1..]);
      assert Sorted(t[1..]) by {
        forall i, j | 0 <= i < j < |t[1..]|
          ensures SortLe(t[1..][i], t[1..][j])
        {
          assert t[1..][i] == t[i + 1] && t[1..][j] == t[j + 1];
        }
      }
      InsertRowFor(x, t[1..], k);
      assert ([t[0]] + rest)[1..] == rest;
    }
  }

  /**
   The row pandas keeps for id `k`, defined without sorting: the first row in file
   order among the rows with id `k` and the highest promoted flag.
   */
  function Best(s: seq<SnapRow>, k: Option<HouseId>): (b: Option<SnapRow>)
    ensures b.None? <==> k !in Ids(s)
    ensures b.Some? ==> b.value in s && b.value.houseId == k
    ensures b.Some? ==> forall y :: y in s && y.houseId == k && y.isPrItem ==> b.value.isPrItem
  {
    if s == [] then None
    else
      Seqs.KeySetCons(s, IdOf);
      var rest := Best(s[1..], k);
      if s[0].houseId != k then rest
      else if rest.Some? && rest.value.isPrItem && !s[0].isPrItem then rest
      else Some(s[0])
  }

  /** No row before the best one has its id and its flag. */
  lemma {:induction false} BestIsFirst(s: seq<SnapRow>, k: Option<HouseId>)
    requires Best(s, k).Some?
    ensures var b := Best(s, k).value;
            exists j :: 0 <= j < |s| && s[j] == b &&
              forall i :: 0 <= i < j ==> !(s[i].houseId == k && s[i].isPrItem == b.isPrItem)
  {
    var b := Best(s, k).value;
    if b == s[0] && s[0].houseId == k {
      assert s[0] == b;
    } else {
      var rest := Best(s[1..], k);
      assert rest == Best(s, k);
      BestIsFirst(s[1..], k);
      var j :| 0 <= j < |s[1..]| && s[1..][j] == b &&
                forall i :: 0 <= i < j ==> !(s[1..][i].houseId == k && s[1..][i].isPrItem == b.isPrItem);
      assert s[j + 1] == b;
      assert forall i :: 1 <= i < j + 1 ==> s[i] == s[1..][i - 1];
    }
  }

  /** The first row of each id in the sorted snapshot is the best row for it. */
  lemma {:induction false} SortRowsRowFor(s: seq<SnapRow>, k: Option<HouseId>)
    ensures RowFor(SortRows(s), k) == Best(s, k)
  {
    if s != [] {
      SortRowsRowFor(s[1..], k);
      InsertRowFor(s[0], SortRows(s[1..]), k);
    }
  }

  /** `drop_duplicates` keeps, for each id, the row the stable sort put first. */
  lemma KeptIsRowFor(t: seq<SnapRow>, x: SnapRow)
    requires x in Seqs.KeepFirstBy(t, IdOf, {})
    ensures RowFor(t, x.houseId) == Some(x)
  {
    Seqs.KeptFirstOccurrence(t, IdOf, {}, x);
    var j :| 0 <= j < |t| && t[j] == x && forall i :: 0 <= i < j ==> IdOf(t[i]) != IdOf(x);
    RowForAt(t, j);
  }

  /** Keep-first over the sorted snapshot keeps the best row of each id. */
  lemma SortedKeepsBest(s: seq<SnapRow>)
    ensures forall x :: x in Seqs.KeepFirstBy(SortRows(s), IdOf, {}) ==> Best(s, x.houseId) == Some(x)
  {
    forall x | x in Seqs.KeepFirstBy(SortRows(s), IdOf, {})
      ensures Best(s, x.houseId) == Some(x)
    {
      KeptIsRowFor(SortRows(s), x);
      SortRowsRowFor(s, x.houseId);
    }
  }

  /** Whenever some row of `s` is promoted, the row of `r` with the same id is promoted too. */
  predicate PrefersPromoted(r: seq<SnapRow>, s: seq<SnapRow>)
  {
    forall i, j :: 0 <= i < |r| && 0 <= j < |s| && s[j].houseId == r[i].houseId && s[j].isPrItem ==> r[i].isPrItem
  }

  /**
   The de-duplicated snapshot: sort, then `drop_duplicates('house_id')` keeping the first.
   Every id of the input occurs exactly once, in ascending order with a missing id
   last; every kept row is an input row; and when any row of an id is promoted,
   the kept row for that id is promoted. Since the sort is stable, the kept row
   is the `Best` one: the first in file order among the rows of its id with the
   highest promoted flag.
   */
  function Dedup(s: seq<SnapRow>): (r: seq<SnapRow>)
    ensures Ids(r) == Ids(s)
    ensures StrictlyAscending(r)
    ensures forall x :: x in r ==> x in s
    ensures PrefersPromoted(r, s)
    ensures forall x :: x in r ==> Best(s, x.houseId) == Some(x)
  {
    var sorted := SortRows(s);
    DedupSound(s, sorted);
    SortedKeepsBest(s);
    Seqs.KeepFirstBy(sorted, IdOf, {})
  }

  lemma DedupSound(s: seq<SnapRow>, sorted: seq<SnapRow>)
    requires sorted == SortRows(s)
    ensures var r := Seqs.KeepFirstBy(sorted, IdOf, {});
            Ids(r) == Ids(s) && StrictlyAscending(r) && (forall x :: x in r ==> x in s) && PrefersPromoted(r, s)
  {
    var r := Seqs.KeepFirstBy(sorted, IdOf, {});
    SameMembers(s, sorted);
    assert Ids(sorted) == Ids(s);
    KeepFirstSorted(sorted, {});
    KeepFirstPrefersPromoted(sorted, {});
    forall j | 0 <= j < |s|
      ensures exists k :: 0 <= k < |sorted| && sorted[k] == s[j]
    {
      assert s[j] in sorted;
    }
  }

  lemma SameMembers(s: seq<SnapRow>, t: seq<SnapRow>)
    requires multiset(s) == multiset(t)
    ensures forall x :: x in s <==> x in t
  {
    forall x
      ensures x in s <==> x in t
    {
      assert x in s <==> x in multiset(s);
      assert x in t <==> x in multiset(t);
    }
  }

  lemma {:induction false} KeepFirstSorted(s: seq<SnapRow>, seen: set<Option<HouseId>>)
    requires Sorted(s)
    ensures Sorted(Seqs.KeepFirstBy(s, IdOf, seen))
  {
    if s != [] {
      if s[0].houseId in seen {
        KeepFirstSorted(s[1..], seen);
      } else {
        KeepFirstSorted(s[1..], seen + {s[0].houseId});
        var rest := Seqs.KeepFirstBy(s[1..], IdOf, seen + {s[0].houseId});
        forall y | y in rest
          ensures SortLe(s[0], y)
        {
          assert y in s[1..];
        }
      }
    }
  }

  /** On sorted input, the row kept for an id is promoted whenever any row of that id is. */
  lemma {:induction false} KeepFirstPrefersPromoted(s: seq<SnapRow>, seen: set<Option<HouseId>>)
    requires Sorted(s)
    ensures PrefersPromoted(Seqs.KeepFirstBy(s, IdOf, seen), s)
  {
    if s != [] {
      var r := Seqs.KeepFirstBy(s, IdOf, seen);
      if s[0].houseId in seen {
        KeepFirstPrefersPromoted(s[1..], seen);
        forall i, j | 0 <= i < |r| && 0 < j < |s| && s[j].houseId == r[i].houseId && s[j].isPrItem
          ensures r[i].isPrItem
        {
          assert s[j] == s[1..][j - 1];
        }
        forall i | 0 <= i < |r|
          ensures s[0].houseId != r[i].houseId
        {
          assert IdOf(r[i]) !in seen;
        }
      } else {
        var seen' := seen + {s[0].houseId};
        var rest := Seqs.KeepFirstBy(s[1..], IdOf, seen');
        KeepFirstPrefersPromoted(s[1..], seen');
        assert r == [s[0]] + rest;
        forall i, j | 0 < i < |r| && 0 < j < |s| && s[j].houseId == r[i].houseId && s[j].isPrItem
          ensures r[i].isPrItem
        {
          assert r[i] == rest[i - 1];
          assert s[j] == s[1..][j - 1];
        }
        forall j | 0 < j < |s| && s[j].houseId == s[0].houseId && s[j].isPrItem
          ensures s[0].isPrItem
        {
          assert SortLe(s[0], s[j]);
        }
        forall i | 0 < i < |r|
          ensures s[0].houseId != r[i].houseId
        {
          assert r[i] == rest[i - 1];
          assert IdOf(rest[i - 1]) !in seen';
        }
      }
    }
  }

  lemma {:induction false} SortRowsSorted(s: seq<SnapRow>)
    requires Sorted(s)
    ensures SortRows(s) == s
  {
    if s != [] {
      SortRowsSorted(s[1..]);
      if |s| > 1 {
        assert SortLe(s[0], s[1..][0]);
      }
      assert [s[0]] + s[1..] == s;
    }
  }

  /** De-duplicating an already de-duplicated snapshot changes nothing. */
  lemma DedupIdempotent(s: seq<SnapRow>)
    ensures Dedup(Dedup(s)) == Dedup(s)
  {
    var d := Dedup(s);
    assert Sorted(d) by {
      forall i, j | 0 <= i < j < |d|
        ensures SortLe(d[i], d[j])
      {
        assert IdBefore(d[i].houseId, d[j].houseId);
      }
    }
    SortRowsSorted(d);
    forall i, j | 0 <= i < j < |d|
      ensures IdOf(d[i]) != IdOf(d[j])
    {
      assert IdBefore(d[i].houseId, d[j].houseId);
    }
    Seqs.KeepFirstByDistinct(d, IdOf, {});
  }
}
