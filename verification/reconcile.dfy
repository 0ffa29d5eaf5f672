/**
 The three-way classification of house_list_processor/main.py: the
 de-duplicated snapshot is outer-joined on `house_id` with the listings the
 store holds as available, and every id falls into one of the groups
 newly unavailable, possibly new, updated or unchanged.
 */
module Reconcile {
  import opened Values
  import opened Snapshot
  import Seqs
  import Tables

  /** The `lifull_house_link` table keyed by `house_id`. */
  type LinkTable = Tables.Table<HouseId>

  /** One row of `SELECT house_id, is_pr_item, listing_house_price ... WHERE is_available`. */
  datatype AvailRow = AvailRow(isPrItem: bool, price: Option<int>)

  /**
   How MySQL's `WHERE` reads a stored flag. It also stands for pandas'
   `astype(bool)` on `is_pr_item`, which instead reads NaN and a non-empty
   string as true.
   */
  predicate Truthy(v: Value)
  {
    match v
    case Null => false
    case Bool(b) => b
    case Int(i) => i != 0
    case Float(x) => x != 0.0
    case Str(_) => false
  }

  /** A stored listing price; NULL reads as missing. */
  function AsPrice(v: Value): Option<int>
  {
    match v
    case Int(i) => Some(i)
    case _ => None
  }

  /** The store's available listings, as the `SELECT` at the start of the run reads them. */
  function Available(store: LinkTable): (a: map<HouseId, AvailRow>)
    ensures forall k :: k in a <==> k in store && Truthy(Get(store[k], "is_available"))
    ensures forall k :: k in a ==> a[k] == AvailRow(Truthy(Get(store[k], "is_pr_item")), AsPrice(Get(store[k], "listing_house_price")))
  {
    map k | k in store && Truthy(Get(store[k], "is_available")) ::
      AvailRow(Truthy(Get(store[k], "is_pr_item")), AsPrice(Get(store[k], "listing_house_price")))
  }

  /** The snapshot row has a counterpart among the available listings. */
  predicate InStore(r: SnapRow, avail: map<HouseId, AvailRow>)
  {
    r.houseId.Some? && r.houseId.value in avail
  }

  /**
   Both prices are known (`dropna`) and the promoted flag or the price differs
   between the snapshot row and the stored listing.
   */
  predicate Changed(r: SnapRow, stored: AvailRow)
  {
    r.price.Some? && stored.price.Some? && (r.isPrItem != stored.isPrItem || r.price != stored.price)
  }

  /** The rows of `rows` without an available counterpart, in order. */
  function PossibleNewRows(rows: seq<SnapRow>, avail: map<HouseId, AvailRow>): (r: seq<SnapRow>)
    ensures forall x :: x in r <==> x in rows && !InStore(x, avail)
    ensures Ids(r) <= Ids(rows)
    ensures StrictlyAscending(rows) ==> StrictlyAscending(r)
  {
    if rows == [] then []
    else
      var rest := PossibleNewRows(rows[1..], avail);
      var r := if InStore(rows[0], avail) then rest else [rows[0]] + rest;
      assert StrictlyAscending(rows) ==> StrictlyAscending(r) by {
        if StrictlyAscending(rows) && !InStore(rows[0], avail) {
          ConsAscending(rows, rest);
        }
      }
      Seqs.KeySetMono(r, rows, IdOf);
      r
  }

  /** A strictly ascending snapshot's first row may head any ascending selection of its other rows. */
  lemma ConsAscending(rows: seq<SnapRow>, rest: seq<SnapRow>)
    requires rows != [] && StrictlyAscending(rows)
    requires StrictlyAscending(rest)
    requires forall x :: x in rest ==> x in rows[1..]
    ensures StrictlyAscending([rows[0]] + rest)
  {
    var r := [rows[0]] + rest;
    forall i, j | 0 <= i < j < |r|
      ensures IdBefore(r[i].houseId, r[j].houseId)
    {
      assert r[j] == rest[j - 1];
      if i == 0 {
        assert rest[j - 1] in rows[1..];
        var k :| 0 <= k < |rows[1..]| && rows[1..][k] == rest[j - 1];
        assert rows[k + 1] == r[j];
      } else {
        assert r[i] == rest[i - 1];
      }
    }
  }

  /** The rows of `rows` whose available counterpart differs from them, in order. */
  function UpdatedRows(rows: seq<SnapRow>, avail: map<HouseId, AvailRow>): (r: seq<SnapRow>)
    ensures forall x :: x in r <==> x in rows && InStore(x, avail) && Changed(x, avail[x.houseId.value])
    ensures Ids(r) <= Ids(rows)
    ensures StrictlyAscending(rows) ==> StrictlyAscending(r)
  {
    if rows == [] then []
    else
      var rest := UpdatedRows(rows[1..], avail);
      var r := if InStore(rows[0], avail) && Changed(rows[0], avail[rows[0].houseId.value]) then [rows[0]] + rest else rest;
      assert StrictlyAscending(rows) ==> StrictlyAscending(r) by {
        if StrictlyAscending(rows) && r != rest {
          ConsAscending(rows, rest);
        }
      }
      Seqs.KeySetMono(r, rows, IdOf);
      r
  }

  /** The groups of one reconciliation, each in ascending `house_id` order. */
  datatype Groups = Groups(newlyUnavailable: seq<HouseId>, possibleNew: seq<SnapRow>, updated: seq<SnapRow>)

  /** Available ids that the snapshot does not mention. */
  function Vanished(dedup: seq<SnapRow>, avail: map<HouseId, AvailRow>): set<HouseId>
  {
    set k | k in avail && Some(k) !in Ids(dedup)
  }

  /**
   The outer join and the three filters on it. With no available listing in the
   store, the whole snapshot is possibly new and the other groups are empty.
   */
  function Classify(dedup: seq<SnapRow>, avail: map<HouseId, AvailRow>): (g: Groups)
    ensures avail == map[] ==> g == Groups([], dedup, [])
    ensures forall x :: x in g.possibleNew <==> x in dedup && !InStore(x, avail)
    ensures forall x :: x in g.updated <==> x in dedup && InStore(x, avail) && Changed(x, avail[x.houseId.value])
    ensures forall x :: x in dedup && x.houseId.None? ==> x in g.possibleNew
    ensures forall i :: 0 <= i < |g.updated| ==> g.updated[i].houseId.Some?
    ensures Seqs.StrictlyIncreasing(g.newlyUnavailable)
    ensures StrictlyAscending(dedup) ==> StrictlyAscending(g.possibleNew) && StrictlyAscending(g.updated)
  {
    if |avail| > 0 then
      Groups(Seqs.SortedKeys(Vanished(dedup, avail)), PossibleNewRows(dedup, avail), UpdatedRows(dedup, avail))
    else
      assert avail == map[];
      Groups([], dedup, [])
  }

  /** The group a key belongs to, read straight off the two sides of the join. */
  datatype Class = NewlyUnavailable | PossiblyNew | Updated | Unchanged | Absent

  /** The reference classification of one key of the outer join. */
  function ClassOf(dedup: seq<SnapRow>, avail: map<HouseId, AvailRow>, k: Option<HouseId>): Class
  {
    match RowFor(dedup, k)
    case None => if k.Some? && k.value in avail then NewlyUnavailable else Absent
    case Some(r) =>
      if !InStore(r, avail) then PossiblyNew
      else if Changed(r, avail[k.value]) then Updated
      else Unchanged
  }

  /** In a snapshot with distinct ids, the row carrying an id is the one `RowFor` finds. */
  lemma {:induction false} RowForUnique(rows: seq<SnapRow>, x: SnapRow)
    requires StrictlyAscending(rows)
    requires x in rows
    ensures RowFor(rows, x.houseId) == Some(x)
  {
    if rows[0] != x {
      assert x in rows[1..];
      var j :| 0 <= j < |rows[1..]| && rows[1..][j] == x;
      assert IdBefore(rows[0].houseId, rows[j + 1].houseId);
      RowForUnique(rows[1..], x);
    }
  }

  /**
   Each group holds exactly the keys the reference classification puts in it,
   so the groups are pairwise disjoint and the unchanged and absent keys are in
   none of them.
   */
  lemma ClassifyMatchesClassOf(dedup: seq<SnapRow>, avail: map<HouseId, AvailRow>, k: Option<HouseId>)
    requires StrictlyAscending(dedup)
    ensures var g := Classify(dedup, avail);
            && (k.Some? && k.value in g.newlyUnavailable <==> ClassOf(dedup, avail, k) == NewlyUnavailable)
            && (k in Ids(g.possibleNew) <==> ClassOf(dedup, avail, k) == PossiblyNew)
            && (k in Ids(g.updated) <==> ClassOf(dedup, avail, k) == Updated)
  {
    var g := Classify(dedup, avail);
    match RowFor(dedup, k)
    case None =>
      forall x | x in dedup
        ensures x.houseId != k
      {
      }
    case Some(r) =>
      forall x | x in dedup && x.houseId == k
        ensures x == r
      {
        RowForUnique(dedup, x);
      }
  }

  /** The newly unavailable ids are the available ids the snapshot lacks. */
  lemma NewlyUnavailableExactly(dedup: seq<SnapRow>, avail: map<HouseId, AvailRow>, k: HouseId)
    requires StrictlyAscending(dedup)
    ensures k in Classify(dedup, avail).newlyUnavailable <==> k in avail && Some(k) !in Ids(dedup)
  {
    ClassifyMatchesClassOf(dedup, avail, Some(k));
  }

  /** No id is in two groups. */
  lemma GroupsDisjoint(dedup: seq<SnapRow>, avail: map<HouseId, AvailRow>)
    requires StrictlyAscending(dedup)
    ensures var g := Classify(dedup, avail);
            && (forall k :: k in g.newlyUnavailable ==> Some(k) !in Ids(g.possibleNew) && Some(k) !in Ids(g.updated))
            && Ids(g.possibleNew) !! Ids(g.updated)
  {
    var g := Classify(dedup, avail);
    forall k | k in g.newlyUnavailable
      ensures Some(k) !in Ids(g.possibleNew) && Some(k) !in Ids(g.updated)
    {
      ClassifyMatchesClassOf(dedup, avail, Some(k));
    }
    forall k | k in Ids(g.possibleNew)
      ensures k !in Ids(g.updated)
    {
      ClassifyMatchesClassOf(dedup, avail, k);
    }
  }
}
