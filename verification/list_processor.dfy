/**
 The writes and the worklist of house_list_processor/main.py: possibly new
 listings are upserted into `lifull_house_link`, updated listings are
 overwritten, and the ids to crawl next are queued.
 */
module ListProcessor {
  import opened Values
  import opened Snapshot
  import opened Reconcile
  import Seqs
  import Tables

  /**
   The columns both writes overwrite with the snapshot's listing: the
   on-duplicate map of the possibly-new upsert and the map of the updated
   write are the same dict.
   */
  function ListingFields(x: SnapRow): ValMap
  {
    [ Field("is_pr_item", Bool(x.isPrItem)),
      Field("listing_house_name", Str(Quoted(x.name))),
      Field("listing_house_price", PriceValue(x.price)),
      Field("sale_category", Str(Quoted(x.saleCategory))),
      Field("city", Str(Quoted(x.city))),
      Field("is_available", Int(1)),
      Field("unavailable_date", Str("null")) ]
  }

  /** The insert map of the possibly-new upsert. */
  function InsertFields(x: SnapRow, id: HouseId, today: string): ValMap
  {
    [ Field("house_id", Int(id)),
      Field("is_pr_item", Bool(x.isPrItem)),
      Field("listing_house_name", Str(Quoted(x.name))),
      Field("listing_house_price", PriceValue(x.price)),
      Field("sale_category", Str(Quoted(x.saleCategory))),
      Field("city", Str(Quoted(x.city))),
      Field("is_available", Int(1)),
      Field("first_available_date", Str(Quoted(today))),
      Field("unavailable_date", Str("null")) ]
  }

  /** The stored row shows the snapshot row's listing and marks it available. */
  predicate Shows(rec: Record, x: SnapRow)
  {
    && Get(rec, "is_pr_item") == Bool(x.isPrItem)
    && Get(rec, "listing_house_name") == Str(Quoted(x.name))
    && Get(rec, "listing_house_price") == PriceValue(x.price)
    && Get(rec, "sale_category") == Str(Quoted(x.saleCategory))
    && Get(rec, "city") == Str(Quoted(x.city))
    && Get(rec, "is_available") == Int(1)
    && Get(rec, "unavailable_date") == Str("null")
  }

  lemma ListingColumnsUnique(x: SnapRow)
    ensures UniqueColumns(ListingFields(x))
  {
    var m := ListingFields(x);
    forall i, j | 0 <= i < j < |m|
      ensures m[i].column != m[j].column
    {
      assert i == 0 || i == 1 || i == 2 || i == 3 || i == 4 || i == 5;
      assert j == 1 || j == 2 || j == 3 || j == 4 || j == 5 || j == 6;
    }
  }

  lemma InsertColumnsUnique(x: SnapRow, id: HouseId, today: string)
    ensures UniqueColumns(InsertFields(x, id, today))
  {
    var m := InsertFields(x, id, today);
    forall i, j | 0 <= i < j < |m|
      ensures m[i].column != m[j].column
    {
      assert i == 0 || i == 1 || i == 2 || i == 3 || i == 4 || i == 5 || i == 6 || i == 7;
      assert j == 1 || j == 2 || j == 3 || j == 4 || j == 5 || j == 6 || j == 7 || j == 8;
    }
  }

  /**
   Overwriting a row with the listing columns makes it show the snapshot row
   and leaves its `first_available_date` alone.
   */
  lemma ListingFieldsEffect(rec: Record, x: SnapRow)
    ensures Shows(Overlay(rec, ListingFields(x)), x)
    ensures Get(Overlay(rec, ListingFields(x)), "first_available_date") == Get(rec, "first_available_date")
  {
    ListingFieldsShow(rec, x);
    ListingFieldsKeepDate(rec, x);
  }

  lemma ListingFieldsShow(rec: Record, x: SnapRow)
    ensures Shows(Overlay(rec, ListingFields(x)), x)
  {
    var m := ListingFields(x);
    var r := Overlay(rec, m);
    ListingColumnsUnique(x);
    OverlayReads(rec, m, 0);
    OverlayReads(rec, m, 1);
    OverlayReads(rec, m, 2);
    OverlayReads(rec, m, 3);
    OverlayReads(rec, m, 4);
    OverlayReads(rec, m, 5);
    OverlayReads(rec, m, 6);
  }

  lemma ListingFieldsKeepDate(rec: Record, x: SnapRow)
    ensures Get(Overlay(rec, ListingFields(x)), "first_available_date") == Get(rec, "first_available_date")
  {
    var m := ListingFields(x);
    forall i | 0 <= i < |m|
      ensures Columns(m)[i] != "first_available_date"
    {
      assert i == 0 || i == 1 || i == 2 || i == 3 || i == 4 || i == 5 || i == 6;
    }
    OverlayKeeps(rec, m, "first_available_date");
  }

  /** A freshly inserted row shows the snapshot row, carries its id and is first available today. */
  lemma InsertFieldsEffect(x: SnapRow, id: HouseId, today: string)
    ensures var rec := Overlay(map[], InsertFields(x, id, today));
            && Shows(rec, x)
            && Get(rec, "house_id") == Int(id)
            && Get(rec, "first_available_date") == Str(Quoted(today))
  {
    var m := InsertFields(x, id, today);
    InsertColumnsUnique(x, id, today);
    OverlayReads(map[], m, 0);
    OverlayReads(map[], m, 1);
    OverlayReads(map[], m, 2);
    OverlayReads(map[], m, 3);
    OverlayReads(map[], m, 4);
    OverlayReads(map[], m, 5);
    OverlayReads(map[], m, 6);
    OverlayReads(map[], m, 7);
    OverlayReads(map[], m, 8);
  }

  /** The possibly-new upsert of one snapshot row whose id is `id`. */
  function UpsertListing(store: LinkTable, x: SnapRow, id: HouseId, today: string): (w: Tables.Written<HouseId>)
    ensures w.table.Keys == store.Keys + {id}
    ensures id in w.table && Shows(w.table[id], x)
    ensures id !in store ==> w.rowcount == 1 && Get(w.table[id], "first_available_date") == Str(Quoted(today))
    ensures id in store ==> Get(w.table[id], "first_available_date") == Get(store[id], "first_available_date")
    ensures w.rowcount == 0 ==> Shows(store[id], x)
  {
    InsertFieldsEffect(x, id, today);
    if id in store then
      ListingFieldsEffect(store[id], x);
      Tables.Upsert(store, id, InsertFields(x, id, today), ListingFields(x))
    else
      Tables.Upsert(store, id, InsertFields(x, id, today), ListingFields(x))
  }

  /** The link table after some rows were written, the counters, and whether a write failed. */
  datatype Progress = Progress(store: LinkTable, added: nat, reopened: nat, aborted: bool)

  /**
   `handle_possible_new_house_df`: upsert every row in order, counting rowcount 1
   as added and 2 as made available again. A row without an id or without a
   price cannot be written: the NaN is bound as the bare word `nan`, which the
   database rejects. The run stops there with the earlier writes committed.
   */
  function HandlePossibleNew(store: LinkTable, rows: seq<SnapRow>, today: string): (p: Progress)
    ensures !p.aborted <==> None !in Ids(rows) && None !in Prices(rows)
    ensures p.added + p.reopened <= |rows|
    ensures store.Keys <= p.store.Keys
    ensures forall k :: Some(k) !in Ids(rows) ==> (k in p.store <==> k in store) && (k in store ==> p.store[k] == store[k])
    decreases |rows|
  {
    if rows == [] then Progress(store, 0, 0, false)
    else
      Seqs.KeySetCons(rows, IdOf);
      Seqs.KeySetCons(rows, PriceOf);
      match rows[0].houseId
      case None => Progress(store, 0, 0, true)
      case Some(id) =>
        if rows[0].price.None? then Progress(store, 0, 0, true) else
        var w := UpsertListing(store, rows[0], id, today);
        var rest := HandlePossibleNew(w.table, rows[1..], today);
        Progress(rest.store,
                 rest.added + (if w.rowcount == 1 then 1 else 0),
                 rest.reopened + (if w.rowcount == 2 then 1 else 0),
                 rest.aborted)
  }

  /** The number of rows whose id the table does not hold. */
  function CountAbsent(rows: seq<SnapRow>, store: LinkTable): (n: nat)
    ensures n <= |rows|
  {
    if rows == [] then 0
    else (if rows[0].houseId.Some? && rows[0].houseId.value !in store then 1 else 0) + CountAbsent(rows[1..], store)
  }

  /**
   The write `handle_updated_house_df` makes for one row: its listing columns
   overwrite the stored row, and the write counts only when the row did not
   already show the listing.
   */
  function UpdateListing(store: LinkTable, x: SnapRow): (w: Tables.Written<HouseId>)
    requires x.houseId.Some?
    ensures w.table.Keys == store.Keys
    ensures w.table - {x.houseId.value} == store - {x.houseId.value}
    ensures forall k :: k != x.houseId.value && k in store ==> w.table[k] == store[k]
    ensures w.rowcount in {0, 1}
    ensures x.houseId.value in store ==> Shows(w.table[x.houseId.value], x)
    ensures w.rowcount == 0 && x.houseId.value in store ==> Shows(store[x.houseId.value], x)
  {
    var id := x.houseId.value;
    if id in store then
      ListingFieldsEffect(store[id], x);
      Tables.Update(store, id, ListingFields(x))
    else
      Tables.Update(store, id, ListingFields(x))
  }

  /** The link table after the updated rows were written, and the summed rowcount. */
  datatype Applied = Applied(store: LinkTable, count: int)

  /**
   `handle_updated_house_df`: overwrite the listing of every row in order and
   sum the rowcounts.
   */
  function HandleUpdated(store: LinkTable, rows: seq<SnapRow>): (a: Applied)
    requires forall i :: 0 <= i < |rows| ==> rows[i].houseId.Some?
    ensures 0 <= a.count <= |rows|
    ensures a.store.Keys == store.Keys
    ensures forall k :: Some(k) !in Ids(rows) && k in store ==> a.store[k] == store[k]
    decreases |rows|
  {
    if rows == [] then Applied(store, 0)
    else
      Seqs.KeySetCons(rows, IdOf);
      var w := UpdateListing(store, rows[0]);
      assert forall i :: 0 <= i < |rows[1..]| ==> rows[1..][i] == rows[i + 1];
      var rest := HandleUpdated(w.table, rows[1..]);
      Applied(rest.store, rest.count + w.rowcount)
  }

  /** `--strategy`: queue only what changed, or the whole snapshot. */
  datatype Strategy = UpdateOnly | All

  datatype Counts = Counts(added: nat, updatedAvailable: nat, updated: int)

  /**
   A finished run leaves the link table, the three logged counters and the ids
   written to the output file; a run stopped by a failed write leaves the rows
   it committed.
   */
  datatype Outcome = Completed(store: LinkTable, counts: Counts, worklist: seq<HouseId>) | Aborted(store: LinkTable)

  /** The ids of rows that all have one, in order. */
  function QueuedIds(rows: seq<SnapRow>): (ids: seq<HouseId>)
    requires forall i :: 0 <= i < |rows| ==> rows[i].houseId.Some?
    ensures |ids| == |rows|
    ensures forall i :: 0 <= i < |rows| ==> ids[i] == rows[i].houseId.value
  {
    if rows == [] then [] else [rows[0].houseId.value] + QueuedIds(rows[1..])
  }

  /**
   `main(house_links_file_path, output_file_path, strategy)` with the snapshot
   already read, the link table as the database and `today` as the clock.
   */
  function Run(snapshot: seq<SnapRow>, store: LinkTable, today: string, strategy: Strategy): (o: Outcome)
    ensures store.Keys <= o.store.Keys
  {
    var dedup := Dedup(snapshot);
    ApplyGroups(dedup, Classify(dedup, Available(store)), store, today, strategy)
  }

  /** The writes and the worklist of a run that classified the de-duplicated snapshot as `g`. */
  function ApplyGroups(dedup: seq<SnapRow>, g: Groups, store: LinkTable, today: string, strategy: Strategy): (o: Outcome)
    requires forall x :: x in dedup && x.houseId.None? ==> x in g.possibleNew
    requires forall i :: 0 <= i < |g.updated| ==> g.updated[i].houseId.Some?
  {
    var p := HandlePossibleNew(store, g.possibleNew, today);
    if p.aborted then
      Aborted(p.store)
    else
      IdsPresent(dedup, g.possibleNew);
      var u := HandleUpdated(p.store, g.updated);
      var queued :=
        if strategy == All then QueuedIds(dedup)
        else g.newlyUnavailable + QueuedIds(g.possibleNew) + QueuedIds(g.updated);
      Completed(u.store, Counts(p.added, p.reopened, u.count), queued)
  }

  /** When every possibly new row has an id and every row without one is possibly new, every row has an id. */
  lemma IdsPresent(dedup: seq<SnapRow>, possibleNew: seq<SnapRow>)
    requires forall x :: x in dedup && x.houseId.None? ==> x in possibleNew
    requires None !in Ids(possibleNew)
    ensures forall i :: 0 <= i < |dedup| ==> dedup[i].houseId.Some?
    ensures forall i :: 0 <= i < |possibleNew| ==> possibleNew[i].houseId.Some?
  {
    forall i | 0 <= i < |possibleNew|
      ensures possibleNew[i].houseId.Some?
    {
      assert IdOf(possibleNew[i]) in Ids(possibleNew);
    }
    forall i | 0 <= i < |dedup|
      ensures dedup[i].houseId.Some?
    {
      if dedup[i].houseId.None? {
        assert dedup[i] in possibleNew;
      }
    }
  }

  /** When every possibly new row has an id, so does every snapshot row. */
  lemma AllIdsPresent(dedup: seq<SnapRow>, possibleNew: seq<SnapRow>, avail: map<HouseId, AvailRow>)
    requires possibleNew == Classify(dedup, avail).possibleNew
    requires None !in Ids(possibleNew)
    ensures forall i :: 0 <= i < |dedup| ==> dedup[i].houseId.Some?
    ensures forall i :: 0 <= i < |possibleNew| ==> possibleNew[i].houseId.Some?
  {
    IdsPresent(dedup, possibleNew);
  }

  /**
   Every snapshot row has an id and every possibly new row a price, so each
   upsert of the run can be bound.
   */
  predicate Completes(snapshot: seq<SnapRow>, store: LinkTable)
  {
    None !in Ids(snapshot) && None !in Prices(Classify(Dedup(snapshot), Available(store)).possibleNew)
  }

  /** A run stops exactly when some snapshot row lacks an id or some possibly new row lacks a price. */
  lemma RunAborts(snapshot: seq<SnapRow>, store: LinkTable, today: string, strategy: Strategy)
    ensures Run(snapshot, store, today, strategy).Aborted? <==> !Completes(snapshot, store)
  {
    var dedup := Dedup(snapshot);
    MissingIdPossiblyNew(dedup, Available(store));
  }

  /** A snapshot row without an id stops the run whatever the table holds. */
  lemma MissingIdAborts(snapshot: seq<SnapRow>, store: LinkTable, today: string, strategy: Strategy)
    requires None in Ids(snapshot)
    ensures Run(snapshot, store, today, strategy).Aborted?
  {
    RunAborts(snapshot, store, today, strategy);
  }

  /** A row without an id is possibly new, so the possibly-new rows lack an id exactly when the snapshot does. */
  lemma MissingIdPossiblyNew(dedup: seq<SnapRow>, avail: map<HouseId, AvailRow>)
    ensures None in Ids(Classify(dedup, avail).possibleNew) <==> None in Ids(dedup)
  {
    var possibleNew := Classify(dedup, avail).possibleNew;
    if None in Ids(dedup) {
      var x :| x in dedup && IdOf(x) == None;
      assert x in possibleNew;
      assert IdOf(x) in Ids(possibleNew);
    }
    if None in Ids(possibleNew) {
      var x :| x in possibleNew && IdOf(x) == None;
      assert IdOf(x) in Ids(dedup);
    }
  }

  /** Tables that agree on which of the rows' ids they hold count the same absent rows. */
  lemma {:induction false} CountAbsentFrame(rows: seq<SnapRow>, t1: LinkTable, t2: LinkTable)
    requires forall i :: 0 <= i < |rows| && rows[i].houseId.Some? ==> (rows[i].houseId.value in t1 <==> rows[i].houseId.value in t2)
    ensures CountAbsent(rows, t1) == CountAbsent(rows, t2)
  {
    if rows != [] {
      CountAbsentFrame(rows[1..], t1, t2);
    }
  }

  /** In ascending rows, no later row repeats the first row's id. */
  lemma FirstIdNotLater(rows: seq<SnapRow>)
    requires StrictlyAscending(rows)
    requires rows != []
    ensures rows[0].houseId !in Ids(rows[1..])
    ensures forall i :: 0 < i < |rows| ==> rows[i].houseId != rows[0].houseId
  {
    forall y | y in rows[1..]
      ensures y.houseId != rows[0].houseId
    {
      var j :| 0 <= j < |rows[1..]| && rows[1..][j] == y;
      assert IdBefore(rows[0].houseId, rows[j + 1].houseId);
    }
    forall i | 0 < i < |rows|
      ensures rows[i].houseId != rows[0].houseId
    {
      assert IdBefore(rows[0].houseId, rows[i].houseId);
    }
  }

  /** Every row has an id, held by `t`, whose row shows that snapshot row. */
  predicate AllShown(t: LinkTable, rows: seq<SnapRow>)
  {
    forall i :: 0 <= i < |rows| ==> rows[i].houseId.Some? && rows[i].houseId.value in t && Shows(t[rows[i].houseId.value], rows[i])
  }

  /** No row with an id held by `t` is already shown there. */
  predicate NoneShown(t: LinkTable, rows: seq<SnapRow>)
  {
    forall i :: 0 <= i < |rows| && rows[i].houseId.Some? && rows[i].houseId.value in t ==> !Shows(t[rows[i].houseId.value], rows[i])
  }

  /** A write to the first row's id does not disturb what the later rows see. */
  lemma AllShownTail(t: LinkTable, t': LinkTable, rows: seq<SnapRow>)
    requires StrictlyAscending(rows) && rows != [] && rows[0].houseId.Some?
    requires AllShown(t', rows[1..])
    requires rows[0].houseId.value in t' && Shows(t'[rows[0].houseId.value], rows[0])
    ensures AllShown(t', rows)
  {
    forall i | 0 < i < |rows|
      ensures rows[i].houseId.Some? && rows[i].houseId.value in t' && Shows(t'[rows[i].houseId.value], rows[i])
    {
      assert rows[i] == rows[1..][i - 1];
    }
  }

  lemma NoneShownTail(t: LinkTable, t': LinkTable, rows: seq<SnapRow>)
    requires StrictlyAscending(rows) && rows != [] && rows[0].houseId.Some?
    requires NoneShown(t, rows)
    requires t' - {rows[0].houseId.value} == t - {rows[0].houseId.value}
    requires t'.Keys <= t.Keys + {rows[0].houseId.value}
    ensures NoneShown(t', rows[1..])
  {
    FirstIdNotLater(rows);
    var id := rows[0].houseId.value;
    forall i | 0 <= i < |rows[1..]| && rows[1..][i].houseId.Some? && rows[1..][i].houseId.value in t'
      ensures !Shows(t'[rows[1..][i].houseId.value], rows[1..][i])
    {
      var k := rows[1..][i].houseId.value;
      assert rows[1..][i] == rows[i + 1];
      assert k != id;
      assert k in t' - {id};
      assert t'[k] == (t' - {id})[k] == (t - {id})[k] == t[k];
    }
  }

  /**
   When the first row is shown in `t` and the later writes leave its id alone,
   the first row stays shown after them.
   */
  lemma ShownAfterFirst(t: LinkTable, t': LinkTable, rows: seq<SnapRow>)
    requires StrictlyAscending(rows) && rows != [] && rows[0].houseId.Some?
    requires rows[0].houseId.value in t && Shows(t[rows[0].houseId.value], rows[0])
    requires AllShown(t', rows[1..])
    requires forall k :: Some(k) !in Ids(rows[1..]) ==> (k in t' <==> k in t) && (k in t ==> t'[k] == t[k])
    ensures AllShown(t', rows)
  {
    FirstIdNotLater(rows);
    var id := rows[0].houseId.value;
    assert Some(id) !in Ids(rows[1..]);
    assert id in t' && t'[id] == t[id];
    AllShownTail(t, t', rows);
  }

  lemma AscendingTail(rows: seq<SnapRow>)
    requires StrictlyAscending(rows) && rows != []
    ensures StrictlyAscending(rows[1..])
  {
    forall i, j | 0 <= i < j < |rows[1..]|
      ensures IdBefore(rows[1..][i].houseId, rows[1..][j].houseId)
    {
      assert rows[1..][i] == rows[i + 1] && rows[1..][j] == rows[j + 1];
    }
  }

  /** One step of the handler: upsert the first row, then hand the rest on. */
  lemma HandlePossibleNewStep(store: LinkTable, rows: seq<SnapRow>, today: string)
    requires rows != [] && rows[0].houseId.Some? && rows[0].price.Some?
    ensures var w := UpsertListing(store, rows[0], rows[0].houseId.value, today);
            var rest := HandlePossibleNew(w.table, rows[1..], today);
            var p := HandlePossibleNew(store, rows, today);
            && p.store == rest.store && p.aborted == rest.aborted
            && p.added == rest.added + (if w.rowcount == 1 then 1 else 0)
            && p.reopened == rest.reopened + (if w.rowcount == 2 then 1 else 0)
  {
  }

  /** After the possibly-new rows of distinct ids are upserted, each shows its listing. */
  lemma {:induction false} HandlePossibleNewShows(store: LinkTable, rows: seq<SnapRow>, today: string)
    requires StrictlyAscending(rows)
    ensures var p := HandlePossibleNew(store, rows, today);
            !p.aborted ==> AllShown(p.store, rows)
    decreases |rows|
  {
    if rows != [] && rows[0].houseId.Some? && rows[0].price.Some? {
      var w := UpsertListing(store, rows[0], rows[0].houseId.value, today);
      HandlePossibleNewStep(store, rows, today);
      AscendingTail(rows);
      HandlePossibleNewShows(w.table, rows[1..], today);
      var rest := HandlePossibleNew(w.table, rows[1..], today);
      if !rest.aborted {
        ShownAfterFirst(w.table, rest.store, rows);
      }
    }
  }

  /** Exactly the rows whose id was absent are counted as added. */
  lemma {:induction false} HandlePossibleNewAdded(store: LinkTable, rows: seq<SnapRow>, today: string)
    requires StrictlyAscending(rows)
    ensures var p := HandlePossibleNew(store, rows, today);
            !p.aborted ==> p.added == CountAbsent(rows, store)
    decreases |rows|
  {
    if rows != [] && rows[0].houseId.Some? && rows[0].price.Some? {
      var id := rows[0].houseId.value;
      var w := UpsertListing(store, rows[0], id, today);
      HandlePossibleNewStep(store, rows, today);
      AscendingTail(rows);
      HandlePossibleNewAdded(w.table, rows[1..], today);
      AbsentAfterFirst(store, w.table, rows);
    }
  }

  /** Adding the first row's id to a table does not change which later rows are absent from it. */
  lemma AbsentAfterFirst(t: LinkTable, t': LinkTable, rows: seq<SnapRow>)
    requires StrictlyAscending(rows) && rows != [] && rows[0].houseId.Some?
    requires t'.Keys == t.Keys + {rows[0].houseId.value}
    ensures CountAbsent(rows[1..], t') == CountAbsent(rows[1..], t)
  {
    FirstIdNotLater(rows);
    forall i | 0 <= i < |rows[1..]| && rows[1..][i].houseId.Some?
      ensures rows[1..][i].houseId.value in t' <==> rows[1..][i].houseId.value in t
    {
      assert rows[1..][i] == rows[i + 1];
    }
    CountAbsentFrame(rows[1..], t', t);
  }

  /** When no row is already shown as available, every upsert is counted as added or made available again. */
  lemma {:induction false} HandlePossibleNewCounted(store: LinkTable, rows: seq<SnapRow>, today: string)
    requires StrictlyAscending(rows)
    requires NoneShown(store, rows)
    ensures var p := HandlePossibleNew(store, rows, today);
            !p.aborted ==> p.added + p.reopened == |rows|
    decreases |rows|
  {
    if rows != [] && rows[0].houseId.Some? && rows[0].price.Some? {
      var id := rows[0].houseId.value;
      var w := UpsertListing(store, rows[0], id, today);
      HandlePossibleNewStep(store, rows, today);
      assert w.rowcount != 0 by {
        if id in store {
          assert !Shows(store[id], rows[0]);
        }
      }
      NoneShownTail(store, w.table, rows);
      HandlePossibleNewCounted(w.table, rows[1..], today);
    }
  }

  /** After the updated rows of distinct stored ids are overwritten, each shows its listing. */
  lemma {:induction false} HandleUpdatedShows(store: LinkTable, rows: seq<SnapRow>)
    requires StrictlyAscending(rows)
    requires forall i :: 0 <= i < |rows| ==> rows[i].houseId.Some? && rows[i].houseId.value in store
    ensures AllShown(HandleUpdated(store, rows).store, rows)
  {
    if rows != [] {
      var id := rows[0].houseId.value;
      var w := UpdateListing(store, rows[0]);
      AscendingTail(rows);
      StoredTail(store, w.table, rows);
      HandleUpdatedShows(w.table, rows[1..]);
      ShownAfterFirst(w.table, HandleUpdated(w.table, rows[1..]).store, rows);
    }
  }

  /** Rows whose ids a table holds still have them held after a write that keeps the keys. */
  lemma StoredTail(t: LinkTable, t': LinkTable, rows: seq<SnapRow>)
    requires rows != [] && t'.Keys == t.Keys
    requires forall i :: 0 <= i < |rows| ==> rows[i].houseId.Some? && rows[i].houseId.value in t
    ensures forall i :: 0 <= i < |rows[1..]| ==> rows[1..][i].houseId.Some? && rows[1..][i].houseId.value in t'
  {
    forall i | 0 <= i < |rows[1..]|
      ensures rows[1..][i].houseId.Some? && rows[1..][i].houseId.value in t'
    {
      assert rows[1..][i] == rows[i + 1];
    }
  }

  /** When no updated row is shown yet, every overwrite changes its row and is counted. */
  lemma {:induction false} HandleUpdatedCounted(store: LinkTable, rows: seq<SnapRow>)
    requires StrictlyAscending(rows)
    requires forall i :: 0 <= i < |rows| ==> rows[i].houseId.Some? && rows[i].houseId.value in store
    requires NoneShown(store, rows)
    ensures HandleUpdated(store, rows).count == |rows|
  {
    if rows != [] {
      var w := UpdateListing(store, rows[0]);
      assert w.rowcount == 1 by {
        assert !Shows(store[rows[0].houseId.value], rows[0]);
      }
      AscendingTail(rows);
      StoredTail(store, w.table, rows);
      NoneShownTail(store, w.table, rows);
      HandleUpdatedCounted(w.table, rows[1..]);
    }
  }

  /** A stored row that shows a snapshot row is available with that row's flag and price. */
  lemma ShowsAvailable(store: LinkTable, id: HouseId, x: SnapRow)
    requires id in store && Shows(store[id], x)
    ensures id in Available(store) && Available(store)[id] == AvailRow(x.isPrItem, x.price)
  {
  }

  /** In a snapshot of distinct ids, a row outside a sub-selection shares no id with it. */
  lemma OwnerUnique(dedup: seq<SnapRow>, rows: seq<SnapRow>, x: SnapRow)
    requires StrictlyAscending(dedup)
    requires forall y :: y in rows ==> y in dedup
    requires x in dedup && x !in rows
    ensures x.houseId !in Ids(rows)
  {
    if x.houseId in Ids(rows) {
      var y :| y in rows && IdOf(y) == x.houseId;
      RowForUnique(dedup, x);
      RowForUnique(dedup, y);
    }
  }

  lemma QueuedIdsMembers(rows: seq<SnapRow>, k: HouseId)
    requires forall i :: 0 <= i < |rows| ==> rows[i].houseId.Some?
    ensures k in QueuedIds(rows) <==> Some(k) in Ids(rows)
  {
    var q := QueuedIds(rows);
    if k in q {
      var i :| 0 <= i < |q| && q[i] == k;
      assert IdOf(rows[i]) == Some(k);
    }
    if Some(k) in Ids(rows) {
      var y :| y in rows && IdOf(y) == Some(k);
      var i :| 0 <= i < |rows| && rows[i] == y;
      assert q[i] == k;
    }
  }

  lemma QueuedIdsIncreasing(rows: seq<SnapRow>)
    requires forall i :: 0 <= i < |rows| ==> rows[i].houseId.Some?
    requires StrictlyAscending(rows)
    ensures Seqs.StrictlyIncreasing(QueuedIds(rows))
  {
    var q := QueuedIds(rows);
    forall i, j | 0 <= i < j < |q|
      ensures q[i] < q[j]
    {
      assert IdBefore(rows[i].houseId, rows[j].houseId);
    }
  }

  lemma IncreasingDistinct(s: seq<int>)
    requires Seqs.StrictlyIncreasing(s)
    ensures Seqs.Distinct(s)
  {
    forall i, j | 0 <= i < j < |s|
      ensures s[i] != s[j]
    {
      assert s[i] < s[j];
    }
  }

  /**
   A completed run leaves every possibly new and every updated row showing its
   listing, and every other row of the link table as it was; in particular
   the newly unavailable listings are queued but not written.
   */
  lemma RunWrites(snapshot: seq<SnapRow>, store: LinkTable, today: string, strategy: Strategy)
    requires Completes(snapshot, store)
    ensures var g := Classify(Dedup(snapshot), Available(store));
            var o := Run(snapshot, store, today, strategy);
            && AllShown(o.store, g.possibleNew)
            && AllShown(o.store, g.updated)
            && (forall k :: Some(k) !in Ids(g.possibleNew) && Some(k) !in Ids(g.updated) ==>
                  (k in o.store <==> k in store) && (k in store ==> o.store[k] == store[k]))
            && (forall k :: k in g.newlyUnavailable ==> k in o.store && o.store[k] == store[k])
  {
    RunAborts(snapshot, store, today, strategy);
    var dedup := Dedup(snapshot);
    var avail := Available(store);
    var g := Classify(dedup, avail);
    var p := HandlePossibleNew(store, g.possibleNew, today);
    var u := HandleUpdated(p.store, g.updated);
    assert Run(snapshot, store, today, strategy).store == u.store;
    GroupsDisjoint(dedup, avail);
    HandlePossibleNewShows(store, g.possibleNew, today);
    forall i | 0 <= i < |g.possibleNew|
      ensures g.possibleNew[i].houseId.value in u.store && Shows(u.store[g.possibleNew[i].houseId.value], g.possibleNew[i])
    {
      assert IdOf(g.possibleNew[i]) in Ids(g.possibleNew);
    }
    forall i | 0 <= i < |g.updated|
      ensures g.updated[i].houseId.value in p.store
    {
      assert g.updated[i] in g.updated;
      assert IdOf(g.updated[i]) in Ids(g.updated);
    }
    HandleUpdatedShows(p.store, g.updated);
    forall k | k in g.newlyUnavailable
      ensures k in u.store && u.store[k] == store[k]
    {
      NewlyUnavailableExactly(dedup, avail, k);
    }
  }

  /** No possibly new row is stored as available, so none is shown yet. */
  lemma PossibleNewNoneShown(dedup: seq<SnapRow>, store: LinkTable)
    ensures NoneShown(store, Classify(dedup, Available(store)).possibleNew)
  {
    var rows := Classify(dedup, Available(store)).possibleNew;
    forall i | 0 <= i < |rows| && rows[i].houseId.Some? && rows[i].houseId.value in store
      ensures !Shows(store[rows[i].houseId.value], rows[i])
    {
      assert rows[i] in rows;
    }
  }

  /**
   Every updated row differs from its stored listing, and the possibly-new
   upserts left those listings alone, so none is shown yet.
   */
  lemma UpdatedNoneShown(dedup: seq<SnapRow>, store: LinkTable, written: LinkTable)
    requires StrictlyAscending(dedup)
    requires var g := Classify(dedup, Available(store));
             forall k :: Some(k) !in Ids(g.possibleNew) ==> (k in written <==> k in store) && (k in store ==> written[k] == store[k])
    ensures NoneShown(written, Classify(dedup, Available(store)).updated)
  {
    var avail := Available(store);
    var g := Classify(dedup, avail);
    GroupsDisjoint(dedup, avail);
    forall i | 0 <= i < |g.updated| && g.updated[i].houseId.Some? && g.updated[i].houseId.value in written
      ensures !Shows(written[g.updated[i].houseId.value], g.updated[i])
    {
      var x := g.updated[i];
      assert x in g.updated;
      assert IdOf(x) in Ids(g.updated);
      if Shows(store[x.houseId.value], x) {
        ShowsAvailable(store, x.houseId.value, x);
      }
    }
  }

  /**
   The logged counters: added counts the possibly new ids the table lacked;
   every possibly new row is counted as added or as made available again, since
   none of them is stored as available; and every updated row is counted once.
   */
  lemma RunCounts(snapshot: seq<SnapRow>, store: LinkTable, today: string, strategy: Strategy)
    requires Completes(snapshot, store)
    ensures var g := Classify(Dedup(snapshot), Available(store));
            var c := Run(snapshot, store, today, strategy).counts;
            && c.added == CountAbsent(g.possibleNew, store)
            && c.added + c.updatedAvailable == |g.possibleNew|
            && c.updated == |g.updated|
  {
    RunAborts(snapshot, store, today, strategy);
    var dedup := Dedup(snapshot);
    var avail := Available(store);
    var g := Classify(dedup, avail);
    var p := HandlePossibleNew(store, g.possibleNew, today);
    var u := HandleUpdated(p.store, g.updated);
    assert Run(snapshot, store, today, strategy).counts == Counts(p.added, p.reopened, u.count);
    HandlePossibleNewAdded(store, g.possibleNew, today);
    PossibleNewNoneShown(dedup, store);
    HandlePossibleNewCounted(store, g.possibleNew, today);
    GroupsDisjoint(dedup, avail);
    forall i | 0 <= i < |g.updated|
      ensures g.updated[i].houseId.value in p.store
    {
      assert g.updated[i] in g.updated;
      assert IdOf(g.updated[i]) in Ids(g.updated);
    }
    UpdatedNoneShown(dedup, store, p.store);
    HandleUpdatedCounted(p.store, g.updated);
  }

  /**
   Under `update_only` the worklist holds exactly the ids classified newly
   unavailable, possibly new or updated, each once.
   */
  lemma RunWorklistUpdateOnly(snapshot: seq<SnapRow>, store: LinkTable, today: string)
    requires Completes(snapshot, store)
    ensures var dedup := Dedup(snapshot);
            var avail := Available(store);
            var w := Run(snapshot, store, today, UpdateOnly).worklist;
            && (forall k :: k in w <==> ClassOf(dedup, avail, Some(k)) in {NewlyUnavailable, PossiblyNew, Updated})
            && Seqs.Distinct(w)
  {
    RunAborts(snapshot, store, today, UpdateOnly);
    var dedup := Dedup(snapshot);
    var avail := Available(store);
    var g := Classify(dedup, avail);
    RunQueue(snapshot, store, today);
    var w := g.newlyUnavailable + QueuedIds(g.possibleNew) + QueuedIds(g.updated);
    QueueMembers(dedup, avail);
    QueueDistinct(dedup, avail);
  }

  /**
   Under `update_only` the worklist is the newly unavailable ids, then the
   possibly new ids, then the updated ids, each group ascending.
   */
  lemma RunQueue(snapshot: seq<SnapRow>, store: LinkTable, today: string)
    requires Completes(snapshot, store)
    ensures var g := Classify(Dedup(snapshot), Available(store));
            && (forall i :: 0 <= i < |g.possibleNew| ==> g.possibleNew[i].houseId.Some?)
            && Run(snapshot, store, today, UpdateOnly).worklist == g.newlyUnavailable + QueuedIds(g.possibleNew) + QueuedIds(g.updated)
            && Seqs.StrictlyIncreasing(g.newlyUnavailable)
            && Seqs.StrictlyIncreasing(QueuedIds(g.possibleNew))
            && Seqs.StrictlyIncreasing(QueuedIds(g.updated))
  {
    RunAborts(snapshot, store, today, UpdateOnly);
    var g := Classify(Dedup(snapshot), Available(store));
    var p := HandlePossibleNew(store, g.possibleNew, today);
    assert !p.aborted;
    AllIdsPresent(Dedup(snapshot), g.possibleNew, Available(store));
    QueuedIdsIncreasing(g.possibleNew);
    QueuedIdsIncreasing(g.updated);
  }

  /** The queued ids are those of the three groups. */
  lemma QueueMembers(dedup: seq<SnapRow>, avail: map<HouseId, AvailRow>)
    requires StrictlyAscending(dedup)
    requires forall i :: 0 <= i < |Classify(dedup, avail).possibleNew| ==> Classify(dedup, avail).possibleNew[i].houseId.Some?
    ensures var g := Classify(dedup, avail);
            forall k :: k in g.newlyUnavailable + QueuedIds(g.possibleNew) + QueuedIds(g.updated) <==>
                        ClassOf(dedup, avail, Some(k)) in {NewlyUnavailable, PossiblyNew, Updated}
  {
    var g := Classify(dedup, avail);
    forall k
      ensures k in g.newlyUnavailable + QueuedIds(g.possibleNew) + QueuedIds(g.updated) <==>
              ClassOf(dedup, avail, Some(k)) in {NewlyUnavailable, PossiblyNew, Updated}
    {
      QueuedIdsMembers(g.possibleNew, k);
      QueuedIdsMembers(g.updated, k);
      ClassifyMatchesClassOf(dedup, avail, Some(k));
    }
  }

  /** No id is queued twice. */
  lemma QueueDistinct(dedup: seq<SnapRow>, avail: map<HouseId, AvailRow>)
    requires StrictlyAscending(dedup)
    requires forall i :: 0 <= i < |Classify(dedup, avail).possibleNew| ==> Classify(dedup, avail).possibleNew[i].houseId.Some?
    ensures var g := Classify(dedup, avail);
            Seqs.Distinct(g.newlyUnavailable + QueuedIds(g.possibleNew) + QueuedIds(g.updated))
  {
    var g := Classify(dedup, avail);
    var a := g.newlyUnavailable;
    var b := QueuedIds(g.possibleNew);
    var c := QueuedIds(g.updated);
    GroupsDisjoint(dedup, avail);
    IncreasingDistinct(a);
    QueuedIdsIncreasing(g.possibleNew);
    IncreasingDistinct(b);
    QueuedIdsIncreasing(g.updated);
    IncreasingDistinct(c);
    forall k | k in a
      ensures k !in b
    {
      QueuedIdsMembers(g.possibleNew, k);
    }
    Seqs.DistinctConcat(a, b);
    forall k | k in a + b
      ensures k !in c
    {
      QueuedIdsMembers(g.possibleNew, k);
      QueuedIdsMembers(g.updated, k);
    }
    Seqs.DistinctConcat(a + b, c);
  }

  /**
   Under `all` the worklist is the de-duplicated snapshot's ids in ascending
   order, while the link table and the counters are those of `update_only`.
   */
  lemma RunWorklistAll(snapshot: seq<SnapRow>, store: LinkTable, today: string)
    requires Completes(snapshot, store)
    ensures var o := Run(snapshot, store, today, All);
            && Seqs.StrictlyIncreasing(o.worklist)
            && (forall k :: k in o.worklist <==> Some(k) in Ids(snapshot))
            && Run(snapshot, store, today, UpdateOnly) == o.(worklist := Run(snapshot, store, today, UpdateOnly).worklist)
  {
    RunAborts(snapshot, store, today, All);
    var dedup := Dedup(snapshot);
    var g := Classify(dedup, Available(store));
    var p := HandlePossibleNew(store, g.possibleNew, today);
    AllIdsPresent(dedup, g.possibleNew, Available(store));
    assert Run(snapshot, store, today, All).worklist == QueuedIds(dedup);
    QueuedIdsIncreasing(dedup);
    forall k
      ensures k in QueuedIds(dedup) <==> Some(k) in Ids(snapshot)
    {
      QueuedIdsMembers(dedup, k);
    }
  }

  /**
   A second run over the same snapshot against the table a completed run left
   finds nothing new and nothing updated: it writes nothing, counts nothing and,
   under `update_only`, queues only the listings that are still unconfirmed.
   */
  lemma RunIdempotent(snapshot: seq<SnapRow>, store: LinkTable, today: string, strategy: Strategy, today': string)
    requires Completes(snapshot, store)
    ensures var o := Run(snapshot, store, today, strategy);
            Run(snapshot, o.store, today', UpdateOnly) ==
              Completed(o.store, Counts(0, 0, 0), Classify(Dedup(snapshot), Available(store)).newlyUnavailable)
  {
    RunAborts(snapshot, store, today, strategy);
    var o := Run(snapshot, store, today, strategy);
    SecondClassification(snapshot, store, today, strategy);
    NothingToDo(snapshot, o.store, today');
  }

  /** A run that finds nothing possibly new and nothing updated writes nothing and queues the vanished ids. */
  lemma NothingToDo(snapshot: seq<SnapRow>, store: LinkTable, today: string)
    requires var g := Classify(Dedup(snapshot), Available(store));
             g.possibleNew == [] && g.updated == []
    ensures Run(snapshot, store, today, UpdateOnly) ==
            Completed(store, Counts(0, 0, 0), Classify(Dedup(snapshot), Available(store)).newlyUnavailable)
  {
    var dedup := Dedup(snapshot);
    NothingToDoGroups(dedup, Classify(dedup, Available(store)), store, today);
  }

  lemma NothingToDoGroups(dedup: seq<SnapRow>, g: Groups, store: LinkTable, today: string)
    requires g.possibleNew == [] && g.updated == []
    requires forall x :: x in dedup ==> x.houseId.Some?
    ensures ApplyGroups(dedup, g, store, today, UpdateOnly) == Completed(store, Counts(0, 0, 0), g.newlyUnavailable)
  {
    NoRowsNoWrites(store, today);
    assert g.newlyUnavailable + QueuedIds(g.possibleNew) + QueuedIds(g.updated) == g.newlyUnavailable;
  }

  lemma NoRowsNoWrites(store: LinkTable, today: string)
    ensures HandlePossibleNew(store, [], today) == Progress(store, 0, 0, false)
    ensures HandleUpdated(store, []) == Applied(store, 0)
    ensures QueuedIds([]) == []
  {
  }

  /** The table a run left differs from the one it read only at the ids of the written rows. */
  ghost predicate WrittenOnly(store: LinkTable, written: LinkTable, g: Groups)
  {
    forall k :: Some(k) !in Ids(g.possibleNew) && Some(k) !in Ids(g.updated) ==>
      (k in written <==> k in store) && (k in store ==> written[k] == store[k])
  }

  /** The table after the writes of a run that classified the snapshot as `g`. */
  ghost predicate Settled(dedup: seq<SnapRow>, store: LinkTable, written: LinkTable)
  {
    var g := Classify(dedup, Available(store));
    AllShown(written, g.possibleNew) && AllShown(written, g.updated) && WrittenOnly(store, written, g)
  }

  /** The classification the second run computes on the table a completed run left. */
  lemma SecondClassification(snapshot: seq<SnapRow>, store: LinkTable, today: string, strategy: Strategy)
    requires Completes(snapshot, store)
    ensures var dedup := Dedup(snapshot);
            var g' := Classify(dedup, Available(Run(snapshot, store, today, strategy).store));
            g'.possibleNew == [] && g'.updated == [] &&
            g'.newlyUnavailable == Classify(dedup, Available(store)).newlyUnavailable
  {
    RunAborts(snapshot, store, today, strategy);
    var dedup := Dedup(snapshot);
    var written := Run(snapshot, store, today, strategy).store;
    RunWrites(snapshot, store, today, strategy);
    assert Settled(dedup, store, written);
    var g := Classify(dedup, Available(store));
    AllIdsPresent(dedup, g.possibleNew, Available(store));
    Reclassify(dedup, store, written);
  }

  /** Classifying against a settled table finds nothing to write and the same vanished listings. */
  lemma Reclassify(dedup: seq<SnapRow>, store: LinkTable, written: LinkTable)
    requires StrictlyAscending(dedup)
    requires forall i :: 0 <= i < |dedup| ==> dedup[i].houseId.Some?
    requires Settled(dedup, store, written)
    ensures var g' := Classify(dedup, Available(written));
            g'.possibleNew == [] && g'.updated == [] &&
            g'.newlyUnavailable == Classify(dedup, Available(store)).newlyUnavailable
  {
    ReclassifyNothingNew(dedup, store, written);
    ReclassifyVanished(dedup, store, written);
    ReclassifyNonEmpty(dedup, store, written);
  }

  /** Against the settled table, no snapshot row is possibly new or updated. */
  lemma ReclassifyNothingNew(dedup: seq<SnapRow>, store: LinkTable, written: LinkTable)
    requires StrictlyAscending(dedup)
    requires forall i :: 0 <= i < |dedup| ==> dedup[i].houseId.Some?
    requires Settled(dedup, store, written)
    ensures Classify(dedup, Available(written)).possibleNew == []
    ensures Classify(dedup, Available(written)).updated == []
  {
    var g := Classify(dedup, Available(store));
    var avail' := Available(written);
    var g' := Classify(dedup, avail');
    forall x | x in dedup
      ensures InStore(x, avail') && !Changed(x, avail'[x.houseId.value])
    {
      if x in g.possibleNew {
        SettledWritten(written, g.possibleNew, x);
      } else if x in g.updated {
        SettledWritten(written, g.updated, x);
      } else {
        SettledUnwritten(dedup, store, written, g, x);
      }
    }
    EmptyWhenNoMembers(g'.possibleNew);
    EmptyWhenNoMembers(g'.updated);
  }

  /** The run leaves the available ids the snapshot lacks as they were. */
  lemma ReclassifyVanished(dedup: seq<SnapRow>, store: LinkTable, written: LinkTable)
    requires Settled(dedup, store, written)
    ensures Vanished(dedup, Available(written)) == Vanished(dedup, Available(store))
  {
    var g := Classify(dedup, Available(store));
    forall k | Some(k) !in Ids(dedup)
      ensures k in Available(written) <==> k in Available(store)
    {
      assert Some(k) !in Ids(g.possibleNew) && Some(k) !in Ids(g.updated);
      if k in store {
        AvailableSameRow(store, written, k);
      }
    }
  }

  /** A table with some available listing still has one after the run. */
  lemma ReclassifyNonEmpty(dedup: seq<SnapRow>, store: LinkTable, written: LinkTable)
    requires StrictlyAscending(dedup)
    requires Settled(dedup, store, written)
    ensures Available(store) != map[] ==> Available(written) != map[]
  {
    var avail := Available(store);
    var g := Classify(dedup, avail);
    if avail != map[] {
      var k := PickKey(avail);
      if Some(k) in Ids(dedup) {
        var x :| x in dedup && IdOf(x) == Some(k);
        if x in g.possibleNew {
          SettledWritten(written, g.possibleNew, x);
        } else if x in g.updated {
          SettledWritten(written, g.updated, x);
        } else {
          SettledUnwritten(dedup, store, written, g, x);
        }
      } else {
        assert Some(k) !in Ids(g.possibleNew) && Some(k) !in Ids(g.updated);
        AvailableSameRow(store, written, k);
      }
    }
  }

  /** A row the table still holds unchanged reads the same in the available listings. */
  lemma AvailableSameRow(store: LinkTable, written: LinkTable, id: HouseId)
    requires id in store && id in written && written[id] == store[id]
    ensures id in Available(written) <==> id in Available(store)
    ensures id in Available(store) ==> Available(written)[id] == Available(store)[id]
  {
  }

  /** A row the run wrote stands in the table as an available listing matching it. */
  lemma SettledWritten(written: LinkTable, rows: seq<SnapRow>, x: SnapRow)
    requires AllShown(written, rows)
    requires x in rows
    ensures InStore(x, Available(written)) && !Changed(x, Available(written)[x.houseId.value])
  {
    var i :| 0 <= i < |rows| && rows[i] == x;
    ShowsAvailable(written, x.houseId.value, x);
  }

  /** A snapshot row the run did not write was already available and unchanged, and still is. */
  lemma SettledUnwritten(dedup: seq<SnapRow>, store: LinkTable, written: LinkTable, g: Groups, x: SnapRow)
    requires StrictlyAscending(dedup)
    requires g == Classify(dedup, Available(store))
    requires x in dedup && x !in g.possibleNew && x !in g.updated
    requires WrittenOnly(store, written, g)
    ensures InStore(x, Available(written)) && !Changed(x, Available(written)[x.houseId.value])
  {
    var avail := Available(store);
    assert InStore(x, avail) && !Changed(x, avail[x.houseId.value]);
    OwnerUnique(dedup, g.possibleNew, x);
    OwnerUnique(dedup, g.updated, x);
    AvailableSameRow(store, written, x.houseId.value);
  }

  lemma EmptyWhenNoMembers<T>(s: seq<T>)
    ensures (forall x :: x !in s) ==> s == []
  {
    if s != [] {
      assert s[0] in s;
    }
  }

  /** Some key of a non-empty map. */
  lemma PickKeyExists<V>(m: map<HouseId, V>)
    requires m != map[]
    ensures exists k :: k in m
  {
    if forall k :: k !in m {
      assert false;
    }
  }

  ghost function PickKey<V>(m: map<HouseId, V>): (k: HouseId)
    requires m != map[]
    ensures k in m
  {
    PickKeyExists(m);
    var k :| k in m; k
  }
}
