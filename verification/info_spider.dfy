/**
 The detail-page spider in house_info_spider/house_info_spider/spiders/house_info_spider.py:
 which ids it requests, how each fetched page changes a listing's availability,
 and the per-day count of listings that became unavailable.
 */
module InfoSpider {
  import opened Values
  import Seqs
  import Tables
  import InfoProcessor

  // ---------------------------------------------------------------------------
  // Requests
  // ---------------------------------------------------------------------------

  /** The CSV of ids to crawl: a file without any data, or the `house_id` column of its rows. */
  datatype InputFile = EmptyFile | Rows(houseIds: seq<int>)

  /** One detail-page request; it carries the id its callback receives. */
  datatype Request = Request(houseId: int)

  function Identity(x: int): int
  {
    x
  }

  function RequestsFor(ids: seq<int>): (rs: seq<Request>)
    ensures |rs| == |ids|
    ensures forall i :: 0 <= i < |ids| ==> rs[i] == Request(ids[i])
  {
    if ids == [] then [] else [Request(ids[0])] + RequestsFor(ids[1..])
  }

  /**
   `start_requests`. A file without data is read as an empty frame, which
   yields no request in any mode (`drop_duplicates` returns an empty frame
   unchanged). In `'error'` mode the ids are first de-duplicated keeping the
   first occurrence; in every other mode all rows are requested, in file order.
   */
  function StartRequests(input: InputFile, mode: string): (r: seq<Request>)
    ensures input.EmptyFile? ==> r == []
    ensures input.Rows? && mode != "error" ==> r == RequestsFor(input.houseIds)
    ensures input.Rows? && mode == "error" ==>
              && Seqs.Distinct(r)
              && (forall k :: Request(k) in r <==> k in input.houseIds)
  {
    match input
    case EmptyFile => []
    case Rows(ids) =>
      if mode == "error" then
        var kept := Seqs.KeepFirstBy(ids, Identity, {});
        var rs := RequestsFor(kept);
        KeptIds(ids, kept);
        assert Seqs.Distinct(rs) by {
          forall i, j | 0 <= i < j < |rs|
            ensures rs[i] != rs[j]
          {
            assert Identity(kept[i]) != Identity(kept[j]);
          }
        }
        assert forall k :: Request(k) in rs <==> k in kept by {
          forall k
            ensures Request(k) in rs <==> k in kept
          {
            if k in kept {
              var i :| 0 <= i < |kept| && kept[i] == k;
              assert rs[i] == Request(k);
            }
          }
        }
        rs
      else RequestsFor(ids)
  }

  lemma KeptIds(ids: seq<int>, kept: seq<int>)
    requires kept == Seqs.KeepFirstBy(ids, Identity, {})
    ensures forall k :: k in kept <==> k in ids
  {
    assert Seqs.KeySet(kept, Identity) == Seqs.KeySet(ids, Identity);
    forall k
      ensures k in kept <==> k in ids
    {
      if k in ids {
        assert Identity(k) in Seqs.KeySet(ids, Identity);
      }
    }
  }

  /** A file that already lists each id once is requested as it is, in every mode. */
  lemma DistinctInputUnchanged(ids: seq<int>, mode: string)
    requires Seqs.Distinct(ids)
    ensures StartRequests(Rows(ids), mode) == RequestsFor(ids)
  {
    if mode == "error" {
      Seqs.KeepFirstByDistinct(ids, Identity, {});
    }
  }

  // ---------------------------------------------------------------------------
  // Pages
  // ---------------------------------------------------------------------------

  /**
   What the callback looks at in a response: the status, whether the page shows
   the expired or the not-found notice, and how many detail sections it has.
   */
  datatype Page = Page(status: int, expired: bool, notFound: bool, detailSections: nat)

  /** The listing is gone: a 404, or a page with the expired or not-found notice. */
  predicate Gone(p: Page)
  {
    p.status == 404 || p.expired || p.notFound
  }

  /** The link table of the crawled category and the running count of listings found gone. */
  datatype Crawl = Crawl(links: Tables.Table<int>, unavailable: int)

  /** The columns a well-formed page sets on its link row. */
  function AvailableFields(): ValMap
  {
    [Field("is_available", Int(1)), Field("unavailable_date", Null)]
  }

  /**
   `parse_house_info` up to the detail processing: a gone listing is marked
   unavailable and counted when that write changed its row; a page without
   exactly one detail section writes nothing; otherwise the link row is marked
   available again.
   */
  function ParsePage(c: Crawl, houseId: int, p: Page, today: string): (c': Crawl)
    ensures c'.links.Keys == c.links.Keys
    ensures c'.links - {houseId} == c.links - {houseId}
    ensures Gone(p) ==> c'.links == InfoProcessor.ProcessUnavailable(c.links, houseId, today).table
    ensures Gone(p) ==> (c'.unavailable == c.unavailable + 1 <==> c'.links != c.links)
    ensures Gone(p) ==> c'.unavailable in {c.unavailable, c.unavailable + 1}
    ensures !Gone(p) ==> c'.unavailable == c.unavailable
    ensures !Gone(p) && p.detailSections != 1 ==> c' == c
    ensures !Gone(p) && p.detailSections == 1 && houseId in c.links ==>
              && Get(c'.links[houseId], "is_available") == Int(1)
              && Get(c'.links[houseId], "unavailable_date") == Null
              && forall col :: col != "is_available" && col != "unavailable_date" ==>
                   Get(c'.links[houseId], col) == Get(c.links[houseId], col)
  {
    if Gone(p) then
      var w := InfoProcessor.ProcessUnavailable(c.links, houseId, today);
      Crawl(w.table, if w.rowcount > 0 then c.unavailable + 1 else c.unavailable)
    else if p.detailSections != 1 then c
    else
      MarkAvailable(c.links, houseId);
      Crawl(Tables.Update(c.links, houseId, AvailableFields()).table, c.unavailable)
  }

  lemma MarkAvailable(links: Tables.Table<int>, houseId: int)
    ensures var t := Tables.Update(links, houseId, AvailableFields()).table;
            houseId in links ==>
              && Get(t[houseId], "is_available") == Int(1)
              && Get(t[houseId], "unavailable_date") == Null
              && forall col :: col != "is_available" && col != "unavailable_date" ==>
                   Get(t[houseId], col) == Get(links[houseId], col)
  {
    var m := AvailableFields();
    if houseId in links {
      OverlayReads(links[houseId], m, 0);
      OverlayReads(links[houseId], m, 1);
      forall col | col != "is_available" && col != "unavailable_date"
        ensures Get(Overlay(links[houseId], m), col) == Get(links[houseId], col)
      {
        OverlayKeeps(links[houseId], m, col);
      }
    }
  }

  /** A gone page fetched twice on the same day is counted at most once. */
  lemma GoneCountedOnce(c: Crawl, houseId: int, p: Page, today: string)
    requires Gone(p)
    ensures var once := ParsePage(c, houseId, p, today);
            ParsePage(once, houseId, p, today) == once
  {
    Tables.UpdateReplay(c.links, houseId, InfoProcessor.UnavailableFields(today));
  }

  /** A gone page for an id the link table lacks changes nothing and is not counted. */
  lemma GoneUnknownNotCounted(c: Crawl, houseId: int, p: Page, today: string)
    requires Gone(p)
    requires houseId !in c.links
    ensures ParsePage(c, houseId, p, today) == c
  {
  }

  /** The responses of one crawl, in the order the callbacks run. */
  function ParseAll(c: Crawl, pages: seq<(int, Page)>, today: string): (c': Crawl)
    ensures c'.links.Keys == c.links.Keys
    ensures c.unavailable <= c'.unavailable <= c.unavailable + |pages|
    decreases |pages|
  {
    if pages == [] then c
    else ParseAll(ParsePage(c, pages[0].0, pages[0].1, today), pages[1..], today)
  }

  /** The number of gone pages among the responses. */
  function GoneCount(pages: seq<(int, Page)>): (n: nat)
    ensures n <= |pages|
  {
    if pages == [] then 0 else (if Gone(pages[0].1) then 1 else 0) + GoneCount(pages[1..])
  }

  /** Only gone pages are counted, so the run's count never exceeds their number. */
  lemma {:induction false} CountedAtMostGone(c: Crawl, pages: seq<(int, Page)>, today: string)
    ensures ParseAll(c, pages, today).unavailable <= c.unavailable + GoneCount(pages)
    decreases |pages|
  {
    if pages != [] {
      CountedAtMostGone(ParsePage(c, pages[0].0, pages[0].1, today), pages[1..], today);
    }
  }

  // ---------------------------------------------------------------------------
  // Closing
  // ---------------------------------------------------------------------------

  /** The values of `new_unavailable_house_num` the stats lookup returns. */
  function AsCount(v: Value): (n: Option<int>)
    ensures v.Int? ==> n == Some(v.i)
    ensures v.Null? || v.Str? ==> n.None?
  {
    match v
    case Int(i) => Some(i)
    case Bool(b) => Some(if b then 1 else 0)
    case Float(x) => Some(TruncateReal(x))
    case Null => None
    case Str(_) => None
  }

  /** Python's `int(x)` on a float: the integer part, rounding toward zero. */
  function TruncateReal(x: real): (n: int)
    ensures x >= 0.0 ==> n as real <= x < n as real + 1.0
    ensures x < 0.0 ==> n as real - 1.0 < x <= n as real
  {
    if x >= 0.0 then x.Floor else -((-x).Floor)
  }

  /**
   The previously stored count: 0 unless the lookup returns exactly one row, whose
   value is read as an integer; a NULL there makes `int()` raise (`None`).
   */
  function PreviousCount(rows: seq<Value>): (n: Option<int>)
  {
    if |rows| != 1 then Some(0) else AsCount(rows[0])
  }

  /** `lifull_crawler_stats`, keyed by crawl date, category and city. */
  datatype StatsKey = StatsKey(crawlDate: string, category: string, city: string)

  type StatsTable = Tables.Table<StatsKey>

  /** The rows the `SELECT ... WHERE crawl_date = ... AND category = ... AND city = ...` returns. */
  function StatsLookup(stats: StatsTable, key: StatsKey): (rows: seq<Value>)
    ensures |rows| <= 1
    ensures |rows| == 1 <==> key in stats
  {
    if key in stats then [Get(stats[key], "new_unavailable_house_num")] else []
  }

  /** The map inserted, and assigned on a duplicate key, when the spider closes. */
  function StatsFields(key: StatsKey, total: int): ValMap
  {
    [ Field("crawl_date", Str(key.crawlDate)),
      Field("category", Str(key.category)),
      Field("city", Str(key.city)),
      Field("new_unavailable_house_num", Int(total)) ]
  }

  /**
   `spider_closed`: the day's stored count grows by this run's count, starting
   from 0 when no row exists; every other day, category and city is untouched.
   A stored NULL makes the close fail (`None`) and nothing is written.
   */
  function SpiderClosed(stats: StatsTable, key: StatsKey, counted: int): (r: Option<StatsTable>)
    ensures r.None? <==> key in stats && AsCount(Get(stats[key], "new_unavailable_house_num")).None?
    ensures r.Some? ==> key in r.value && r.value - {key} == stats - {key}
    ensures r.Some? && key !in stats ==> Get(r.value[key], "new_unavailable_house_num") == Int(counted)
    ensures r.Some? && key in stats ==>
              Get(r.value[key], "new_unavailable_house_num") ==
                Int(AsCount(Get(stats[key], "new_unavailable_house_num")).value + counted)
  {
    var previous := PreviousCount(StatsLookup(stats, key));
    if previous.None? then None
    else
      var m := StatsFields(key, previous.value + counted);
      StatsFieldsRead(stats, key, previous.value + counted);
      Some(Tables.Upsert(stats, key, m, m).table)
  }

  lemma StatsFieldsRead(stats: StatsTable, key: StatsKey, total: int)
    ensures var m := StatsFields(key, total);
            Get(Tables.Upsert(stats, key, m, m).table[key], "new_unavailable_house_num") == Int(total)
  {
    var m := StatsFields(key, total);
    assert UniqueColumns(m) by {
      forall i, j | 0 <= i < j < |m|
        ensures m[i].column != m[j].column
      {
        assert |m[i].column| != |m[j].column| by {
          assert i == 0 || i == 1 || i == 2;
          assert j == 1 || j == 2 || j == 3;
        }
      }
    }
    if key in stats {
      OverlayReads(stats[key], m, 3);
    } else {
      OverlayReads(map[], m, 3);
    }
  }

  /** Two runs on the same day, category and city add their counts to the stored one. */
  lemma ClosingTwiceAdds(stats: StatsTable, key: StatsKey, first: int, second: int)
    ensures var once := SpiderClosed(stats, key, first);
            once.Some? ==>
              && var twice := SpiderClosed(once.value, key, second);
              && twice.Some?
              && Get(twice.value[key], "new_unavailable_house_num") ==
                   Int(PreviousCount(StatsLookup(stats, key)).value + first + second)
  {
  }
}
