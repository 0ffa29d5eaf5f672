/**
 The database side of house_info_processor/main.py: the district picked from an
 address, marking a listing unavailable, the append-only price history, the
 encoding of a parsed listing into SQL-ready values and its write into the
 info and station tables.
 */
module InfoProcessor {
  import opened Values
  import Tables

  // ---------------------------------------------------------------------------
  // Districts
  // ---------------------------------------------------------------------------

  /** `d` occurs in `s` starting at index `i`. */
  predicate OccursAt(d: string, s: string, i: nat)
  {
    i + |d| <= |s| && s[i..i + |d|] == d
  }

  /** Python's `d in s` on strings: `d` occurs in `s` at some position. */
  ghost predicate IsSubstring(d: string, s: string)
  {
    exists i: nat :: OccursAt(d, s, i)
  }

  /** The scan behind `d in s`: `d` is a prefix of `s` or occurs in its tail. */
  predicate Contains(s: string, d: string)
    decreases |s|
  {
    if |d| > |s| then false
    else if s[..|d|] == d then true
    else s != [] && Contains(s[1..], d)
  }

  lemma {:induction false} ContainsIsSubstring(s: string, d: string)
    ensures Contains(s, d) <==> IsSubstring(d, s)
    decreases |s|
  {
    if |d| > |s| {
      forall i: nat
        ensures !OccursAt(d, s, i)
      {
      }
    } else if s[..|d|] == d {
      assert OccursAt(d, s, 0);
    } else {
      ContainsIsSubstring(s[1..], d);
      if IsSubstring(d, s) {
        var i: nat :| OccursAt(d, s, i);
        assert i != 0;
        assert s[1..][i - 1..i - 1 + |d|] == s[i..i + |d|];
        assert OccursAt(d, s[1..], i - 1);
      }
      if IsSubstring(d, s[1..]) {
        var i: nat :| OccursAt(d, s[1..], i);
        assert s[1..][i..i + |d|] == s[i + 1..i + 1 + |d|];
        assert OccursAt(d, s, i + 1);
      }
    }
  }

  /** `get_district_from_name(name)`: the districts that occur in `name`, in list order. */
  function DistrictsIn(name: string, districts: seq<string>): (r: seq<string>)
    ensures forall d :: d in r <==> d in districts && Contains(name, d)
    ensures |r| <= |districts|
  {
    if districts == [] then []
    else
      var rest := DistrictsIn(name, districts[1..]);
      assert forall d :: d in districts <==> d == districts[0] || d in districts[1..];
      if Contains(name, districts[0]) then [districts[0]] + rest else rest
  }

  /** The filter keeps list order: it distributes over concatenation of the district list. */
  lemma {:induction false} DistrictsInAppend(name: string, a: seq<string>, b: seq<string>)
    ensures DistrictsIn(name, a + b) == DistrictsIn(name, a) + DistrictsIn(name, b)
  {
    if a == [] {
      assert a + b == b;
    } else {
      assert (a + b)[1..] == a[1..] + b;
      DistrictsInAppend(name, a[1..], b);
    }
  }

  /**
   The district recorded for an address: `''` when no district occurs in it,
   otherwise the first district of the list that does.
   */
  function ChooseDistrict(address: string, districts: seq<string>): (d: string)
    ensures (forall i :: 0 <= i < |districts| ==> !Contains(address, districts[i])) ==> d == ""
    ensures (exists i :: 0 <= i < |districts| && Contains(address, districts[i])) ==>
              exists k :: 0 <= k < |districts| && districts[k] == d && Contains(address, d) &&
                          forall i :: 0 <= i < k ==> !Contains(address, districts[i])
  {
    var valid := DistrictsIn(address, districts);
    FirstDistrict(address, districts);
    assert (exists i :: 0 <= i < |districts| && Contains(address, districts[i])) ==> valid != [] by {
      if exists i :: 0 <= i < |districts| && Contains(address, districts[i]) {
        var i :| 0 <= i < |districts| && Contains(address, districts[i]);
        assert districts[i] in valid;
      }
    }
    if |valid| == 0 then "" else valid[0]
  }

  /**
   The district of a listing whose address may be missing. A missing address
   makes the membership test raise, so no district is produced (`None`), unless
   the district list is empty and the test never runs.
   */
  function DistrictFor(address: Option<string>, districts: seq<string>): (d: Option<string>)
    ensures d.None? <==> address.None? && districts != []
    ensures address.Some? ==> d == Some(ChooseDistrict(address.value, districts))
    ensures address.None? && districts == [] ==> d == Some("")
  {
    match address
    case None => if districts == [] then Some("") else None
    case Some(a) => Some(ChooseDistrict(a, districts))
  }

  lemma {:induction false} FirstDistrict(address: string, districts: seq<string>)
    ensures var valid := DistrictsIn(address, districts);
            valid != [] ==>
              exists k :: 0 <= k < |districts| && districts[k] == valid[0] && Contains(address, valid[0]) &&
                          forall i :: 0 <= i < k ==> !Contains(address, districts[i])
  {
    var valid := DistrictsIn(address, districts);
    if valid != [] && !Contains(address, districts[0]) {
      FirstDistrict(address, districts[1..]);
      var k :| 0 <= k < |districts[1..]| && districts[1..][k] == valid[0] && Contains(address, valid[0]) &&
               forall i :: 0 <= i < k ==> !Contains(address, districts[1..][i]);
      assert districts[k + 1] == valid[0];
      forall i | 0 <= i < k + 1
        ensures !Contains(address, districts[i])
      {
        if i > 0 {
          assert districts[i] == districts[1..][i - 1];
        }
      }
    } else if valid != [] {
      assert districts[0] == valid[0];
    }
  }

  // ---------------------------------------------------------------------------
  // Marking a listing unavailable
  // ---------------------------------------------------------------------------

  /** The two columns `process_unavailable_house` sets. */
  function UnavailableFields(today: string): ValMap
  {
    [Field("is_available", Int(0)), Field("unavailable_date", Str(Quoted(today)))]
  }

  /**
   `process_unavailable_house(house_id)`: the row of that id, if stored, is marked
   unavailable since today; its other columns and every other row stay as they
   were. A listing already marked so on the same day reports rowcount 0.
   */
  function ProcessUnavailable<K>(links: Tables.Table<K>, id: K, today: string): (w: Tables.Written<K>)
    ensures w.table.Keys == links.Keys
    ensures w.table - {id} == links - {id}
    ensures id in links ==>
              && Get(w.table[id], "is_available") == Int(0)
              && Get(w.table[id], "unavailable_date") == Str(Quoted(today))
              && forall c :: c != "is_available" && c != "unavailable_date" ==> Get(w.table[id], c) == Get(links[id], c)
    ensures w.rowcount == 0 <==> w.table == links
  {
    var m := UnavailableFields(today);
    if id in links then
      var r := Overlay(links[id], m);
      OverlayReads(links[id], m, 0);
      OverlayReads(links[id], m, 1);
      assert forall c :: c != "is_available" && c != "unavailable_date" ==> c !in Columns(m);
      assert forall c :: c !in Columns(m) ==> Get(r, c) == Get(links[id], c) by {
        forall c | c !in Columns(m)
          ensures Get(r, c) == Get(links[id], c)
        {
          OverlayKeeps(links[id], m, c);
        }
      }
      Tables.Update(links, id, m)
    else
      Tables.Update(links, id, m)
  }

  // ---------------------------------------------------------------------------
  // Price history
  // ---------------------------------------------------------------------------

  /** `lifull_house_price_history` as rows in insertion order. */
  type PriceLog = seq<Record>

  /** The history rows of one house, oldest first. */
  function HistoryOf(log: PriceLog, houseId: int): (h: PriceLog)
    ensures |h| <= |log|
    ensures forall r :: r in h <==> r in log && Get(r, "house_id") == Int(houseId)
  {
    if log == [] then []
    else
      var rest := HistoryOf(log[..|log| - 1], houseId);
      assert forall r :: r in log <==> r in log[..|log| - 1] || r == log[|log| - 1];
      if Get(log[|log| - 1], "house_id") == Int(houseId) then rest + [log[|log| - 1]] else rest
  }

  /** The row `update_house_price_if_changed` appends. */
  function PriceFields(houseId: int, price: Option<int>, today: string): ValMap
  {
    [Field("house_id", Int(houseId)), Field("price", PriceValue(price)), Field("price_date", Str(Quoted(today)))]
  }

  /** The price history after one call, and the rowcount it returns. */
  datatype Logged = Logged(log: PriceLog, rowcount: int)

  /** The latest recorded price of a house, when it has a history. */
  function LatestPrice(log: PriceLog, houseId: int): Option<Value>
  {
    var h := HistoryOf(log, houseId);
    if h == [] then None else Some(Get(h[|h| - 1], "price"))
  }

  /**
   `update_house_price_if_changed`: a row is appended, and 1 returned, exactly
   when the house has no history or its latest price differs; existing rows are
   never changed.
   */
  function UpdatePriceIfChanged(log: PriceLog, houseId: int, price: Option<int>, today: string): (w: Logged)
    ensures w.rowcount in {0, 1}
    ensures |w.log| == |log| + w.rowcount
    ensures w.log[..|log|] == log
    ensures w.rowcount == 1 <==> LatestPrice(log, houseId) != Some(PriceValue(price))
    ensures w.rowcount == 1 ==> w.log[|log|] == Overlay(map[], PriceFields(houseId, price, today))
  {
    var h := HistoryOf(log, houseId);
    if |h| == 0 || Get(h[|h| - 1], "price") != PriceValue(price) then
      Logged(Tables.Append(log, PriceFields(houseId, price, today)), 1)
    else
      Logged(log, 0)
  }

  lemma PriceRowReads(houseId: int, price: Option<int>, today: string)
    ensures var r := Overlay(map[], PriceFields(houseId, price, today));
            Get(r, "house_id") == Int(houseId) && Get(r, "price") == PriceValue(price)
  {
    var m := PriceFields(houseId, price, today);
    assert UniqueColumns(m);
    OverlayReads(map[], m, 0);
    OverlayReads(map[], m, 1);
  }

  /** A price observed on one day. */
  datatype Observation = Observation(price: Option<int>, date: string)

  /** The history after a house's prices are checked on successive days. */
  function ObserveAll(log: PriceLog, houseId: int, obs: seq<Observation>): PriceLog
    decreases |obs|
  {
    if obs == [] then log
    else ObserveAll(UpdatePriceIfChanged(log, houseId, obs[0].price, obs[0].date).log, houseId, obs[1..])
  }

  /** The price column of some history rows. */
  function PricesOf(h: PriceLog): (ps: seq<Value>)
    ensures |ps| == |h|
  {
    if h == [] then [] else PricesOf(h[..|h| - 1]) + [Get(h[|h| - 1], "price")]
  }

  /** The prices with every run of equal consecutive prices collapsed to one. */
  function Compress(ps: seq<Value>): (c: seq<Value>)
    ensures |c| <= |ps|
    ensures ps != [] ==> c != [] && c[|c| - 1] == ps[|ps| - 1]
  {
    if |ps| <= 1 then ps
    else
      var init := Compress(ps[..|ps| - 1]);
      if ps[|ps| - 1] == ps[|ps| - 2] then init else init + [ps[|ps| - 1]]
  }

  /** The observed prices as bound values. */
  function PriceValues(obs: seq<Observation>): (vs: seq<Value>)
    ensures |vs| == |obs|
  {
    if obs == [] then [] else PriceValues(obs[..|obs| - 1]) + [PriceValue(obs[|obs| - 1].price)]
  }

  /** Appending to the log appends to a house's history exactly when the row is that house's. */
  lemma HistoryOfAppend(log: PriceLog, houseId: int, r: Record)
    ensures HistoryOf(log + [r], houseId) ==
            HistoryOf(log, houseId) + (if Get(r, "house_id") == Int(houseId) then [r] else [])
  {
    assert (log + [r])[..|log + [r]| - 1] == log;
  }

  lemma PricesOfAppend(h: PriceLog, r: Record)
    ensures PricesOf(h + [r]) == PricesOf(h) + [Get(r, "price")]
  {
    assert (h + [r])[..|h + [r]| - 1] == h;
  }

  /**
   One check of a price: the house's recorded prices grow by the observed price
   exactly when a row is appended, and afterwards the latest recorded price is
   the observed one.
   */
  lemma ObserveStep(log: PriceLog, houseId: int, price: Option<int>, today: string)
    ensures var w := UpdatePriceIfChanged(log, houseId, price, today);
            && PricesOf(HistoryOf(w.log, houseId)) ==
               PricesOf(HistoryOf(log, houseId)) + (if w.rowcount == 1 then [PriceValue(price)] else [])
            && LatestPrice(w.log, houseId) == Some(PriceValue(price))
  {
    var w := UpdatePriceIfChanged(log, houseId, price, today);
    if w.rowcount == 1 {
      var row := Overlay(map[], PriceFields(houseId, price, today));
      assert w.log == log + [row];
      PriceRowReads(houseId, price, today);
      HistoryOfAppend(log, houseId, row);
      PricesOfAppend(HistoryOf(log, houseId), row);
    }
  }

  /**
   Starting from no history, the recorded prices of a house are its observed
   prices with consecutive repeats collapsed (the ledger records changes only),
   and the latest recorded price is the last observed one.
   */
  lemma {:induction false} LedgerRecordsChanges(houseId: int, obs: seq<Observation>)
    ensures PricesOf(HistoryOf(ObserveAll([], houseId, obs), houseId)) == Compress(PriceValues(obs))
    ensures obs == [] ==> LatestPrice(ObserveAll([], houseId, obs), houseId) == None
    ensures obs != [] ==> LatestPrice(ObserveAll([], houseId, obs), houseId) == Some(PriceValue(obs[|obs| - 1].price))
    decreases |obs|
  {
    if obs != [] {
      var init := obs[..|obs| - 1];
      var last := obs[|obs| - 1];
      assert obs == init + [last];
      ObserveAllSnoc(houseId, init, last);
      LedgerRecordsChanges(houseId, init);
      var log := ObserveAll([], houseId, init);
      var w := UpdatePriceIfChanged(log, houseId, last.price, last.date);
      ObserveStep(log, houseId, last.price, last.date);
      var v := PriceValue(last.price);
      var before := PriceValues(init);
      PriceValuesSnoc(init, last);
      CompressSnoc(before, v);
      if init != [] {
        PriceValuesLast(init);
      }
      if w.rowcount == 1 {
        assert Compress(before + [v]) == Compress(before) + [v];
      } else {
        assert Compress(before + [v]) == Compress(before);
      }
    }
  }

  lemma PriceValuesLast(obs: seq<Observation>)
    requires obs != []
    ensures PriceValues(obs)[|obs| - 1] == PriceValue(obs[|obs| - 1].price)
  {
  }

  lemma {:induction false} ObserveAllSnoc(houseId: int, init: seq<Observation>, last: Observation)
    ensures ObserveAll([], houseId, init + [last]) ==
            UpdatePriceIfChanged(ObserveAll([], houseId, init), houseId, last.price, last.date).log
  {
    ObserveAllSnocFrom([], houseId, init, last);
  }

  lemma {:induction false} ObserveAllSnocFrom(log: PriceLog, houseId: int, init: seq<Observation>, last: Observation)
    ensures ObserveAll(log, houseId, init + [last]) ==
            UpdatePriceIfChanged(ObserveAll(log, houseId, init), houseId, last.price, last.date).log
    decreases |init|
  {
    if init == [] {
      assert init + [last] == [last];
    } else {
      assert (init + [last])[1..] == init[1..] + [last];
      ObserveAllSnocFrom(UpdatePriceIfChanged(log, houseId, init[0].price, init[0].date).log, houseId, init[1..], last);
    }
  }

  lemma PriceValuesSnoc(init: seq<Observation>, o: Observation)
    ensures PriceValues(init + [o]) == PriceValues(init) + [PriceValue(o.price)]
  {
    assert (init + [o])[..|init + [o]| - 1] == init;
  }

  lemma CompressSnoc(ps: seq<Value>, x: Value)
    ensures Compress(ps + [x]) == if ps != [] && x == ps[|ps| - 1] then Compress(ps) else Compress(ps) + [x]
  {
    assert (ps + [x])[..|ps + [x]| - 1] == ps;
  }

  /** Prices 100, 100, 150, 150, 100 on five successive checks leave three rows: 100, 150, 100. */
  lemma LedgerExample(houseId: int, d1: string, d2: string, d3: string, d4: string, d5: string)
    ensures var obs := [Observation(Some(100), d1), Observation(Some(100), d2), Observation(Some(150), d3),
                        Observation(Some(150), d4), Observation(Some(100), d5)];
            PricesOf(HistoryOf(ObserveAll([], houseId, obs), houseId)) == [Int(100), Int(150), Int(100)]
  {
    var obs := [Observation(Some(100), d1), Observation(Some(100), d2), Observation(Some(150), d3),
                Observation(Some(150), d4), Observation(Some(100), d5)];
    ExamplePriceValues(d1, d2, d3, d4, d5);
    ExampleCompress();
    LedgerRecordsChanges(houseId, obs);
  }

  lemma ExamplePriceValues(d1: string, d2: string, d3: string, d4: string, d5: string)
    ensures PriceValues([Observation(Some(100), d1), Observation(Some(100), d2), Observation(Some(150), d3),
                         Observation(Some(150), d4), Observation(Some(100), d5)]) ==
            [Int(100), Int(100), Int(150), Int(150), Int(100)]
  {
    var s1 := [Observation(Some(100), d1)];
    var s2 := s1 + [Observation(Some(100), d2)];
    var s3 := s2 + [Observation(Some(150), d3)];
    var s4 := s3 + [Observation(Some(150), d4)];
    var s5 := s4 + [Observation(Some(100), d5)];
    PriceValuesSnoc([], s1[0]);
    assert [] + s1 == s1;
    PriceValuesSnoc(s1, Observation(Some(100), d2));
    PriceValuesSnoc(s2, Observation(Some(150), d3));
    PriceValuesSnoc(s3, Observation(Some(150), d4));
    PriceValuesSnoc(s4, Observation(Some(100), d5));
    assert s5 == [Observation(Some(100), d1), Observation(Some(100), d2), Observation(Some(150), d3),
                  Observation(Some(150), d4), Observation(Some(100), d5)];
  }

  lemma ExampleCompress()
    ensures Compress([Int(100), Int(100), Int(150), Int(150), Int(100)]) == [Int(100), Int(150), Int(100)]
  {
    var q1 := [Int(100)];
    var q2 := q1 + [Int(100)];
    var q3 := q2 + [Int(150)];
    var q4 := q3 + [Int(150)];
    var q5 := q4 + [Int(100)];
    CompressSnoc(q1, Int(100));
    CompressSnoc(q2, Int(150));
    CompressSnoc(q3, Int(150));
    CompressSnoc(q4, Int(100));
    assert q5 == [Int(100), Int(100), Int(150), Int(150), Int(100)];
  }

  // ---------------------------------------------------------------------------
  // Encoding a parsed listing
  // ---------------------------------------------------------------------------

  /** `s.replace("'", "\\'")`: every single quote gets a backslash in front. */
  function Escape(s: string): (e: string)
    ensures |e| >= |s|
    ensures '\'' !in s ==> e == s
  {
    if s == [] then []
    else (if s[0] == '\'' then "\\'" else [s[0]]) + Escape(s[1..])
  }

  /** Reads an escaped string back: a backslash followed by a quote becomes the quote. */
  function Unescape(e: string): string
    decreases |e|
  {
    if e == [] then []
    else if |e| >= 2 && e[0] == '\\' && e[1] == '\'' then "'" + Unescape(e[2..])
    else [e[0]] + Unescape(e[1..])
  }

  lemma EscapeHead(s: string)
    ensures Escape(s) != [] ==> Escape(s)[0] != '\''
  {
  }

  /** Escaping loses nothing: the original string is read back from the escaped one. */
  lemma {:induction false} UnescapeEscape(s: string)
    ensures Unescape(Escape(s)) == s
  {
    if s != [] {
      var rest := Escape(s[1..]);
      UnescapeEscape(s[1..]);
      if s[0] == '\'' {
        assert Escape(s) == "\\'" + rest;
        assert Escape(s)[2..] == rest;
      } else {
        assert Escape(s) == [s[0]] + rest;
        EscapeHead(s[1..]);
        assert Escape(s)[1..] == rest;
      }
      assert s == [s[0]] + s[1..];
    }
  }

  /** No quote of the escaped string is bare: each one follows a backslash. */
  lemma {:induction false} EscapedQuotes(s: string)
    ensures var e := Escape(s);
            forall i :: 0 <= i < |e| && e[i] == '\'' ==> 0 < i && e[i - 1] == '\\'
  {
    if s != [] {
      EscapedQuotes(s[1..]);
      var head: string := if s[0] == '\'' then "\\'" else [s[0]];
      var e := Escape(s);
      assert e == head + Escape(s[1..]);
      forall i | 0 <= i < |e| && e[i] == '\''
        ensures 0 < i && e[i - 1] == '\\'
      {
        if i >= |head| {
          assert e[i] == Escape(s[1..])[i - |head|];
          if i - |head| > 0 {
            assert e[i - 1] == Escape(s[1..])[i - |head| - 1];
          }
        }
      }
    }
  }

  /** The value `update_house_info_table` binds for one attribute. */
  function EncodeValue(v: Value): (e: Value)
    ensures e.Null? == false && e.Bool? == false
  {
    match v
    case Null => Str("null")
    case Bool(b) => Int(if b then 1 else 0)
    case Str(s) => Str(Quoted(Escape(s)))
    case Int(_) => v
    case Float(_) => v
  }

  /** `e` is how the encoder writes `v`; for strings, the text between the quotes unescapes to `v`. */
  predicate Represents(e: Value, v: Value)
  {
    match v
    case Null => e == Str("null")
    case Bool(b) => e == Int(if b then 1 else 0)
    case Str(s) => e.Str? && |e.s| >= 2 && e.s[0] == '\'' && e.s[|e.s| - 1] == '\'' && Unescape(e.s[1..|e.s| - 1]) == s
    case Int(_) => e == v
    case Float(_) => e == v
  }

  lemma QuotedInner(s: string)
    ensures var q := Quoted(s);
            |q| == |s| + 2 && q[0] == '\'' && q[|q| - 1] == '\'' && q[1..|q| - 1] == s
  {
  }

  /** Every encoded value represents its input. */
  lemma EncodeRepresents(v: Value)
    ensures Represents(EncodeValue(v), v)
  {
    if v.Str? {
      QuotedInner(Escape(v.s));
      UnescapeEscape(v.s);
    }
  }

  /** The columns of `m` other than `c`, in order, with their values. */
  function Remove(m: ValMap, c: string): (r: ValMap)
    ensures |r| <= |m|
    ensures forall x :: x in Columns(r) <==> x in Columns(m) && x != c
    ensures forall f :: f in r <==> f in m && f.column != c
  {
    if m == [] then []
    else
      var rest := Remove(m[1..], c);
      assert Columns(m) == [m[0].column] + Columns(m[1..]);
      assert forall f :: f in m <==> f == m[0] || f in m[1..];
      if m[0].column == c then rest
      else
        assert Columns([m[0]] + rest) == [m[0].column] + Columns(rest);
        [m[0]] + rest
  }

  /** Each value of a column map encoded, columns and order kept. */
  function EncodeAll(m: ValMap): (r: ValMap)
    ensures |r| == |m|
    ensures forall i :: 0 <= i < |m| ==> r[i].column == m[i].column
    ensures Columns(r) == Columns(m)
  {
    if m == [] then [] else [Field(m[0].column, EncodeValue(m[0].value))] + EncodeAll(m[1..])
  }

  lemma EncodeAllRepresents(m: ValMap)
    ensures forall i :: 0 <= i < |m| ==> Represents(EncodeAll(m)[i].value, m[i].value)
  {
    forall i | 0 <= i < |m|
      ensures Represents(EncodeAll(m)[i].value, m[i].value)
    {
      EncodeAllAt(m, i);
      EncodeRepresents(m[i].value);
    }
  }

  lemma {:induction false} EncodeAllAt(m: ValMap, i: nat)
    requires i < |m|
    ensures EncodeAll(m)[i] == Field(m[i].column, EncodeValue(m[i].value))
  {
    if i > 0 {
      EncodeAllAt(m[1..], i - 1);
    }
  }

  lemma {:induction false} EncodeAllAppend(a: ValMap, b: ValMap)
    ensures EncodeAll(a + b) == EncodeAll(a) + EncodeAll(b)
  {
    if a == [] {
      assert a + b == b;
    } else {
      assert (a + b)[0] == a[0];
      assert (a + b)[1..] == a[1..] + b;
      EncodeAllAppend(a[1..], b);
    }
  }

  /** One `(line, station, walk_min)` tuple of a listing. */
  datatype Station = Station(line: string, station: string, walkMin: int)

  /**
   The attributes of a parsed listing as its `__dict__` holds them: the count of
   unexpectedly missing fields, the id, the name and room texts, the price read
   by `get_int_from_text`, the remaining scalar attributes in declaration order,
   and the nearby stations.
   */
  datatype HouseInfo = HouseInfo(
    numNullFields: int,
    houseId: int,
    name: Option<string>,
    room: Option<string>,
    price: Option<int>,
    fields: ValMap,
    stations: seq<Station>)

  /** A text attribute as Python holds it: a `str`, or `None` when the selector found nothing. */
  function TextValue(t: Option<string>): Value
  {
    match t
    case None => Null
    case Some(s) => Str(s)
  }

  /** The attributes before the remaining scalars, in the order `__init__` sets them. */
  function LeadingAttributes(h: HouseInfo): ValMap
  {
    [ Field("num_null_fields", Int(h.numNullFields)),
      Field("house_id", Int(h.houseId)),
      Field("name", TextValue(h.name)),
      Field("room", TextValue(h.room)),
      Field("price", PriceValue(h.price)) ]
  }

  /** The scalar part of the `__dict__`, in insertion order; `stations` is held apart. */
  function Attributes(h: HouseInfo): ValMap
  {
    LeadingAttributes(h) + h.fields
  }

  /**
   The map `update_house_info_table` binds: the attributes without
   `num_null_fields`, each value encoded, order kept.
   */
  function InfoMap(h: HouseInfo): (m: ValMap)
    ensures forall c :: c in Columns(m) <==> c in Columns(Attributes(h)) && c != "num_null_fields"
    ensures forall i :: 0 <= i < |m| ==> m[i].value.Null? == false && m[i].value.Bool? == false
  {
    var kept := Remove(Attributes(h), "num_null_fields");
    var m := EncodeAll(kept);
    assert forall i :: 0 <= i < |m| ==> m[i] == Field(kept[i].column, EncodeValue(kept[i].value)) by {
      forall i | 0 <= i < |m|
        ensures m[i] == Field(kept[i].column, EncodeValue(kept[i].value))
      {
        EncodeAllAt(kept, i);
      }
    }
    m
  }

  /** Every bound field is an attribute of the listing other than `num_null_fields`, encoded. */
  lemma InfoMapRepresents(h: HouseInfo)
    ensures var m := InfoMap(h);
            forall i :: 0 <= i < |m| ==>
              exists f :: f in Attributes(h) && f.column == m[i].column && f.column != "num_null_fields" && Represents(m[i].value, f.value)
  {
    var a := Attributes(h);
    assert InfoMap(h) == EncodeAll(Remove(a, "num_null_fields"));
    EncodedRepresents(a);
  }

  /** Encoding an attribute list without `num_null_fields` represents each remaining attribute. */
  lemma EncodedRepresents(a: ValMap)
    ensures var m := EncodeAll(Remove(a, "num_null_fields"));
            forall i :: 0 <= i < |m| ==>
              exists f :: f in a && f.column == m[i].column && f.column != "num_null_fields" && Represents(m[i].value, f.value)
  {
    var kept := Remove(a, "num_null_fields");
    var m := EncodeAll(kept);
    EncodeAllRepresents(kept);
    forall i | 0 <= i < |m|
      ensures exists f :: f in a && f.column == m[i].column && f.column != "num_null_fields" && Represents(m[i].value, f.value)
    {
      EncodeAllAt(kept, i);
      assert kept[i] in kept;
    }
  }

  /** `lifull_house_info` keyed by `house_id`. */
  type InfoTable = Tables.Table<int>

  /** The upsert of the info row: the same map is inserted or, on a duplicate id, assigned. */
  function UpsertInfo(info: InfoTable, h: HouseInfo): (w: Tables.Written<int>)
    ensures h.houseId in w.table
    ensures w.table - {h.houseId} == info - {h.houseId}
    ensures w.rowcount == 1 <==> h.houseId !in info
    ensures Tables.Upsert(w.table, h.houseId, InfoMap(h), InfoMap(h)) == Tables.Written(w.table, 0)
  {
    Tables.UpsertReplay(info, h.houseId, InfoMap(h));
    Tables.Upsert(info, h.houseId, InfoMap(h), InfoMap(h))
  }

  /** The row inserted into `lifull_stations_near_house` for one station. */
  function StationFields(houseId: int, s: Station): ValMap
  {
    [ Field("house_id", Int(houseId)),
      Field("line_name", Str(Quoted(s.line))),
      Field("station_name", Str(Quoted(s.station))),
      Field("walk_distance_in_minute", Int(s.walkMin)) ]
  }

  /** One plain insert per station tuple, in order. */
  function InsertStations(log: seq<Record>, houseId: int, stations: seq<Station>): (l: seq<Record>)
    ensures |l| == |log| + |stations|
    ensures l[..|log|] == log
    ensures forall i :: 0 <= i < |stations| ==> l[|log| + i] == Overlay(map[], StationFields(houseId, stations[i]))
    decreases |stations|
  {
    if stations == [] then log
    else
      var next := Tables.Append(log, StationFields(houseId, stations[0]));
      var l := InsertStations(next, houseId, stations[1..]);
      assert l[..|log|] == next[..|next|][..|log|];
      forall i | 0 < i < |stations|
        ensures l[|log| + i] == Overlay(map[], StationFields(houseId, stations[i]))
      {
        assert l[|next| + (i - 1)] == Overlay(map[], StationFields(houseId, stations[1..][i - 1]));
      }
      assert l[|log|] == next[|log|];
      l
  }

  /** Each inserted station row reads back as its station. */
  lemma StationRowReads(houseId: int, s: Station)
    ensures var r := Overlay(map[], StationFields(houseId, s));
            && Get(r, "house_id") == Int(houseId)
            && Get(r, "line_name") == Str(Quoted(s.line))
            && Get(r, "station_name") == Str(Quoted(s.station))
            && Get(r, "walk_distance_in_minute") == Int(s.walkMin)
  {
    var m := StationFields(houseId, s);
    assert UniqueColumns(m) by {
      forall i, j | 0 <= i < j < |m|
        ensures m[i].column != m[j].column
      {
        assert |m[i].column| != |m[j].column| by {
          assert i == 0 || i == 1 || i == 2;
          assert j == 1 || j == 2 || j == 3;
        }
      }
    }
    OverlayReads(map[], m, 0);
    OverlayReads(map[], m, 1);
    OverlayReads(map[], m, 2);
    OverlayReads(map[], m, 3);
  }

  // ---------------------------------------------------------------------------
  // Processing one listing page
  // ---------------------------------------------------------------------------

  /** The three tables `process_house_info` writes. */
  datatype InfoDb = InfoDb(prices: PriceLog, info: InfoTable, stations: seq<Record>)

  /** One statement issued, with its rowcount. */
  datatype Step = PriceChecked(rowcount: int) | InfoUpserted(rowcount: int) | StationInserted(rowcount: int)

  datatype Processed = Processed(db: InfoDb, steps: seq<Step>)

  /**
   `process_house_info`: first the listing's price is checked against the
   history, then the info row is upserted, then one row per station is inserted.
   */
  function ProcessHouseInfo(db: InfoDb, h: HouseInfo, today: string): (p: Processed)
    ensures |p.steps| == 2 + |h.stations|
    ensures p.steps[0].PriceChecked? && p.steps[1].InfoUpserted?
    ensures forall i :: 2 <= i < |p.steps| ==> p.steps[i] == StationInserted(1)
    ensures p.db.prices == UpdatePriceIfChanged(db.prices, h.houseId, h.price, today).log
    ensures p.steps[0].rowcount == 1 <==> LatestPrice(db.prices, h.houseId) != Some(PriceValue(h.price))
    ensures p.db.info == UpsertInfo(db.info, h).table
    ensures p.steps[1].rowcount == 1 <==> h.houseId !in db.info
    ensures p.db.stations == InsertStations(db.stations, h.houseId, h.stations)
  {
    var priced := UpdatePriceIfChanged(db.prices, h.houseId, h.price, today);
    var upserted := UpsertInfo(db.info, h);
    var stationRows := InsertStations(db.stations, h.houseId, h.stations);
    Processed(
      InfoDb(priced.log, upserted.table, stationRows),
      [PriceChecked(priced.rowcount), InfoUpserted(upserted.rowcount)] + seq(|h.stations|, _ => StationInserted(1)))
  }

  /** The station rows a page adds are its stations' fields, in order, after the earlier rows. */
  lemma ProcessedStationRows(db: InfoDb, h: HouseInfo, today: string)
    ensures var p := ProcessHouseInfo(db, h, today);
            && |p.db.stations| == |db.stations| + |h.stations|
            && p.db.stations[..|db.stations|] == db.stations
            && forall i :: 0 <= i < |h.stations| ==>
                 p.db.stations[|db.stations| + i] == Overlay(map[], StationFields(h.houseId, h.stations[i]))
  {
  }

  /**
   The price logged for a listing is the one its info row stores: afterwards the
   latest history row holds the listing's price and the info row's `price`
   column holds the same price as the encoder writes it.
   */
  lemma ProcessedPriceAgrees(db: InfoDb, h: HouseInfo, today: string)
    requires "price" !in Columns(h.fields)
    ensures var p := ProcessHouseInfo(db, h, today);
            && LatestPrice(p.db.prices, h.houseId) == Some(PriceValue(h.price))
            && h.houseId in p.db.info
            && Get(p.db.info[h.houseId], "price") == EncodeValue(PriceValue(h.price))
  {
    ObserveStep(db.prices, h.houseId, h.price, today);
    InfoMapPrice(h);
    Tables.UpsertReads(db.info, h.houseId, InfoMap(h), InfoMap(h), "price");
  }

  /** The bound info map assigns `price` the listing's encoded price. */
  lemma InfoMapPrice(h: HouseInfo)
    requires "price" !in Columns(h.fields)
    ensures Assigned(InfoMap(h), "price") == Some(EncodeValue(PriceValue(h.price)))
  {
    var lead := LeadingAttributes(h);
    AssignedAppendAbsent(lead, h.fields, "price");
    AssignedLast(lead[..4], lead[4], "price");
    assert lead == lead[..4] + [lead[4]];
    AssignedRemove(Attributes(h), "num_null_fields", "price");
    AssignedEncodeAll(Remove(Attributes(h), "num_null_fields"), "price");
  }

  /** Columns appended after the last assignment of `c` do not change what `c` is assigned. */
  lemma {:induction false} AssignedAppendAbsent(a: ValMap, b: ValMap, c: string)
    requires c !in Columns(b)
    ensures Assigned(a + b, c) == Assigned(a, c)
    decreases |a|
  {
    if a == [] {
      assert a + b == b;
      AssignedIffColumn(b, c);
    } else {
      assert (a + b)[1..] == a[1..] + b;
      AssignedAppendAbsent(a[1..], b, c);
    }
  }

  /** The last field assigning `c` decides it. */
  lemma {:induction false} AssignedLast(a: ValMap, f: Field, c: string)
    requires f.column == c
    ensures Assigned(a + [f], c) == Some(f.value)
    decreases |a|
  {
    if a == [] {
      assert a + [f] == [f];
    } else {
      assert (a + [f])[1..] == a[1..] + [f];
      AssignedLast(a[1..], f, c);
    }
  }

  /** Removing another column does not change what `c` is assigned. */
  lemma {:induction false} AssignedRemove(m: ValMap, d: string, c: string)
    requires c != d
    ensures Assigned(Remove(m, d), c) == Assigned(m, c)
    decreases |m|
  {
    if m != [] {
      AssignedRemove(m[1..], d, c);
      if m[0].column != d {
        assert ([m[0]] + Remove(m[1..], d))[1..] == Remove(m[1..], d);
      }
    }
  }

  /** Encoding maps the value assigned to `c` through `EncodeValue`. */
  lemma {:induction false} AssignedEncodeAll(m: ValMap, c: string)
    ensures Assigned(EncodeAll(m), c) ==
            if Assigned(m, c).Some? then Some(EncodeValue(Assigned(m, c).value)) else None
    decreases |m|
  {
    if m != [] {
      AssignedEncodeAll(m[1..], c);
      assert EncodeAll(m)[1..] == EncodeAll(m[1..]);
    }
  }

  /**
   Processing the same page again on the same day leaves the price history and
   the info row as they are; only the station rows are appended once more.
   */
  lemma ProcessTwice(db: InfoDb, h: HouseInfo, today: string)
    ensures var once := ProcessHouseInfo(db, h, today).db;
            var twice := ProcessHouseInfo(once, h, today);
            && twice.db.prices == once.prices
            && twice.db.info == once.info
            && twice.steps[0] == PriceChecked(0)
            && twice.steps[1] == InfoUpserted(0)
  {
    var once := ProcessHouseInfo(db, h, today).db;
    ObserveStep(db.prices, h.houseId, h.price, today);
  }
}
