/**
 Column names of the pandas frames in house_list_processor/main.py. The
 handlers read the snapshot's listing through columns suffixed `_new` and the
 stored listing through columns suffixed `_old`; whether a frame offers those
 names decides whether the handlers can run at all.
 */
module Frames {

  /** The listing attributes the frames carry. */
  datatype Attribute = HouseId | IsPrItem | ListingHouseName | ListingHousePrice | SaleCategory | City

  /** The suffixes a merge may append: pandas' defaults `_x` and `_y`, and `_new` and `_old`. */
  datatype Suffix = X | Y | New | Old

  /**
   A column name: the attribute's own name followed by the suffixes merges
   appended, e.g. `is_pr_item_new` is `Column(IsPrItem, [New])`.
   */
  datatype Column = Column(attribute: Attribute, suffixes: seq<Suffix>)

  function Plain(a: Attribute): Column
  {
    Column(a, [])
  }

  /** The columns of the listing spider's CSV, as `read_csv` loads them. */
  const SnapshotColumns: seq<Column> :=
    [Plain(HouseId), Plain(IsPrItem), Plain(ListingHouseName), Plain(ListingHousePrice), Plain(SaleCategory), Plain(City)]

  /** The columns of the `SELECT` over available listings. */
  const StoreColumns: seq<Column> := [Plain(HouseId), Plain(IsPrItem), Plain(ListingHousePrice)]

  /** The columns `handle_possible_new_house_df` and `handle_updated_house_df` read from each row. */
  const HandlerColumns: seq<Column> :=
    [ Plain(HouseId), Column(IsPrItem, [New]), Plain(ListingHouseName), Column(ListingHousePrice, [New]),
      Plain(SaleCategory), Plain(City) ]

  /** The columns the updated filter compares against. */
  const StoredSideColumns: seq<Column> := [Column(IsPrItem, [Old]), Column(ListingHousePrice, [Old])]

  /** The name a merge gives column `c`: suffixed when it is not the key and the other side has it too. */
  function TagOne(c: Column, other: seq<Column>, key: Column, suffix: Suffix): Column
  {
    if c != key && c in other then Column(c.attribute, c.suffixes + [suffix]) else c
  }

  /** Each column of `cols` other than `key` that `other` also has gets `suffix`. */
  function Tag(cols: seq<Column>, other: seq<Column>, key: Column, suffix: Suffix): (r: seq<Column>)
    ensures |r| == |cols|
    ensures forall i :: 0 <= i < |cols| ==> r[i] == TagOne(cols[i], other, key, suffix)
  {
    if cols == [] then [] else [TagOne(cols[0], other, key, suffix)] + Tag(cols[1..], other, key, suffix)
  }

  /** `cols` without `key`. */
  function Without(cols: seq<Column>, key: Column): (r: seq<Column>)
    ensures forall c :: c in r <==> c in cols && c != key
  {
    if cols == [] then []
    else if cols[0] == key then Without(cols[1..], key)
    else [cols[0]] + Without(cols[1..], key)
  }

  /**
   The columns of `left.merge(right, how='outer', on=[key], suffixes=(ls, rs))`:
   the left columns, then the right columns other than the key, where a
   non-key column both sides have carries its side's suffix.
   */
  function MergedColumns(left: seq<Column>, right: seq<Column>, key: Column, ls: Suffix, rs: Suffix): (r: seq<Column>)
    ensures |r| >= |left|
    ensures forall i :: 0 <= i < |left| ==> r[i] == TagOne(left[i], right, key, ls)
    ensures forall c :: c in r <==> c in Tag(left, right, key, ls) || c in Tag(Without(right, key), left, key, rs)
  {
    Tag(left, right, key, ls) + Tag(Without(right, key), left, key, rs)
  }

  /** Every merged column of two plain frames is plain or carries exactly one of the two suffixes. */
  lemma MergedSuffixes(left: seq<Column>, right: seq<Column>, key: Column, ls: Suffix, rs: Suffix)
    requires forall x :: x in left ==> x.suffixes == []
    requires forall x :: x in right ==> x.suffixes == []
    ensures forall c :: c in MergedColumns(left, right, key, ls, rs) ==>
              c.suffixes == [] || c.suffixes == [ls] || c.suffixes == [rs]
  {
    var first := Tag(left, right, key, ls);
    var second := Tag(Without(right, key), left, key, rs);
    forall c | c in MergedColumns(left, right, key, ls, rs)
      ensures c.suffixes == [] || c.suffixes == [ls] || c.suffixes == [rs]
    {
      if c in first {
        var i :| 0 <= i < |first| && first[i] == c;
        assert left[i] in left;
      } else {
        var i :| 0 <= i < |second| && second[i] == c;
        assert Without(right, key)[i] in Without(right, key);
      }
    }
  }

  /**
   The merge as written at line 123 takes pandas' default suffixes `_x` and
   `_y`, so the merged frame has no `is_pr_item_new` column and reading it fails.
   */
  lemma MergeAsWrittenLacksNew()
    ensures Column(IsPrItem, [New]) in HandlerColumns
    ensures Column(IsPrItem, [New]) !in MergedColumns(SnapshotColumns, StoreColumns, Plain(HouseId), X, Y)
  {
    assert HandlerColumns[1] == Column(IsPrItem, [New]);
    MergedSuffixes(SnapshotColumns, StoreColumns, Plain(HouseId), X, Y);
  }

  /**
   With the suffixes `_new` and `_old` every column the handlers and the updated
   filter read exists; the model's classification reads the snapshot side as
   new and the stored side as old in this way.
   */
  lemma MergeCorrectedHasColumns()
    ensures forall c :: c in HandlerColumns ==> c in MergedColumns(SnapshotColumns, StoreColumns, Plain(HouseId), New, Old)
    ensures forall c :: c in StoredSideColumns ==> c in MergedColumns(SnapshotColumns, StoreColumns, Plain(HouseId), New, Old)
  {
    var stored := Without(StoreColumns, Plain(HouseId));
    var second := Tag(stored, SnapshotColumns, Plain(HouseId), Old);
    EmptyStoreFrameCorrectedHasColumns();
    assert stored == [Plain(IsPrItem), Plain(ListingHousePrice)];
    assert SnapshotColumns[1] == Plain(IsPrItem) && SnapshotColumns[3] == Plain(ListingHousePrice);
    PlainTagged(Plain(IsPrItem), SnapshotColumns, Plain(HouseId), Old);
    PlainTagged(Plain(ListingHousePrice), SnapshotColumns, Plain(HouseId), Old);
    assert second[0] in second && second[1] in second;
  }

  lemma PlainTagged(c: Column, other: seq<Column>, key: Column, suffix: Suffix)
    requires c.suffixes == [] && c != key && c in other
    ensures TagOne(c, other, key, suffix) == Column(c.attribute, [suffix])
  {
    assert [] + [suffix] == [suffix];
  }

  /**
   With no available listing stored, the else branch at line 132 hands the
   snapshot itself to the possibly-new handler, whose columns lack `_new`.
   */
  lemma EmptyStoreFrameAsWrittenLacksNew()
    ensures Column(IsPrItem, [New]) in HandlerColumns && Column(IsPrItem, [New]) !in SnapshotColumns
  {
    assert HandlerColumns[1] == Column(IsPrItem, [New]);
    assert forall i :: 0 <= i < |SnapshotColumns| ==> SnapshotColumns[i].suffixes == [];
  }

  /** Renamed as the merge would name them, the snapshot offers every column the handler reads. */
  lemma EmptyStoreFrameCorrectedHasColumns()
    ensures forall c :: c in HandlerColumns ==> c in Tag(SnapshotColumns, StoreColumns, Plain(HouseId), New)
  {
    SnapshotTaggedNew();
  }

  /** Tagging the snapshot's columns against the store's with `_new` gives exactly the handler's columns. */
  lemma SnapshotTaggedNew()
    ensures Tag(SnapshotColumns, StoreColumns, Plain(HouseId), New) == HandlerColumns
  {
    var r := Tag(SnapshotColumns, StoreColumns, Plain(HouseId), New);
    TaggedAgainstStore();
    forall i | 0 <= i < 6
      ensures r[i] == HandlerColumns[i]
    {
      assert r[i] == TagOne(SnapshotColumns[i], StoreColumns, Plain(HouseId), New);
    }
  }

  lemma TaggedAgainstStore()
    ensures TagOne(Plain(HouseId), StoreColumns, Plain(HouseId), New) == Plain(HouseId)
    ensures TagOne(Plain(IsPrItem), StoreColumns, Plain(HouseId), New) == Column(IsPrItem, [New])
    ensures TagOne(Plain(ListingHouseName), StoreColumns, Plain(HouseId), New) == Plain(ListingHouseName)
    ensures TagOne(Plain(ListingHousePrice), StoreColumns, Plain(HouseId), New) == Column(ListingHousePrice, [New])
    ensures TagOne(Plain(SaleCategory), StoreColumns, Plain(HouseId), New) == Plain(SaleCategory)
    ensures TagOne(Plain(City), StoreColumns, Plain(HouseId), New) == Plain(City)
  {
    assert StoreColumns[1] == Plain(IsPrItem) && StoreColumns[2] == Plain(ListingHousePrice);
    PlainTagged(Plain(IsPrItem), StoreColumns, Plain(HouseId), New);
    PlainTagged(Plain(ListingHousePrice), StoreColumns, Plain(HouseId), New);
  }
}
