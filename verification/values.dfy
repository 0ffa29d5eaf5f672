/**
 Python scalar values as the processors hand them to the database layer,
 column maps (Python dicts, which keep insertion order) and stored rows.
 */
module Values {

  datatype Option<+T> = None | Some(value: T)

  /** A Python scalar as bound to a cursor parameter: `None`, `bool`, `int`, `float` or `str`. */
  datatype Value = Null | Bool(b: bool) | Int(i: int) | Float(x: real) | Str(s: string)

  /** A string as the processors bind it after wrapping it in single quotes, `f"'{s}'"`. */
  function Quoted(s: string): (q: string)
  {
    "'" + s + "'"
  }

  /**
   A parsed price as bound to a cursor parameter: Python's `None` is NULL. A
   pandas NaN is not NULL; the list processor's writes stop before binding one.
   */
  function PriceValue(p: Option<int>): Value
  {
    match p
    case None => Null
    case Some(n) => Int(n)
  }

  /** One `column: value` entry of a Python dict. */
  datatype Field = Field(column: string, value: Value)

  /** A Python dict from column names to values, in insertion order. */
  type ValMap = seq<Field>

  /** A stored table row: each column holds the value last written to it. */
  type Record = map<string, Value>

  function Columns(m: ValMap): (cs: seq<string>)
    ensures |cs| == |m|
    ensures forall i :: 0 <= i < |m| ==> cs[i] == m[i].column
  {
    if m == [] then [] else [m[0].column] + Columns(m[1..])
  }

  function ValuesOf(m: ValMap): (vs: seq<Value>)
    ensures |vs| == |m|
    ensures forall i :: 0 <= i < |m| ==> vs[i] == m[i].value
  {
    if m == [] then [] else [m[0].value] + ValuesOf(m[1..])
  }

  /** The value column `c` receives from `SET c1=v1, c2=v2, ...`: the last assignment wins. */
  function Assigned(m: ValMap, c: string): Option<Value>
  {
    if m == [] then None
    else
      var later := Assigned(m[1..], c);
      if later.Some? then later
      else if m[0].column == c then Some(m[0].value)
      else None
  }

  lemma {:induction false} AssignedIffColumn(m: ValMap, c: string)
    ensures Assigned(m, c).Some? <==> c in Columns(m)
  {
    if m != [] {
      AssignedIffColumn(m[1..], c);
      assert Columns(m) == [m[0].column] + Columns(m[1..]);
    }
  }

  /** The value of column `c` of a row; a column never written reads as NULL. */
  function Get(r: Record, c: string): Value
  {
    if c in r then r[c] else Null
  }

  /**
   The row after the assignments of `m` are applied to `r` from left to right;
   this is what both `UPDATE ... SET` and the insert of a fresh row do.
   */
  function Overlay(r: Record, m: ValMap): (r': Record)
    ensures forall c :: c in r' <==> c in r || Assigned(m, c).Some?
    ensures forall c :: c in r' ==> r'[c] == (if Assigned(m, c).Some? then Assigned(m, c).value else r[c])
    decreases |m|
  {
    if m == [] then r else Overlay(r[m[0].column := m[0].value], m[1..])
  }

  /** Applying the same assignments twice leaves the row as applying them once. */
  lemma OverlayIdempotent(r: Record, m: ValMap)
    ensures Overlay(Overlay(r, m), m) == Overlay(r, m)
  {
    var once := Overlay(r, m);
    var twice := Overlay(once, m);
    assert twice.Keys == once.Keys;
    forall c | c in twice
      ensures twice[c] == once[c]
    {
    }
  }

  /** Columns that `m` does not assign keep their value. */
  lemma OverlayKeeps(r: Record, m: ValMap, c: string)
    requires c !in Columns(m)
    ensures Get(Overlay(r, m), c) == Get(r, c)
  {
    AssignedIffColumn(m, c);
  }

  /** A column that `m` assigns exactly once reads back as the assigned value. */
  lemma OverlaySets(r: Record, m: ValMap, i: nat)
    requires i < |m|
    requires forall j :: 0 <= j < |m| && j != i ==> m[j].column != m[i].column
    ensures Get(Overlay(r, m), m[i].column) == m[i].value
  {
    AssignedUnique(m, i);
  }

  lemma {:induction false} AssignedUnique(m: ValMap, i: nat)
    requires i < |m|
    requires forall j :: 0 <= j < |m| && j != i ==> m[j].column != m[i].column
    ensures Assigned(m, m[i].column) == Some(m[i].value)
  {
    if i == 0 {
      AssignedIffColumn(m[1..], m[0].column);
    } else {
      AssignedUnique(m[1..], i - 1);
    }
  }

  /** No column is assigned twice, as in a dict literal with distinct keys. */
  predicate UniqueColumns(m: ValMap)
  {
    forall i, j :: 0 <= i < j < |m| ==> m[i].column != m[j].column
  }

  /** In a map without repeated columns, each column reads back as its value. */
  lemma OverlayReads(r: Record, m: ValMap, i: nat)
    requires UniqueColumns(m)
    requires i < |m|
    ensures Get(Overlay(r, m), m[i].column) == m[i].value
  {
    forall j | 0 <= j < |m| && j != i
      ensures m[j].column != m[i].column
    {
      if j < i {
        assert m[j].column != m[i].column;
      }
    }
    OverlaySets(r, m, i);
  }
}
