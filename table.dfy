/**
 The product table and `processar_valores_monetarios` with `limpar_nomes_colunas`
 (app.py:74-129): column names are trimmed in place, then each of the two price
 columns that is present is normalised in place, in the order the source lists
 them.
 */
module ProductTable {
  import opened Strings
  import opened Prices

  /** The recognised price columns, in the order of app.py:88. */
  const PriceColumns: seq<string> := ["Initial_Price", "Final_Price"]

  /** Where a column name occurs in a table header. */
  datatype Lookup = Absent | Unique(index: nat) | Ambiguous

  /**
   `col in df.columns` followed by `df[col]`: no column, exactly one (a Series),
   or several (a DataFrame, on which the later `.str` calls raise).
   */
  function Locate(names: seq<string>, p: string): (r: Lookup)
    ensures r == Absent <==> p !in names
    ensures r.Unique? ==> r.index < |names| && names[r.index] == p
                          && forall j :: 0 <= j < |names| && j != r.index ==> names[j] != p
    ensures r == Ambiguous <==> exists i, j :: 0 <= i < j < |names| && names[i] == p && names[j] == p
  {
    if names == [] then Absent
    else
      var rest := Locate(names[1..], p);
      assert forall j :: 1 <= j < |names| ==> names[j] == names[1..][j - 1];
      match rest
      case Absent => if names[0] == p then Unique(0) else Absent
      case Unique(i) =>
        if names[0] == p then
          assert names[i + 1] == p;
          Ambiguous
        else Unique(i + 1)
      case Ambiguous =>
        var i, j :| 0 <= i < j < |names[1..]| && names[1..][i] == p && names[1..][j] == p;
        assert names[i + 1] == p && names[j + 1] == p;
        Ambiguous
  }

  /** A table as a value: its header and the contents of each column. */
  datatype Snapshot = Snapshot(names: seq<string>, columns: seq<seq<Cell>>)

  /** The table after the call, and whether the call raised part-way. */
  datatype Outcome = Outcome(raised: bool, table: Snapshot)

  /** `df.columns.str.strip()` (app.py:76). */
  function TrimAll(names: seq<string>): (r: seq<string>)
    ensures |r| == |names|
  {
    seq(|names|, k requires 0 <= k < |names| => Strip(names[k]))
  }

  /** One turn of the loop at app.py:90 for price column `p`. */
  function PriceStep(o: Outcome, p: string): (r: Outcome)
    requires |o.table.names| == |o.table.columns|
    ensures r.table.names == o.table.names && |r.table.columns| == |o.table.columns|
  {
    if o.raised then o
    else match Locate(o.table.names, p)
      case Absent => o
      case Ambiguous => Outcome(true, o.table)
      case Unique(i) =>
        Outcome(false, Snapshot(o.table.names, o.table.columns[i := NormalisedColumn(o.table.columns[i])]))
  }

  /** The remaining turns of the loop, for the price columns `ps`. */
  function RunPrices(ps: seq<string>, o: Outcome): (r: Outcome)
    requires |o.table.names| == |o.table.columns|
    ensures r.table.names == o.table.names && |r.table.columns| == |o.table.columns|
    decreases |ps|
  {
    if ps == [] then o else RunPrices(ps[1..], PriceStep(o, ps[0]))
  }

  /** What `processar_valores_monetarios` leaves in the table it is given. */
  function Normalised(t: Snapshot): (r: Outcome)
    requires |t.names| == |t.columns|
    ensures r.table.names == TrimAll(t.names) && |r.table.columns| == |t.columns|
  {
    RunPrices(PriceColumns, Outcome(false, Snapshot(TrimAll(t.names), t.columns)))
  }

  /** Once the call has raised, the later turns change nothing. */
  lemma {:induction false} RunPricesAfterRaise(ps: seq<string>, o: Outcome)
    requires |o.table.names| == |o.table.columns| && o.raised
    ensures RunPrices(ps, o) == o
    decreases |ps|
  {
    if ps != [] {
      RunPricesAfterRaise(ps[1..], o);
    }
  }

  /** The loop at app.py:90 unrolled: `Initial_Price` first, then `Final_Price`. */
  lemma NormalisedUnrolled(t: Snapshot)
    requires |t.names| == |t.columns|
    ensures Normalised(t)
            == PriceStep(PriceStep(Outcome(false, Snapshot(TrimAll(t.names), t.columns)), "Initial_Price"), "Final_Price")
  {
    assert PriceColumns[1..][1..] == [];
  }

  /** A turn of the loop on a price column that occurs once normalises that column and nothing else. */
  lemma PriceStepUnique(names: seq<string>, columns: seq<seq<Cell>>, p: string, i: nat)
    requires |names| == |columns| && Locate(names, p) == Unique(i)
    ensures PriceStep(Outcome(false, Snapshot(names, columns)), p)
            == Outcome(false, Snapshot(names, columns[i := NormalisedColumn(columns[i])]))
  {
  }

  /**
   The table-level contract: every name is trimmed; the call raises exactly
   when a price column occurs twice; otherwise each column named
   `Initial_Price` or `Final_Price` is normalised on its own contents and
   every other column is untouched. A missing price column is skipped.
   */
  lemma NormalisedTable(t: Snapshot, j: nat)
    requires |t.names| == |t.columns| && j < |t.columns|
    ensures Normalised(t).table.names == TrimAll(t.names)
    ensures |Normalised(t).table.columns| == |t.columns|
    ensures Normalised(t).raised <==>
              (Locate(TrimAll(t.names), "Initial_Price") == Ambiguous || Locate(TrimAll(t.names), "Final_Price") == Ambiguous)
    ensures !Normalised(t).raised ==>
              Normalised(t).table.columns[j] ==
                if Strip(t.names[j]) in PriceColumns then NormalisedColumn(t.columns[j]) else t.columns[j]
  {
    var names := TrimAll(t.names);
    var o0 := Outcome(false, Snapshot(names, t.columns));
    var o1 := PriceStep(o0, "Initial_Price");
    NormalisedUnrolled(t);
    PriceStepEffect(o0, "Initial_Price", j);
    PriceStepEffect(o1, "Final_Price", j);
    assert names[j] == Strip(t.names[j]);
  }

  /** One turn of the loop: it raises on a duplicated name, and otherwise normalises only the column the name picks. */
  lemma PriceStepEffect(o: Outcome, p: string, j: nat)
    requires |o.table.names| == |o.table.columns| && j < |o.table.columns|
    ensures PriceStep(o, p).raised <==> o.raised || Locate(o.table.names, p) == Ambiguous
    ensures !PriceStep(o, p).raised ==>
              PriceStep(o, p).table.columns[j] ==
                if o.table.names[j] == p then NormalisedColumn(o.table.columns[j]) else o.table.columns[j]
  {
  }

  /** A table whose cells live in one array per column, updated in place. */
  class Table {
    var names: seq<string>
    var columns: seq<array<Cell>>

    /** One name per column, and no array shared by two columns. */
    ghost predicate Valid()
      reads this
    {
      && |names| == |columns|
      && forall i, j :: 0 <= i < j < |columns| ==> columns[i] != columns[j]
    }

    ghost function Repr(): set<object>
      reads this
    {
      set k | 0 <= k < |columns| :: columns[k]
    }

    /** The table's current value. */
    ghost function Contents(): (t: Snapshot)
      reads this, Repr()
      ensures t.names == names && |t.columns| == |columns|
      ensures forall k :: 0 <= k < |columns| ==> t.columns[k] == columns[k][..]
    {
      Snapshot(names, seq(|columns|, k requires 0 <= k < |columns| reads this, Repr() => columns[k][..]))
    }

    /** A table holding the given header and columns, each column in a fresh array. */
    constructor (header: seq<string>, cells: seq<seq<Cell>>)
      requires |header| == |cells|
      ensures Valid() && fresh(Repr())
      ensures Contents() == Snapshot(header, cells)
    {
      names := header;
      var arrays: seq<array<Cell>> := [];
      for i := 0 to |cells|
        invariant |arrays| == i
        invariant forall k :: 0 <= k < i ==> fresh(arrays[k]) && arrays[k][..] == cells[k]
        invariant forall k, l :: 0 <= k < l < i ==> arrays[k] != arrays[l]
      {
        var column := cells[i];
        var a := new Cell[|column|](k requires 0 <= k < |column| => column[k]);
        assert a[..] == column;
        arrays := arrays + [a];
      }
      columns := arrays;
      new;
      assert Contents().columns == cells;
    }

    /** `limpar_nomes_colunas`: every column name loses its surrounding whitespace (app.py:74-77). */
    method TrimNames()
      modifies this`names
      ensures names == TrimAll(old(names))
    {
      for i := 0 to |names|
        invariant |names| == |old(names)|
        invariant forall k :: 0 <= k < i ==> names[k] == Strip(old(names)[k])
        invariant forall k :: i <= k < |names| ==> names[k] == old(names)[k]
      {
        names := names[i := Strip(names[i])];
      }
    }

    /** Finds price column `p` in the current header. */
    method FindColumn(p: string) returns (r: Lookup)
      ensures r == Locate(names, p)
    {
      var count, first := 0, 0;
      var i := |names|;
      while i > 0
        invariant 0 <= i <= |names|
        invariant count > 0 ==> i <= first < |names|
        invariant Locate(names[i..], p) == if count == 0 then Absent else if count == 1 then Unique(first - i) else Ambiguous
      {
        i := i - 1;
        assert names[i..][1..] == names[i + 1..];
        if names[i] == p {
          count, first := if count < 2 then count + 1 else count, i;
        }
      }
      assert names[0..] == names;
      r := if count == 0 then Absent else if count == 1 then Unique(first) else Ambiguous;
    }

    /** One turn of the loop at app.py:90: normalises column `p` if it occurs once. */
    method NormaliseIfPresent(p: string) returns (raised: bool)
      requires Valid()
      modifies Repr()
      ensures Outcome(raised, Contents()) == PriceStep(Outcome(false, old(Contents())), p)
    {
      ghost var before := Contents();
      var where := FindColumn(p);
      match where {
        case Absent =>
          raised := false;
        case Ambiguous =>
          raised := true;
        case Unique(k) =>
          raised := false;
          NormaliseColumn(columns[k]);
          assert Contents().columns == before.columns[k := NormalisedColumn(before.columns[k])];
      }
    }

    /**
     `processar_valores_monetarios` on this table; `raised` reports the
     exception that a duplicated price column causes, which the caller
     catches (app.py:303) after the table has been changed up to that point.
     */
    method Normalise() returns (raised: bool)
      requires Valid()
      modifies this, Repr()
      ensures Valid() && columns == old(columns)
      ensures Outcome(raised, Contents()) == Normalised(old(Contents()))
    {
      ghost var initial := Contents();
      TrimNames();
      assert Contents() == Snapshot(TrimAll(initial.names), initial.columns);
      raised := false;
      var i := 0;
      while i < |PriceColumns|
        invariant 0 <= i <= |PriceColumns|
        invariant Valid() && columns == old(columns)
        invariant RunPrices(PriceColumns[i..], Outcome(false, Contents())) == Normalised(initial)
      {
        assert PriceColumns[i..][1..] == PriceColumns[i + 1..];
        raised := NormaliseIfPresent(PriceColumns[i]);
        if raised {
          RunPricesAfterRaise(PriceColumns[i + 1..], Outcome(true, Contents()));
          return;
        }
        i := i + 1;
      }
    }
  }
}
