/** The selector-gated lookup circuit: its configuration (one `lookup_any`
    argument whose input is `s*a + (1-s)*1` and whose table is the advice
    column `t2`), the assignment of its trace, and what the assigned trace
    satisfies. */
module LookupPadding {
  import opened Plonk

  /** The constant `one` of the configuration. */
  const One: Expr := Constant(1)

  /** The lookup input `s*a + (1-s)*1`, with `1 - s` built as `1 + (-s)`. */
  function LookupInput(): Expr {
    Sum(Product(Selector, Query(A)), Product(Sum(One, Negated(Selector)), One))
  }

  /** The input expression blends on the selector: it is the value of `a`
      where `s` is enabled and the constant 1 where it is not. */
  lemma InputBlend(t: Assignment, row: nat)
    requires t.WellFormed() && row < t.Rows()
    ensures t.s[row] ==> Eval(LookupInput(), t, row) == Read(t.a[row])
    ensures !t.s[row] ==> Eval(LookupInput(), t, row) == 1
  {
    var s := Eval(Selector, t, row);
    assert Eval(Product(Selector, Query(A)), t, row) == s * Read(t.a[row]);
    assert Eval(One, t, row) == 1;
    assert Eval(Sum(One, Negated(Selector)), t, row) == 1 - s;
  }

  /** The single argument registered by the configuration. */
  function TheLookup(): Lookup {
    Lookup("lookup_any", LookupInput(), Query(T2))
  }

  /** The configuration: advice columns `a` and `t2`, one selector, the
      lookup table column `t1`, equality on `a`, and one `lookup_any`
      argument that looks up into `t2`. The lookup into the fixed table `t1`
      is not registered, so no argument queries `t1`. */
  function Configure(): (cs: ConstraintSystem)
    ensures cs.advice == [A, T2] && cs.selectors == 1 && cs.tables == [T1]
    ensures cs.equality == {A}
    ensures |cs.lookups| == 1 && cs.lookups[0].table == Query(T2)
    ensures cs.lookups == [TheLookup()] && cs.lookups[0].input == LookupInput()
    ensures forall l | l in cs.lookups :: !Mentions(l.input, T1) && !Mentions(l.table, T1)
  {
    ConstraintSystem([A, T2], 1, [T1], {A}, [TheLookup()])
  }

  /** The values a cell column holds, unassigned cells read as zero. */
  function ColumnValues(cells: seq<Cell>): set<int> {
    set i: nat | i < |cells| :: Read(cells[i])
  }

  /** The values actually written into a cell column. */
  function AssignedValues(cells: seq<Cell>): set<int> {
    set i: nat | i < |cells| && cells[i].Assigned? :: cells[i].v
  }

  /** The table of the registered argument is the column `t2`, read with
      unassigned cells as zero. */
  lemma TableIsT2(t: Assignment)
    requires t.WellFormed()
    ensures TableValues(TheLookup(), t) == ColumnValues(t.t2)
  {
    forall v | v in TableValues(TheLookup(), t) ensures v in ColumnValues(t.t2) {
      var row := TableValueAt(TheLookup(), t, v);
      assert Read(t.t2[row]) == v;
    }
    forall v | v in ColumnValues(t.t2) ensures v in TableValues(TheLookup(), t) {
      var i: nat :| i < |t.t2| && Read(t.t2[i]) == v;
      assert Eval(Query(T2), t, i) == v;
    }
  }

  /** A row whose selector is off satisfies the lookup whatever `a` holds
      there, as long as row 0 of `t2` holds 1. */
  lemma UnselectedRowHolds(t: Assignment, row: nat)
    requires t.WellFormed() && row < t.Rows() && !t.s[row]
    requires Read(t.t2[0]) == 1
    ensures Holds(TheLookup(), t, row)
  {
    InputBlend(t, row);
    assert Eval(Query(T2), t, 0) == 1;
  }

  /** A row whose selector is on satisfies the lookup exactly when the value
      of `a` there appears somewhere in `t2`. */
  lemma SelectedRowHolds(t: Assignment, row: nat)
    requires t.WellFormed() && row < t.Rows() && t.s[row]
    ensures Holds(TheLookup(), t, row) <==> Read(t.a[row]) in ColumnValues(t.t2)
  {
    InputBlend(t, row);
    TableIsT2(t);
  }

  /** The registered constraints never look at `t1`: changing its contents
      does not change whether a trace satisfies them. */
  lemma T1Unconstrained(t: Assignment, cells: seq<Cell>)
    requires t.WellFormed() && |cells| == t.Rows()
    ensures Satisfied(Configure(), t) <==> Satisfied(Configure(), t.(t1 := cells))
  {
    var u := t.(t1 := cells);
    assert AgreeExcept(t, u, T1);
    forall row: nat | row < t.Rows()
      ensures Eval(LookupInput(), t, row) == Eval(LookupInput(), u, row)
      ensures Eval(Query(T2), t, row) == Eval(Query(T2), u, row)
    {
      EvalIgnores(LookupInput(), t, u, T1, row);
      EvalIgnores(Query(T2), t, u, T1, row);
    }
    TableIsT2(t);
    TableIsT2(u);
    assert TableValues(TheLookup(), t) == TableValues(TheLookup(), u);
    forall row: nat | row < t.Rows() ensures Holds(TheLookup(), t, row) <==> Holds(TheLookup(), u, row) {
    }
    assert Configure().lookups == [TheLookup()];
  }

  /** The value the reference block writes at row `i` of `t2` and `t1`:
      1 at row 0, then `i` at rows 1 to 9. */
  function ReferenceValue(i: nat): (v: int)
    requires i < 10
    ensures 1 <= v <= 9
    ensures i != 0 ==> v == i
  {
    if i == 0 then 1 else i
  }

  /** A reference column of `rows` cells after the reference block is
      written: rows 0 to 9 assigned, the rest unassigned. */
  function ReferenceColumn(rows: nat): seq<Cell>
    requires 10 <= rows
  {
    seq(rows, i requires 0 <= i < rows => if i < 10 then Assigned(ReferenceValue(i)) else Unassigned)
  }

  /** The values a selected row may take and still pass: 1 to 9, and 0 as
      well when there is an unassigned row of `t2` to read it from. */
  function Accepted(rows: nat): set<int> {
    {1, 2, 3, 4, 5, 6, 7, 8, 9} + (if 10 < rows then {0} else {})
  }

  /** What was written into the reference column is exactly 1 to 9, never 0;
      read with the zero default, the column holds 0 as well exactly when it
      has rows beyond the reference block. */
  lemma ReferenceColumnValues(rows: nat)
    requires 10 <= rows
    ensures AssignedValues(ReferenceColumn(rows)) == {1, 2, 3, 4, 5, 6, 7, 8, 9}
    ensures 0 !in AssignedValues(ReferenceColumn(rows))
    ensures ColumnValues(ReferenceColumn(rows)) == Accepted(rows)
  {
    var col := ReferenceColumn(rows);
    forall v | v in AssignedValues(col) ensures 1 <= v <= 9 {
      var i: nat :| i < |col| && col[i].Assigned? && col[i].v == v;
    }
    forall v | v in ColumnValues(col) ensures v in Accepted(rows) {
      var i: nat :| i < |col| && Read(col[i]) == v;
    }
    forall v | 1 <= v <= 9 ensures v in AssignedValues(col) && v in ColumnValues(col) {
      assert col[v].Assigned? && col[v].v == v;
    }
    if 10 < rows {
      assert Read(col[10]) == 0;
    }
  }

  /** The trace after a successful assignment of `values` into a blank trace
      of `rows` usable rows: `values` in `a` at rows `0..|values|` with the
      selector on there, and the reference block in both `t2` and `t1`. */
  function AssignedTrace(rows: nat, values: seq<int>): (t: Assignment)
    requires |values| <= rows && 10 <= rows
    ensures t.WellFormed() && t.Rows() == rows
  {
    Assignment(
      seq(rows, i requires 0 <= i < rows => if i < |values| then Assigned(values[i]) else Unassigned),
      seq(rows, i => i < |values|),
      ReferenceColumn(rows),
      ReferenceColumn(rows))
  }

  /** After assignment, row `i` of `a` holds `values[i]` with the selector on
      for every `i < |values|`, every other row of `a` is unassigned with the
      selector off, and `t1` holds the same cells as `t2`. */
  lemma AssignedTraceLayout(rows: nat, values: seq<int>)
    requires |values| <= rows && 10 <= rows
    ensures forall i | 0 <= i < |values| ::
      AssignedTrace(rows, values).s[i] && AssignedTrace(rows, values).a[i] == Assigned(values[i])
    ensures forall i | |values| <= i < rows ::
      !AssignedTrace(rows, values).s[i] && AssignedTrace(rows, values).a[i] == Unassigned
    ensures AssignedTrace(rows, values).t1 == AssignedTrace(rows, values).t2
    ensures AssignedTrace(rows, values).t2[0] == Assigned(1)
    ensures forall i | 1 <= i < 10 :: AssignedTrace(rows, values).t2[i] == Assigned(i)
    ensures forall i | 10 <= i < rows :: AssignedTrace(rows, values).t2[i] == Unassigned
  {
  }

  /** The assigned circuit is satisfied exactly when every input value is
      accepted: 1 to 9, or 0 when `t2` has a zero-padded row. */
  lemma {:induction false} SatisfiedIff(rows: nat, values: seq<int>)
    requires |values| <= rows && 10 <= rows
    ensures Satisfied(Configure(), AssignedTrace(rows, values)) <==>
      forall i | 0 <= i < |values| :: values[i] in Accepted(rows)
  {
    var t := AssignedTrace(rows, values);
    var cs := Configure();
    ReferenceColumnValues(rows);
    assert Read(t.t2[0]) == 1;
    forall row: nat | row < rows
      ensures Holds(TheLookup(), t, row) <==> (row < |values| ==> values[row] in Accepted(rows))
    {
      if row < |values| {
        SelectedRowHolds(t, row);
      } else {
        UnselectedRowHolds(t, row);
      }
    }
    if forall i | 0 <= i < |values| :: values[i] in Accepted(rows) {
      forall k, row | 0 <= k < |cs.lookups| && 0 <= row < t.Rows()
        ensures Holds(cs.lookups[k], t, row)
      {
        assert cs.lookups[k] == TheLookup();
      }
    } else {
      var i :| 0 <= i < |values| && values[i] !in Accepted(rows);
      assert !Holds(cs.lookups[0], t, i);
    }
  }

  /** A trace under construction: one array per column, `rows` usable rows
      each. Both regions of the circuit start at row 0. */
  class Trace {
    const rows: nat
    const a: array<Cell>
    const s: array<bool>
    const t2: array<Cell>
    const t1: array<Cell>

    ghost predicate Valid() {
      a.Length == rows && s.Length == rows && t2.Length == rows && t1.Length == rows &&
      a != t2 && a != t1 && t2 != t1
    }

    /** The trace's current contents. */
    function Snapshot(): (t: Assignment)
      requires Valid()
      reads a, s, t2, t1
      ensures t.WellFormed() && t.Rows() == rows
    {
      Assignment(a[..], s[..], t2[..], t1[..])
    }

    /** A blank trace of `rows` usable rows. */
    constructor (rows: nat)
      ensures Valid() && this.rows == rows
      ensures fresh(a) && fresh(s) && fresh(t2) && fresh(t1)
      ensures Snapshot() == Blank(rows)
    {
      this.rows := rows;
      a := new Cell[rows](_ => Unassigned);
      s := new bool[rows](_ => false);
      t2 := new Cell[rows](_ => Unassigned);
      t1 := new Cell[rows](_ => Unassigned);
    }

    /** Enables the selector at `row`, or fails when the row is not usable. */
    method EnableSelector(row: nat) returns (r: Outcome)
      requires Valid()
      modifies s
      ensures r == (if row < rows then Ok else Err(NotEnoughRowsAvailable))
      ensures forall i | 0 <= i < rows :: s[i] == (i == row || old(s[i]))
    {
      if row < rows {
        s[row] := true;
        r := Ok;
      } else {
        r := Err(NotEnoughRowsAvailable);
      }
    }

    /** Writes `v` into column `col` at `row`, or fails when the row is not
      usable. */
    method AssignCell(col: array<Cell>, row: nat, v: int) returns (r: Outcome)
      requires Valid() && (col == a || col == t2 || col == t1)
      modifies col
      ensures r == (if row < rows then Ok else Err(NotEnoughRowsAvailable))
      ensures forall i | 0 <= i < rows :: col[i] == (if i == row then Assigned(v) else old(col[i]))
    {
      if row < rows {
        col[row] := Assigned(v);
        r := Ok;
      } else {
        r := Err(NotEnoughRowsAvailable);
      }
    }

    /** The region of `a` and `s`: for each `i < |values|`, enables `s` at
      row `i` and writes `values[i]` into `a` there. Fails exactly when the
      values do not fit; the rows written before the failure keep their
      values. */
    method AssignValues(values: seq<int>) returns (r: Outcome)
      requires Valid()
      modifies a, s
      ensures r.Ok? <==> |values| <= rows
      ensures forall i | 0 <= i < rows :: a[i] == (if i < |values| then Assigned(values[i]) else old(a[i]))
      ensures forall i | 0 <= i < rows :: s[i] == (i < |values| || old(s[i]))
    {
      r := Ok;
      var i := 0;
      while i < |values|
        invariant i <= |values| && i <= rows && r.Ok?
        invariant forall j | 0 <= j < rows :: a[j] == (if j < i then Assigned(values[j]) else old(a[j]))
        invariant forall j | 0 <= j < rows :: s[j] == (j < i || old(s[j]))
      {
        r := EnableSelector(i);
        if r.Ok? {
          r := AssignCell(a, i, values[i]);
        }
        if r.Err? {
          return;
        }
        i := i + 1;
      }
    }

    /** The reference block written into `t2` (an advice region) or `t1` (a
      table): 1 at row 0, then `i` at row `i` for `i` in 1 to 9. Fails
      exactly when the column has fewer than 10 usable rows; the rows below
      the failure keep what was written. */
    method AssignReference(col: array<Cell>) returns (r: Outcome)
      requires Valid() && (col == t2 || col == t1)
      modifies col
      ensures r.Ok? <==> 10 <= rows
      ensures forall i | 0 <= i < rows :: col[i] == (if i < 10 then Assigned(ReferenceValue(i)) else old(col[i]))
    {
      r := AssignCell(col, 0, 1);
      if r.Err? {
        return;
      }
      var i := 1;
      while i < 10
        invariant 1 <= i <= 10 && i <= rows && r.Ok?
        invariant forall j | 0 <= j < rows :: col[j] == (if j < i then Assigned(ReferenceValue(j)) else old(col[j]))
      {
        r := AssignCell(col, i, i);
        if r.Err? {
          return;
        }
        i := i + 1;
      }
    }

    /** The chip's assignment: the `a`/`s` region, then the `t2` region,
      then the `t1` table, stopping at the first failure. */
    method Assign(values: seq<int>) returns (r: Outcome)
      requires Valid()
      modifies a, s, t2, t1
      ensures r.Ok? <==> |values| <= rows && 10 <= rows
      ensures forall i | 0 <= i < rows :: a[i] == (if i < |values| then Assigned(values[i]) else old(a[i]))
      ensures forall i | 0 <= i < rows :: s[i] == (i < |values| || old(s[i]))
      ensures |values| > rows ==> t2[..] == old(t2[..]) && t1[..] == old(t1[..])
      ensures |values| <= rows ==>
        forall i | 0 <= i < rows :: t2[i] == (if i < 10 then Assigned(ReferenceValue(i)) else old(t2[i]))
      ensures r.Ok? ==>
        forall i | 0 <= i < rows :: t1[i] == (if i < 10 then Assigned(ReferenceValue(i)) else old(t1[i]))
      ensures r.Err? ==> t1[..] == old(t1[..])
    {
      r := AssignValues(values);
      if r.Err? {
        return;
      }
      r := AssignReference(t2);
      if r.Err? {
        return;
      }
      r := AssignReference(t1);
    }
  }

  /** Synthesis on a fresh trace of `rows` usable rows: succeeds exactly when
      the values and the reference block fit, and then yields the trace
      `AssignedTrace(rows, values)`. */
  method Synthesize(rows: nat, values: seq<int>) returns (r: Outcome, t: Assignment)
    ensures t.WellFormed() && t.Rows() == rows
    ensures r.Ok? <==> |values| <= rows && 10 <= rows
    ensures r.Ok? ==> t == AssignedTrace(rows, values)
  {
    var trace := new Trace(rows);
    r := trace.Assign(values);
    t := trace.Snapshot();
    if r.Ok? {
      var want := AssignedTrace(rows, values);
      assert t.a == want.a;
      assert t.s == want.s;
      assert t.t2 == want.t2;
      assert t.t1 == want.t1;
    }
  }
}
