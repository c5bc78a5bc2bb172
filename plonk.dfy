/** The part of the constraint system the lookup circuit relies on: the
    cells of its trace, the polynomial expressions it registers, and what it
    means for a lookup argument to be satisfied by an assigned trace. */
module Plonk {

  /** A cell of an advice or fixed column: written by the circuit, or never
      written at all. */
  datatype Cell = Unassigned | Assigned(v: int)

  /** The value a lookup sees in a cell: an unassigned cell reads as zero. */
  function Read(c: Cell): (x: int)
    ensures c.Assigned? ==> x == c.v
    ensures c.Unassigned? ==> x == 0
  {
    match c
    case Unassigned => 0
    case Assigned(v) => v
  }

  /** The three cell columns of the lookup circuit: the advice column `a`,
      the advice column `t2` used as a dynamic table, and the fixed lookup
      table column `t1`. The selector `s` is queried by its own expression. */
  datatype Column = A | T2 | T1

  /** Failures the backend reports while assigning. */
  datatype Error = NotEnoughRowsAvailable

  /** The result of an assignment step (`Result<(), Error>`). */
  datatype Outcome = Ok | Err(error: Error)

  /** A concrete trace: the column contents row by row. */
  datatype Assignment = Assignment(a: seq<Cell>, s: seq<bool>, t2: seq<Cell>, t1: seq<Cell>)
  {
    predicate WellFormed() {
      |s| == |a| && |t2| == |a| && |t1| == |a|
    }

    function Rows(): nat { |a| }

    function Cells(col: Column): seq<Cell> {
      match col
      case A => a
      case T2 => t2
      case T1 => t1
    }
  }

  /** A trace in which nothing has been written: every cell unassigned and
      every selector off. */
  function Blank(rows: nat): (t: Assignment)
    ensures t.WellFormed() && t.Rows() == rows
    ensures forall i | 0 <= i < rows :: !t.s[i]
    ensures forall c, i | 0 <= i < rows :: t.Cells(c)[i] == Unassigned
  {
    Assignment(seq(rows, _ => Unassigned), seq(rows, _ => false),
               seq(rows, _ => Unassigned), seq(rows, _ => Unassigned))
  }

  /** Polynomial expressions over the current row, as the constraint system
      builds them (`Expression`): `x - y` is `Sum(x, Negated(y))`. */
  datatype Expr =
    | Constant(c: int)
    | Selector
    | Query(col: Column)
    | Negated(e: Expr)
    | Sum(l: Expr, r: Expr)
    | Product(l: Expr, r: Expr)

  /** Whether an expression queries a column. */
  function Mentions(e: Expr, col: Column): bool {
    match e
    case Constant(_) => false
    case Selector => false
    case Query(c) => c == col
    case Negated(x) => Mentions(x, col)
    case Sum(x, y) => Mentions(x, col) || Mentions(y, col)
    case Product(x, y) => Mentions(x, col) || Mentions(y, col)
  }

  /** The value of an expression at one row of a trace; the selector reads
      as 1 where it is enabled and 0 elsewhere. */
  function Eval(e: Expr, t: Assignment, row: nat): int
    requires t.WellFormed() && row < t.Rows()
  {
    match e
    case Constant(c) => c
    case Selector => if t.s[row] then 1 else 0
    case Query(col) => Read(t.Cells(col)[row])
    case Negated(x) => -Eval(x, t, row)
    case Sum(x, y) => Eval(x, t, row) + Eval(y, t, row)
    case Product(x, y) => Eval(x, t, row) * Eval(y, t, row)
  }

  /** Two traces of the same shape that differ at most in column `col`. */
  predicate AgreeExcept(t: Assignment, u: Assignment, col: Column)
    requires t.WellFormed() && u.WellFormed()
  {
    t.Rows() == u.Rows() && t.s == u.s &&
    forall c :: c != col ==> t.Cells(c) == u.Cells(c)
  }

  /** An expression that does not query a column cannot see what it holds. */
  lemma {:induction false} EvalIgnores(e: Expr, t: Assignment, u: Assignment, col: Column, row: nat)
    requires t.WellFormed() && u.WellFormed() && row < t.Rows()
    requires AgreeExcept(t, u, col) && !Mentions(e, col)
    ensures Eval(e, t, row) == Eval(e, u, row)
  {
    match e
    case Constant(_) =>
    case Selector =>
    case Query(c) =>
      assert t.Cells(c) == u.Cells(c);
    case Negated(x) =>
      EvalIgnores(x, t, u, col, row);
    case Sum(x, y) =>
      EvalIgnores(x, t, u, col, row);
      EvalIgnores(y, t, u, col, row);
    case Product(x, y) =>
      EvalIgnores(x, t, u, col, row);
      EvalIgnores(y, t, u, col, row);
  }

  /** A dynamic lookup argument (`lookup_any`): at every row, the value of
      `input` must be one of the values `table` takes over all rows. */
  datatype Lookup = Lookup(name: string, input: Expr, table: Expr)

  /** The constraint system's description after configuration. */
  datatype ConstraintSystem = ConstraintSystem(
    advice: seq<Column>,
    selectors: nat,
    tables: seq<Column>,
    equality: set<Column>,
    lookups: seq<Lookup>)

  /** The values a lookup's table expression takes over every row. */
  function TableValues(l: Lookup, t: Assignment): (vs: set<int>)
    requires t.WellFormed()
    ensures forall row: nat | row < t.Rows() :: Eval(l.table, t, row) in vs
  {
    set row: nat | row < t.Rows() :: Eval(l.table, t, row)
  }

  /** Every table value is taken at some row. */
  lemma TableValueAt(l: Lookup, t: Assignment, v: int) returns (row: nat)
    requires t.WellFormed() && v in TableValues(l, t)
    ensures row < t.Rows() && Eval(l.table, t, row) == v
  {
    row :| row < t.Rows() && Eval(l.table, t, row) == v;
  }

  /** The lookup holds at a row when its input there is among its table values. */
  predicate Holds(l: Lookup, t: Assignment, row: nat)
    requires t.WellFormed() && row < t.Rows()
  {
    Eval(l.input, t, row) in TableValues(l, t)
  }

  /** Every registered lookup holds at every row of the trace. */
  predicate Satisfied(cs: ConstraintSystem, t: Assignment)
    requires t.WellFormed()
  {
    forall k, row | 0 <= k < |cs.lookups| && 0 <= row < t.Rows() :: Holds(cs.lookups[k], t, row)
  }

  /** The locations (lookup index, row) where a lookup fails, which an
      unsatisfied check reports. */
  function Violations(cs: ConstraintSystem, t: Assignment): (v: set<(nat, nat)>)
    requires t.WellFormed()
    ensures forall k: nat, row: nat :: (k, row) in v <==>
      k < |cs.lookups| && row < t.Rows() && !Holds(cs.lookups[k], t, row)
    ensures v == {} <==> Satisfied(cs, t)
  {
    set k: nat, row: nat | k < |cs.lookups| && row < t.Rows() && !Holds(cs.lookups[k], t, row) :: (k, row)
  }
}
