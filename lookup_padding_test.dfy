/** The circuit's test: the input [0, 1, 2, 3] on a trace of 2^5 rows. */
module LookupPaddingTest {
  import opened Plonk
  import opened LookupPadding

  /** The test's input values. */
  const TestInput: seq<int> := [0, 1, 2, 3]

  /** With any usable row count a 2^5-row trace can offer beyond the
      reference block, the input [0, 1, 2, 3] is accepted: row 0 of `a`
      holds 0, which no assigned cell of `t2` holds, but an unassigned row
      of `t2` reads as zero; rows 1 to 3 match rows 1 to 3 of `t2`. */
  lemma TestLookupOnDifferentRows(rows: nat)
    requires 10 < rows <= 32
    ensures Satisfied(Configure(), AssignedTrace(rows, TestInput))
    ensures 0 !in AssignedValues(AssignedTrace(rows, TestInput).t2)
  {
    SatisfiedIff(rows, TestInput);
    ReferenceColumnValues(rows);
    assert forall i | 0 <= i < |TestInput| :: TestInput[i] in Accepted(rows);
  }

  /** Without a row of `t2` beyond the reference block there is no zero to
      match, so the same input is rejected, at row 0 only. */
  lemma NoPaddingRowRejectsZero()
    ensures !Satisfied(Configure(), AssignedTrace(10, TestInput))
    ensures Violations(Configure(), AssignedTrace(10, TestInput)) == {(0, 0)}
  {
    var t := AssignedTrace(10, TestInput);
    SatisfiedIff(10, TestInput);
    ReferenceColumnValues(10);
    assert TestInput[0] !in Accepted(10);
    assert t.s[0] && Read(t.a[0]) == 0;
    SelectedRowHolds(t, 0);
    forall row: nat | 0 < row < 10 ensures Holds(TheLookup(), t, row) {
      if row < |TestInput| {
        SelectedRowHolds(t, row);
        assert Read(t.a[row]) == row;
      } else {
        UnselectedRowHolds(t, row);
      }
    }
    var v := Violations(Configure(), t);
    assert Configure().lookups == [TheLookup()];
    forall p | p in v ensures p == (0, 0) {
    }
    assert (0, 0) in v;
  }

  /** The test run: synthesis succeeds and the trace satisfies the lookup. */
  method RunTest(rows: nat) returns (ok: bool)
    requires 10 < rows <= 32
    ensures ok
  {
    var r, t := Synthesize(rows, TestInput);
    TestLookupOnDifferentRows(rows);
    ok := r.Ok? && Satisfied(Configure(), t);
  }
}
