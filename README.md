# Selector-gated `lookup_any` circuit

This project models the lookup circuit of `src/lookup_padding.rs`. It is a halo2 chip with four columns:

- `a`: an advice column;
- `s`: a selector;
- `t2`: an advice column used as a dynamic lookup table;
- `t1`: a fixed lookup table column.

The chip's configuration registers one `lookup_any` argument. Its input is `s*a + (1-s)*1` and its table is `t2`. It must hold at every row. The chip's assignment does three things:

- It writes the caller's values into `a` at rows `0..n` and enables `s` there.
- It writes the reference block `1, 1, 2, …, 9` into `t2` at rows 0 to 9.
- It writes the same block into the table `t1`.

Where the selector is off, the input is the constant 1. Row 0 of `t2` always holds 1, so those rows always pass. The test runs the input `[0, 1, 2, 3]` on a 2^5-row trace and expects it to be accepted. The reason is that the unassigned rows of `t2` read as zero, so the 0 at row 0 finds a match.

The files:

- `plonk.dfy` (module `Plonk`) holds what the chip needs from the constraint system:
  - cells, which are either unassigned or assigned, and read as zero when unassigned;
  - the polynomial expression tree and its evaluation at a row;
  - the lookup argument, and the satisfaction predicate `Satisfied` together with its list of failing locations.
- `lookup_padding.dfy` (module `LookupPadding`) holds the chip:
  - `Configure`, a pure function;
  - the class `Trace`, whose methods fill arrays cell by cell in loops, as `assign` does;
  - the specification function `AssignedTrace` and the lemmas about what the assigned trace satisfies.
- `lookup_padding_test.dfy` (module `LookupPaddingTest`) holds the test scenario.

The usable row count of the trace is a parameter, `rows`. Synthesis succeeds exactly when the input and the 10-row reference block fit. Both regions start at row 0.

The comments in the test disagree with each other. The comment at line 149 expects the circuit to fail. The comment at line 150 and the assertion at line 157 say that it passes. This model follows the code: `TestLookupOnDifferentRows` proves that the assertion holds. The outcome that line 149 predicts happens only when `t2` has no row beyond the reference block. `NoPaddingRowRejectsZero` proves that case with 10 usable rows.

## Model

| member | source | states |
|---|---|---|
| `LookupPadding.Configure` | src/lookup_padding.rs:36-64 | Advice columns `a` and `t2`, one selector, table column `t1`, equality on `a`. Exactly one lookup is registered: input `s*a + (1-s)*1`, table `t2`. No registered expression queries `t1`. |
| `LookupPadding.InputBlend` | src/lookup_padding.rs:44-60 | The lookup input `s*a + (1-s)*1` equals `a`'s value where `s` is on, and the constant 1 where it is off. |
| `LookupPadding.TableIsT2` | src/lookup_padding.rs:54-61 | The lookup's table values are exactly the values of column `t2` over all rows, with unassigned cells read as zero. |
| `LookupPadding.UnselectedRowHolds` | src/lookup_padding.rs:58-60 | A row with the selector off satisfies the lookup whatever `a` holds there, provided row 0 of `t2` holds 1. |
| `LookupPadding.SelectedRowHolds` | src/lookup_padding.rs:54-61 | A row with the selector on satisfies the lookup if and only if `a`'s value there appears somewhere in `t2`. |
| `LookupPadding.T1Unconstrained` | src/lookup_padding.rs:46-61 | Replacing the contents of `t1` never changes whether a trace satisfies the configured constraints, because the lookup into `t1` is commented out. |
| `LookupPadding.ReferenceValue` | src/lookup_padding.rs:85-87 | The reference block puts 1 at row 0 and `i` at row `i` for `1 <= i < 10`, so every value is between 1 and 9. |
| `LookupPadding.ReferenceColumnValues` | src/lookup_padding.rs:82-91 | The values written into `t2` are exactly {1,…,9}, and 0 is not among them. Read with the zero default, the column holds 0 as well if and only if it has more than 10 rows. |
| `LookupPadding.AssignedTraceLayout` | src/lookup_padding.rs:71-113 | After assignment, `s` is on and `a` holds `values[i]` at every row below the length of `values`. Every other row is unassigned with `s` off. `t2` holds 1, 1..9 at rows 0-9 and is unassigned below them. `t1` equals `t2`. |
| `LookupPadding.SatisfiedIff` | src/lookup_padding.rs:54-91 | The assigned trace satisfies the lookup if and only if every input value is accepted: 1-9, or also 0 when `t2` has a zero-padded row. |
| `LookupPadding.Trace.EnableSelector` | src/lookup_padding.rs:75 | Enables `s` at one row and changes nothing else. Fails with NotEnoughRowsAvailable and no change when the row is not usable. |
| `LookupPadding.Trace.AssignCell` | src/lookup_padding.rs:76 | Writes one cell of `a`, `t2` or `t1` and changes nothing else. Fails with no change when the row is not usable. |
| `LookupPadding.Trace.AssignValues` | src/lookup_padding.rs:71-80 | Succeeds if and only if the values fit. Rows below the length of `values` (that fit) get `s` on and `a[i] = values[i]`. All other rows of `a` and `s` are unchanged. |
| `LookupPadding.Trace.AssignReference` | src/lookup_padding.rs:82-113 | Succeeds if and only if there are at least 10 rows. Writes the reference block into rows 0-9 of `t2` (or `t1`) and leaves every other row unchanged. |
| `LookupPadding.Trace.Assign` | src/lookup_padding.rs:66-116 | Runs the three steps in order and stops at the first failure. Succeeds if and only if the values and the reference block fit. States the new contents of all four columns on every path, including both failure paths. |
| `LookupPadding.Synthesize` | src/lookup_padding.rs:136-139 | Synthesis on a blank trace succeeds if and only if `values` has at most `rows` entries and `10 <= rows`. On success the trace is `AssignedTrace(rows, values)`. |
| `Plonk.Violations` | src/lookup_padding.rs:157 | The set of failing (lookup, row) locations is empty if and only if the trace is satisfied. |
| `LookupPaddingTest.TestLookupOnDifferentRows` | src/lookup_padding.rs:147-158 | For every usable row count from 11 to 32, input `[0,1,2,3]` satisfies the lookup, although 0 was never written into `t2`. |
| `LookupPaddingTest.NoPaddingRowRejectsZero` | src/lookup_padding.rs:149-150 | With exactly 10 rows, `t2` has no zero-padded row, and the same input fails at row 0 and only there. |
| `LookupPaddingTest.RunTest` | src/lookup_padding.rs:151-157 | The test run succeeds: synthesis is Ok and the resulting trace is satisfied. |

## Left out

- The halo2 library itself is not part of this model: `ConstraintSystem`, `Layouter`, `Region`, the `SimpleFloorPlanner` region placement and `MockProver`. Both regions are taken to start at absolute row 0. Lookup satisfaction is the predicate `Plonk.Satisfied`, defined here.
- Prime-field arithmetic is not modelled. Cell values are unbounded integers without modular reduction. With a 0/1 selector the blend needs only ring identities. Two integers that differ by a multiple of the field modulus count as different here.
- The exact usable-row count for `k = 5` is not modelled, and neither are blinding rows. The row count is a parameter. The scenario is proved for every count from 11 to 32.
- `Value::unknown`, `without_witnesses` and synthesis without witnesses are not modelled. Input values are always known.
- `LookupChip::construct` and `PhantomData` carry no behaviour and are not modelled.
- Proof generation and verification are out of scope.
- `enable_equality` on `a` is recorded in the configuration only. No copy constraint is used.
- The commented-out lookup into the fixed table `t1` is not modelled, and neither is the backend's padding of unassigned `t1` rows. `t1` is only assigned, and `T1Unconstrained` shows that it does not affect satisfaction. The backend may fill the rest of `t1` from row 10 with its row-0 value; that fill is not modelled. So the 10-row case of `NoPaddingRowRejectsZero`, and the bound `10 <= rows` at which `Synthesize` succeeds, exist only in this model. With that fill, a trace of exactly 10 usable rows might fail during synthesis rather than at row 0.
- Configuration takes no constraint-system state. Configuring twice therefore yields the same description by construction.
