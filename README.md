# filter-spin, modelled in Dafny

filter-spin reads the CSV output of a Tetris solution finder's `spin`
command. It prints each fumen URL whose board passes three structural checks,
and drops the rest. For each record, the filter does the following:

- it drops records whose reference lacks the `http://fumen.zui.jp/?` prefix;
- it drops records whose line count exceeds the configured limit;
- it decodes the fumen and requires exactly one page;
- it runs three checks on the board:
  - the **gap-continuity check**: every run of empty cells that a block closes on the right must lie under an empty column of the last row above it that had an empty cell; when no row above has an empty cell, the run passes;
  - the **phase-1 support check** over the colours placed before the T piece;
  - the **phase-2 support check** over the colours placed after the T piece, which uses the merged drop sequence before ++ after to decide which colour came first.

Some conditions abort the whole run instead of dropping the record:

- a letter of a group that names no piece;
- a decode failure;
- a page count other than one;
- a phase-2 colour below a cell that is missing from the sequence.

The model has four modules. Each module has a file.

- `cells.dfy` (`Cells`) defines:
  - the board vocabulary: piece colours, cells, rows of width 10, and fields listed bottom row first;
  - the letter notation (`letter_to_cellcolor` and the upper-casing of the groups);
  - the fatal errors.
- `gap.dfy` (`Gap`) holds the gap check:
  - `GapCheck` is the imperative scan: a labelled outer loop, a column loop that collects runs, and a probe loop against the mask.
  - It is proved equal to the predicate `Continuous`. That predicate is defined through `MaskFrom`, the mask the scan holds at each row.
- `support.dfy` (`Support`) holds the two phases:
  - Both phases are nested row and column loops. They reassign a `map<Piece, State>` value cell by cell, as the source's `insert` updates its map.
  - They are proved against `FinalStates`, which says:
    - a colour ends supported iff one of its cells is supported;
    - it ends unsupported iff it occurs and none of its cells is supported;
    - it ends unknown iff it does not occur.
  - Phase 2 either reports the error of the first cell at which it stops, or completes.
- `pipeline.dfy` (`Pipeline`) covers the per-record decision and the loop over records:
  - `Filter` is proved equal to `Expected`.
  - `Run` is proved equal to `RunSpec`.

Behaviour modelled as `src/main.rs` is written, including these points, which are easy to misread:

- A row with no empty cell is skipped before the mask update. The next row down is therefore compared with the last row that had an empty cell.
- A run of empty cells is recorded only when a non-empty cell closes it. A run that reaches column 9 is never checked.
- State 2 is frozen, but states 0 and 1 are overwritten. A colour whose first cell is unsupported still ends supported if a later cell of it is supported.
- In phase 1, a cell resting on a *different* tracked colour is supported.
- In phase 2, the colour below is looked up by its first position in the sequence. The cell's own colour is looked up by its last position (`AfterFirstBelowLastSelf`).
- In phase 2, the colour `T` is hard-coded as never supporting.
- `fumen.pages[0]` is read before the page count is asserted. A fumen without pages therefore fails with `NoPage`, not with `PageCount`.

## Model

| member | source | states |
|---|---|---|
| Cells.Name | src/main.rs:22-33 | every piece is named by one of the seven accepted letters |
| Cells.LetterToPiece | src/main.rs:22-33 | succeeds exactly on I, O, T, S, Z, J, L, giving the same-named piece; any other character fails with that character |
| Cells.LetterRoundTrip | src/main.rs:22-33 | mapping a piece's letter gives back the piece |
| Cells.NameInjective | src/main.rs:22-33 | distinct pieces have distinct letters |
| Cells.ToUpper | src/main.rs:93 | after upper-casing, exactly I, O, T, S, Z, J, L and their lower-case forms name a piece, and a character naming a piece is that capital or its lower-case form |
| Cells.ParseLetters | src/main.rs:93-95 | succeeds iff every upper-cased letter names a piece; keeps length and order, letter by letter; otherwise fails with the first letter that names no piece |
| Cells.LowerCaseAccepted | src/main.rs:117-118 | each of i, o, t, s, z, j, l is accepted and names the piece of its capital |
| Cells.ParseConcat | src/main.rs:120-121 | parsing the concatenated groups gives the concatenated parsed groups |
| Gap.Open | src/main.rs:51 | the starting mask is no ceiling: every row is reachable from it |
| Gap.EmptyMask | src/main.rs:88 | the new mask marks exactly the empty columns of the row, so it has an open column iff the row has an empty cell |
| Gap.RunTouchesMask | src/main.rs:76-82 | true iff some column of start .. end - 1 is open in the mask |
| Gap.CollectRuns | src/main.rs:57-74 | lists exactly the maximal empty runs that a non-empty cell closes on the right, left to right and disjoint |
| Gap.GapCheck | src/main.rs:51-92 | accepts iff every row's recorded runs each touch an open column of the mask of the last row above that had an empty cell; the full-row test of line 54 is HasEmpty, whose effect on the scan is stated by MaskFromNearest, FullRowTransparent and FullFieldContinuous |
| Gap.MaskFromNearest | src/main.rs:54-56 | full rows leave the mask unchanged |
| Gap.FullFieldContinuous | src/main.rs:54-56 | a field with no empty cell passes |
| Gap.FullRowTransparent | src/main.rs:54-56 | a row under a full row is compared with the full row's own ceiling |
| Gap.TopRowPasses | src/main.rs:51 | the first row scanned that has an empty cell always passes |
| Gap.RejectIff | src/main.rs:75-87 | rejection iff some recorded run has no column open in its row's ceiling |
| Gap.CoveredRunRejected | src/main.rs:83-85 | a recorded run under non-empty cells of a row directly above it that has an empty cell is rejected |
| Gap.RightEdgeRunIgnored | src/main.rs:60-74 | a run reaching column 9 is never checked, so such a row passes against any mask |
| Gap.LeftEdgeRunChecked | src/main.rs:60-74 | a run starting at column 0 and closed on the right is checked: the row passes iff the run touches an open column |
| Support.FirstIndex | src/main.rs:137 | absent iff the colour is not in the sequence; otherwise the first position holding it |
| Support.LastIndex | src/main.rs:141 | absent iff the colour is not in the sequence; otherwise the last position holding it |
| Support.BeforeSupport | src/main.rs:101-110 | the phase-1 test: off the floor, an empty cell, an untracked colour or the cell's own colour below never supports; the full rule is BeforeSupportRule with FloorAndGreySupport |
| Support.AfterSupport | src/main.rs:128-143 | the phase-2 test: support comes only from the floor, grey, or a non-T colour in the sequence; a failure sits on a non-T colour and names the colour below or the cell's own; the full rule is FloorAndGreySupport, AfterNeverOnTOrEmpty, AfterOrder and AfterErrorIff |
| Support.AfterVisit | src/main.rs:125-145 | one step of the phase-2 scan: the states move from before cell (i, j) to after it, or the scan stops at this cell, which is then the first cell at which it stops |
| Support.SupportBefore | src/main.rs:93-113 | the final states: 2 iff some cell of the colour is supported, 1 iff it occurs without support, 0 iff it does not occur; the keys are exactly the colours the before group names (Tracked) |
| Support.SupportAfter | src/main.rs:117-147 | completes iff no tracked cell reached before its colour is supported fails its test; then the same final states; otherwise the error of the first such cell |
| Support.FloorAndGreySupport | src/main.rs:101-106 | a cell on the floor or on grey is supported in both phases |
| Support.BeforeSupportRule | src/main.rs:101-110 | off the floor, phase 1 supports iff the cell below is grey or a tracked colour other than the cell's own |
| Support.AfterNeverOnTOrEmpty | src/main.rs:134-135 | in phase 2, T and empty cells never support |
| Support.AfterOrder | src/main.rs:137-142 | on another colour b, a cell of colour c is supported iff some b comes before some c in the sequence |
| Support.AfterErrorIff | src/main.rs:137-141 | phase 2 fails on a cell iff the colour below is a non-T piece missing from the sequence; the error names that colour |
| Support.AfterFirstBelowLastSelf | src/main.rs:137-142 | with the sequence L, S, L, an S on an L is supported even though the last L follows the last S |
| Support.RejectIff | src/main.rs:114-116 | some state ends as 1 iff some tracked colour occurs without a supported cell |
| Support.FloorColourPasses | src/main.rs:101-102 | a colour whose cells all lie on the floor passes |
| Support.GreyBasePasses | src/main.rs:105-106 | a colour with a cell on grey is supported |
| Support.AfterUnsupportedOnTOrEmpty | src/main.rs:134-135 | in phase 2, a colour resting only on T or empty cells has no support |
| Pipeline.StripPrefix | src/main.rs:40 | present iff the string starts with the prefix; prefix plus the rest is the string |
| Pipeline.StopError | src/main.rs:138-139 | the error of the first cell at which phase 2 stops |
| Pipeline.Filter | src/main.rs:40-151 | the outcome of one record with every skip, abort and emit in source order |
| Pipeline.Run | src/main.rs:38-152 | the references printed and the abort, record by record, stopping at the first abort |
| Pipeline.EmitIff | src/main.rs:40-151 | printed iff the prefix is present, the line count is within the limit, there is exactly one page, and all three checks pass; the text printed is the reference |
| Pipeline.LineFilterFirst | src/main.rs:44-48 | a record over the line limit is skipped whatever it decodes to |
| Pipeline.FatalKinds | src/main.rs:31-141 | the panics of lines 31, 48, 49-50, 139 and 141 classified: an abort is a decode failure, zero or several pages, a letter naming no piece, or a non-T colour below a phase-2 cell that is in neither group; the own-colour lookup of line 141 never fails |
| Pipeline.RunConcat | src/main.rs:38-152 | records are independent: a run over a ++ b prints a's output then b's output when a does not abort |
| Pipeline.RunEmitsReferences | src/main.rs:151 | every printed string is the reference of some record |

## Left out

- Reading the CSV:
  - Each record is given as its reference string, its line count and its decoded fumen.
  - A failed read, a missing column, or a line count that is not a `u8` aborts the program; the model has no such abort.
- Command-line parsing with clap. The two groups and the line limit are given as a `Config`.
- `Fumen::decode` and the fumen crate. The decoder's answer is an input of the record: a failure, or the pages.
  - A page is a field of width-10 rows, bottom row first, of any height. The crate's fixed field height is not modelled.
- Printing and the process abort:
  - Printing is the `Emit` outcome.
  - A panic is the `Fatal` outcome. The `Run` loop stops there.
- The `HashMap`: it is a `map<Piece, State>` with the same insert and lookup semantics.
- Cells.ToUpper: models `to_uppercase` for ASCII only. Non-ASCII letters whose upper case is one of the seven letters, such as the dotless i, are treated as invalid by the model, and so are multi-letter expansions such as ß → SS; ParseLetters's length-preserving clause holds for the model only.
