/** The gap-continuity check: scanning the field from the top row down, every
    run of empty cells that the scan records must lie under at least one
    column that was empty in the last row above it that had an empty cell. */
module Gap {
  import opened Cells

  /** Per column, whether the cell of some row was empty. */
  type Mask = m: seq<bool> | |m| == WIDTH witness seq(WIDTH, _ => true)

  /** The starting mask `[true; 10]`: no ceiling above the top row, so every
      row is reachable from it. */
  function Open(): (m: Mask)
    ensures forall row: Row :: Reachable(row, m)
  {
    var m: Mask := seq(WIDTH, _ => true);
    assert forall row: Row, s, e :: ClosedRun(row, s, e) ==> s <= s < e && m[s];
    m
  }

  /** The emptiness of each column of a row. */
  function EmptyMask(row: Row): (m: Mask)
    ensures forall k :: 0 <= k < WIDTH ==> (m[k] <==> row[k] == Empty)
    ensures (exists k :: 0 <= k < WIDTH && m[k]) <==> HasEmpty(row)
  {
    seq(WIDTH, k requires 0 <= k < WIDTH => row[k] == Empty)
  }

  /** The negation of `line.iter().all(|&cell| cell != Empty)`. */
  predicate HasEmpty(row: Row) {
    Empty in row
  }

  /** Columns s .. e - 1 of the row are a maximal empty run that is closed on
      the right by the non-empty cell in column e: the runs the scan records. */
  ghost predicate ClosedRun(row: Row, s: int, e: int) {
    0 <= s < e < WIDTH
    && (s == 0 || row[s - 1] != Empty)
    && row[s] == Empty
    && (forall k :: s <= k < e ==> row[k] == Empty)
    && row[e] != Empty
  }

  /** Every recorded run of the row has a column that is open in the mask. */
  ghost predicate Reachable(row: Row, mask: Mask) {
    forall s, e :: ClosedRun(row, s, e) ==> exists k :: s <= k < e && mask[k]
  }

  /** The mask the scan holds when it reaches row r = k - 1: the emptiness of
      the lowest row at or above k that has an empty cell, or the open mask
      when there is none. */
  function MaskFrom(field: Field, k: nat): Mask
    requires k <= |field|
    decreases |field| - k
  {
    if k == |field| then Open()
    else if HasEmpty(field[k]) then EmptyMask(field[k])
    else MaskFrom(field, k + 1)
  }

  /** The mask the scan holds when it reaches row r. */
  function Ceiling(field: Field, r: nat): Mask
    requires r < |field|
  {
    MaskFrom(field, r + 1)
  }

  /** The verdict of the gap check: every row is reachable from the mask the
      scan holds when it gets there. */
  ghost predicate Continuous(field: Field) {
    forall r :: 0 <= r < |field| ==> Reachable(field[r], Ceiling(field, r))
  }

  /** The `for (start, end)` probe of the mask: whether some column of
      start .. end - 1 is open. */
  method RunTouchesMask(mask: Mask, start: nat, end: nat) returns (hasEmpty: bool)
    requires start <= end <= WIDTH
    ensures hasEmpty <==> exists k :: start <= k < end && mask[k]
  {
    hasEmpty := false;
    for k := start to end
      invariant forall m :: start <= m < k ==> !mask[m]
    {
      if mask[k] {
        hasEmpty := true;
        break;
      }
    }
  }

  /** The column loop of one row: the runs of empty cells that a non-empty
      cell closes, left to right. A run that reaches the right edge is not
      recorded. */
  method CollectRuns(row: Row) returns (runs: seq<(nat, nat)>)
    ensures forall t :: 0 <= t < |runs| ==> ClosedRun(row, runs[t].0, runs[t].1)
    ensures forall s, e :: ClosedRun(row, s, e) ==> (s, e) in runs
    ensures forall t, u :: 0 <= t < u < |runs| ==> runs[t].1 < runs[u].0
  {
    runs := [];
    var lastEmpty := false;
    var emptyStart: nat := 0;
    for i := 0 to WIDTH
      invariant lastEmpty <==> (i > 0 && row[i - 1] == Empty)
      invariant lastEmpty ==> emptyStart < i && (emptyStart == 0 || row[emptyStart - 1] != Empty)
      invariant lastEmpty ==> forall k :: emptyStart <= k < i ==> row[k] == Empty
      invariant forall t :: 0 <= t < |runs| ==> ClosedRun(row, runs[t].0, runs[t].1) && runs[t].1 < i
      invariant lastEmpty ==> forall t :: 0 <= t < |runs| ==> runs[t].1 < emptyStart
      invariant forall s, e :: e < i && ClosedRun(row, s, e) ==> (s, e) in runs
      invariant forall t, u :: 0 <= t < u < |runs| ==> runs[t].1 < runs[u].0
    {
      if row[i] == Empty {
        if !lastEmpty {
          lastEmpty := true;
          emptyStart := i;
        }
      } else if lastEmpty {
        lastEmpty := false;
        forall s | ClosedRun(row, s, i) ensures s == emptyStart {
          RunStart(row, s, emptyStart, i);
        }
        runs := runs + [(emptyStart, i)];
      }
    }
  }

  /** A recorded run starts where the block of empty cells before its end
      starts. */
  lemma RunStart(row: Row, s: int, start: int, e: int)
    requires ClosedRun(row, s, e)
    requires 0 <= start < e && (start == 0 || row[start - 1] != Empty)
    requires forall k :: start <= k < e ==> row[k] == Empty
    ensures s == start
  {
  }

  /** The gap check of lines 51-89: rows top to bottom, a full row skipped
      without touching the mask, every recorded run probed against the mask,
      the scan abandoned at the first run that finds no open column. */
  method GapCheck(field: Field) returns (continuous: bool)
    ensures continuous <==> Continuous(field)
  {
    var empty := Open();
    continuous := true;
    var k := |field|;
    label scan:
    while k > 0
      invariant 0 <= k <= |field|
      invariant continuous
      invariant empty == MaskFrom(field, k)
      invariant forall r :: k <= r < |field| ==> Reachable(field[r], Ceiling(field, r))
    {
      k := k - 1;
      var line := field[k];
      if !HasEmpty(line) {
        continue;
      }
      var runs := CollectRuns(line);
      for t := 0 to |runs|
        invariant forall u :: 0 <= u < t ==> exists m :: runs[u].0 <= m < runs[u].1 && empty[m]
      {
        var hasEmpty := RunTouchesMask(empty, runs[t].0, runs[t].1);
        if !hasEmpty {
          continuous := false;
          assert !Reachable(field[k], Ceiling(field, k)) by {
            assert ClosedRun(line, runs[t].0, runs[t].1);
          }
          break scan;
        }
      }
      assert Reachable(line, empty) by {
        forall s, e | ClosedRun(line, s, e) ensures exists m :: s <= m < e && empty[m] {
          var u :| 0 <= u < |runs| && runs[u] == (s, e);
        }
      }
      empty := EmptyMask(line);
    }
  }

  /** The mask the scan holds at row r comes from the nearest row above r
      that has an empty cell; full rows in between leave it unchanged. */
  lemma {:induction false} MaskFromNearest(field: Field, k: nat, n: nat)
    requires k <= n <= |field|
    requires forall r :: k <= r < n ==> !HasEmpty(field[r])
    ensures MaskFrom(field, k) == MaskFrom(field, n)
    decreases n - k
  {
    if k < n {
      MaskFromNearest(field, k + 1, n);
    }
  }

  /** A field with no empty cell passes. */
  lemma FullFieldContinuous(field: Field)
    requires forall r :: 0 <= r < |field| ==> !HasEmpty(field[r])
    ensures Continuous(field)
  {
  }

  /** Any row passes against the open mask, so the first row the scan meets
      that has an empty cell always passes. */
  lemma TopRowPasses(field: Field, r: nat)
    requires r < |field|
    requires forall q :: r < q < |field| ==> !HasEmpty(field[q])
    ensures Reachable(field[r], Ceiling(field, r))
  {
    MaskFromNearest(field, r + 1, |field|);
    forall s, e | ClosedRun(field[r], s, e) ensures exists k :: s <= k < e && Ceiling(field, r)[k] {
      assert Ceiling(field, r)[s];
    }
  }

  /** The gap check rejects exactly when some row has a recorded run of
      which no column is open in the mask of the last row above it that had
      an empty cell. */
  lemma RejectIff(field: Field)
    ensures !Continuous(field) <==>
      exists r, s, e :: 0 <= r < |field| && ClosedRun(field[r], s, e)
                        && forall k :: s <= k < e ==> !Ceiling(field, r)[k]
  {
  }

  /** When the row directly above a recorded run has an empty cell, that row
      is the ceiling: a run under no empty cell of it is rejected. */
  lemma CoveredRunRejected(field: Field, r: nat, s: nat, e: nat)
    requires r + 1 < |field| && HasEmpty(field[r + 1])
    requires ClosedRun(field[r], s, e)
    requires var above := field[r + 1]; forall k :: s <= k < e ==> above[k] != Empty
    ensures !Continuous(field)
  {
    assert !Reachable(field[r], Ceiling(field, r));
  }

  /** A full row directly above is transparent: the ceiling of a row under
      a full row is the ceiling of the full row itself. */
  lemma FullRowTransparent(field: Field, r: nat)
    requires r + 1 < |field| && !HasEmpty(field[r + 1])
    ensures Ceiling(field, r) == Ceiling(field, r + 1)
  {
  }

  /** A run that reaches the right edge is never recorded: a row whose empty
      cells are exactly the columns s .. 9 passes against every mask. */
  lemma RightEdgeRunIgnored(row: Row, s: nat, mask: Mask)
    requires s < WIDTH
    requires forall k :: 0 <= k < WIDTH ==> (row[k] == Empty <==> s <= k)
    ensures Reachable(row, mask)
  {
  }

  /** A run at the left edge is recorded: a row whose empty cells are
      exactly the columns 0 .. e - 1, with e < 10, passes only if one of those
      columns is open. */
  lemma LeftEdgeRunChecked(row: Row, e: nat, mask: Mask)
    requires 0 < e < WIDTH
    requires forall k :: 0 <= k < WIDTH ==> (row[k] == Empty <==> k < e)
    ensures Reachable(row, mask) <==> exists k :: 0 <= k < e && mask[k]
  {
    assert ClosedRun(row, 0, e);
  }
}
