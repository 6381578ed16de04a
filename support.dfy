/** The two support phases. Each tracked colour holds a state (0 unknown,
    1 unsupported, 2 supported); the field is scanned bottom to top, row by
    row and column by column, and every cell of a tracked colour whose state
    is not yet 2 overwrites that state with 2 or 1 according to whether the
    cell is supported. A phase rejects the field when some state ends as 1. */
module Support {
  import opened Cells

  datatype State = Unknown | Unsupported | Supported

  /** The support test of a phase: phase 1 knows the colours placed before T,
      phase 2 the merged drop sequence before ++ after. */
  datatype Rule = BeforeRule(tracked: set<Piece>) | AfterRule(sequence: seq<Piece>)

  /** `sequence.iter().position(|&c| c == x)`: the first index of x. */
  function FirstIndex(sequence: seq<Piece>, x: Piece): (r: Option<nat>)
    ensures r.None? <==> x !in sequence
    ensures r.Some? ==> r.value < |sequence| && sequence[r.value] == x
    ensures r.Some? ==> forall k :: 0 <= k < r.value ==> sequence[k] != x
  {
    if sequence == [] then None
    else if sequence[0] == x then Some(0)
    else
      match FirstIndex(sequence[1..], x)
      case None => None
      case Some(k) => Some(k + 1)
  }

  /** `sequence.len() - sequence.iter().rev().position(|&c| c == x)? - 1`:
      the last index of x. */
  function LastIndex(sequence: seq<Piece>, x: Piece): (r: Option<nat>)
    ensures r.None? <==> x !in sequence
    ensures r.Some? ==> r.value < |sequence| && sequence[r.value] == x
    ensures r.Some? ==> forall k :: r.value < k < |sequence| ==> sequence[k] != x
  {
    if sequence == [] then None
    else if sequence[|sequence| - 1] == x then Some(|sequence| - 1)
    else LastIndex(sequence[..|sequence| - 1], x)
  }

  /** Phase 1 support of the cell in row i, column j (lines 101-110). */
  function BeforeSupport(tracked: set<Piece>, field: Field, i: nat, j: nat): (r: bool)
    requires i < |field| && j < WIDTH
    ensures i > 0 && field[i - 1][j] == Empty ==> !r
    ensures i > 0 && field[i][j].Block? && field[i - 1][j] == field[i][j] ==> !r
    ensures i > 0 && field[i - 1][j].Block? && field[i - 1][j].piece !in tracked ==> !r
  {
    if i == 0 then true
    else
      var below := field[i - 1][j];
      if below == Grey then true
      else below.Block? && below.piece in tracked && below != field[i][j]
  }

  /** Phase 2 support of the cell in row i, column j (lines 128-143): an
      error when the colour below, or the cell's own colour, is missing from
      the sequence. */
  function AfterSupport(sequence: seq<Piece>, field: Field, i: nat, j: nat): (r: Result<bool>)
    requires i < |field| && j < WIDTH && field[i][j].Block?
    ensures r == Ok(true) ==> i == 0 || field[i - 1][j] == Grey
                              || (field[i - 1][j].Block? && field[i - 1][j].piece != T
                                  && field[i - 1][j].piece in sequence)
    ensures r.Err? ==> i > 0 && field[i - 1][j].Block? && field[i - 1][j].piece != T
    ensures r.Err? ==> r.error == NotInSequence(field[i - 1][j].piece) || r.error == MissingSelf(field[i][j].piece)
  {
    if i == 0 then Ok(true)
    else
      var below := field[i - 1][j];
      if below == Grey then Ok(true)
      else if below == Block(T) || below == Empty then Ok(false)
      else
        match FirstIndex(sequence, below.piece)
        case None => Err(NotInSequence(below.piece))
        case Some(indexBelow) =>
          match LastIndex(sequence, field[i][j].piece)
          case None => Err(MissingSelf(field[i][j].piece))
          case Some(indexSelf) => Ok(indexBelow < indexSelf)
  }

  function Supports(rule: Rule, field: Field, i: nat, j: nat): Result<bool>
    requires i < |field| && j < WIDTH && field[i][j].Block?
  {
    match rule
    case BeforeRule(tracked) => Ok(BeforeSupport(tracked, field, i, j))
    case AfterRule(sequence) => AfterSupport(sequence, field, i, j)
  }

  /** Cell (i0, j0) comes before cell (i, j) in the scan. */
  ghost predicate Earlier(i0: int, j0: int, i: int, j: int) {
    i0 < i || (i0 == i && j0 < j)
  }

  /** Some cell of colour p comes before (i, j). */
  ghost predicate SeenBefore(field: Field, p: Piece, i: int, j: int) {
    exists i0, j0 :: 0 <= i0 < |field| && 0 <= j0 < WIDTH && Earlier(i0, j0, i, j)
                     && field[i0][j0] == Block(p)
  }

  /** Some supported cell of colour p comes before (i, j). */
  ghost predicate SupportedBefore(rule: Rule, field: Field, p: Piece, i: int, j: int) {
    exists i0, j0 :: 0 <= i0 < |field| && 0 <= j0 < WIDTH && Earlier(i0, j0, i, j)
                     && field[i0][j0] == Block(p) && Supports(rule, field, i0, j0) == Ok(true)
  }

  /** Colour p occurs in the field. */
  ghost predicate Appears(field: Field, p: Piece) {
    SeenBefore(field, p, |field|, 0)
  }

  /** Some cell of colour p is supported. */
  ghost predicate HasSupport(rule: Rule, field: Field, p: Piece) {
    SupportedBefore(rule, field, p, |field|, 0)
  }

  /** The states the scan holds when it reaches cell (i, j). */
  ghost predicate StatesAt(rule: Rule, field: Field, state: map<Piece, State>, i: int, j: int) {
    forall p :: p in state ==>
      (state[p] == Supported <==> SupportedBefore(rule, field, p, i, j))
      && (state[p] == Unknown <==> !SeenBefore(field, p, i, j))
  }

  /** The states at the end of a scan: 2 when some cell of the colour is
      supported, 1 when the colour occurs but no cell of it is supported,
      0 when it does not occur. */
  ghost predicate FinalStates(rule: Rule, field: Field, state: map<Piece, State>) {
    forall p :: p in state ==>
      (state[p] == Supported <==> HasSupport(rule, field, p))
      && (state[p] == Unsupported <==> Appears(field, p) && !HasSupport(rule, field, p))
      && (state[p] == Unknown <==> !Appears(field, p))
  }

  /** The verdict of a phase: every tracked colour that occurs has a
      supported cell. */
  ghost predicate Passes(rule: Rule, field: Field, tracked: set<Piece>) {
    forall p :: p in tracked && Appears(field, p) ==> HasSupport(rule, field, p)
  }

  /** Phase 2 stops the run at cell (i, j): a tracked cell reached while its
      colour's state is not yet 2 whose support test fails. */
  ghost predicate Blocked(rule: Rule, tracked: set<Piece>, field: Field, i: int, j: int) {
    0 <= i < |field| && 0 <= j < WIDTH
    && field[i][j].Block? && field[i][j].piece in tracked
    && !SupportedBefore(rule, field, field[i][j].piece, i, j)
    && Supports(rule, field, i, j).Err?
  }

  /** (i, j) is the first cell at which the scan stops. */
  ghost predicate FirstBlocked(rule: Rule, tracked: set<Piece>, field: Field, i: int, j: int) {
    Blocked(rule, tracked, field, i, j)
    && forall i0, j0 :: Earlier(i0, j0, i, j) ==> !Blocked(rule, tracked, field, i0, j0)
  }

  /** The scan never stops. */
  ghost predicate NeverBlocked(rule: Rule, tracked: set<Piece>, field: Field) {
    forall i, j :: !Blocked(rule, tracked, field, i, j)
  }

  /** Moving past cell (i, j) adds that one cell to everything seen. */
  lemma StepSeen(field: Field, p: Piece, i: nat, j: nat)
    requires i < |field| && j < WIDTH
    ensures SeenBefore(field, p, i, j + 1) <==> SeenBefore(field, p, i, j) || field[i][j] == Block(p)
  {
    if SeenBefore(field, p, i, j + 1) && field[i][j] != Block(p) {
      var i0, j0 :| 0 <= i0 < |field| && 0 <= j0 < WIDTH && Earlier(i0, j0, i, j + 1)
                    && field[i0][j0] == Block(p);
      assert Earlier(i0, j0, i, j);
    }
    if field[i][j] == Block(p) {
      assert Earlier(i, j, i, j + 1);
    }
  }

  lemma StepSupported(rule: Rule, field: Field, p: Piece, i: nat, j: nat)
    requires i < |field| && j < WIDTH
    ensures SupportedBefore(rule, field, p, i, j + 1) <==>
      SupportedBefore(rule, field, p, i, j)
      || (field[i][j] == Block(p) && Supports(rule, field, i, j) == Ok(true))
  {
    if SupportedBefore(rule, field, p, i, j + 1) && !(field[i][j] == Block(p) && Supports(rule, field, i, j) == Ok(true)) {
      var i0, j0 :| 0 <= i0 < |field| && 0 <= j0 < WIDTH && Earlier(i0, j0, i, j + 1)
                    && field[i0][j0] == Block(p) && Supports(rule, field, i0, j0) == Ok(true);
      assert Earlier(i0, j0, i, j);
    }
    if field[i][j] == Block(p) && Supports(rule, field, i, j) == Ok(true) {
      assert Earlier(i, j, i, j + 1);
    }
  }

  /** The end of a row is the start of the next. */
  lemma RowWrap(rule: Rule, field: Field, p: Piece, i: nat)
    ensures SeenBefore(field, p, i, WIDTH) <==> SeenBefore(field, p, i + 1, 0)
    ensures SupportedBefore(rule, field, p, i, WIDTH) <==> SupportedBefore(rule, field, p, i + 1, 0)
  {
    if SeenBefore(field, p, i + 1, 0) {
      var i0, j0 :| 0 <= i0 < |field| && 0 <= j0 < WIDTH && Earlier(i0, j0, i + 1, 0)
                    && field[i0][j0] == Block(p);
      assert Earlier(i0, j0, i, WIDTH);
    }
    if SupportedBefore(rule, field, p, i + 1, 0) {
      var i0, j0 :| 0 <= i0 < |field| && 0 <= j0 < WIDTH && Earlier(i0, j0, i + 1, 0)
                    && field[i0][j0] == Block(p) && Supports(rule, field, i0, j0) == Ok(true);
      assert Earlier(i0, j0, i, WIDTH);
    }
  }

  /** Visiting a cell that is untracked, or whose colour is already in
      state 2, leaves every state as it was. */
  lemma VisitSkip(rule: Rule, field: Field, state: map<Piece, State>, i: nat, j: nat)
    requires i < |field| && j < WIDTH
    requires StatesAt(rule, field, state, i, j)
    requires field[i][j].Block? && field[i][j].piece in state ==> state[field[i][j].piece] == Supported
    ensures StatesAt(rule, field, state, i, j + 1)
  {
    forall p | p in state
      ensures (state[p] == Supported <==> SupportedBefore(rule, field, p, i, j + 1))
      ensures (state[p] == Unknown <==> !SeenBefore(field, p, i, j + 1))
    {
      StepSeen(field, p, i, j);
      StepSupported(rule, field, p, i, j);
    }
  }

  /** Visiting a tracked cell whose colour is not in state 2 sets that
      colour's state to 2 or 1 by the cell's support. */
  lemma VisitUpdate(rule: Rule, field: Field, state: map<Piece, State>, i: nat, j: nat, supported: bool)
    requires i < |field| && j < WIDTH
    requires StatesAt(rule, field, state, i, j)
    requires field[i][j].Block? && field[i][j].piece in state
    requires state[field[i][j].piece] != Supported
    requires Supports(rule, field, i, j) == Ok(supported)
    ensures StatesAt(rule, field, state[field[i][j].piece := if supported then Supported else Unsupported], i, j + 1)
  {
    var s1 := state[field[i][j].piece := if supported then Supported else Unsupported];
    forall p | p in s1
      ensures (s1[p] == Supported <==> SupportedBefore(rule, field, p, i, j + 1))
      ensures (s1[p] == Unknown <==> !SeenBefore(field, p, i, j + 1))
    {
      StepSeen(field, p, i, j);
      StepSupported(rule, field, p, i, j);
    }
  }

  /** Under the states held at the end of a row, the next row starts with
      the same states. */
  lemma NextRow(rule: Rule, field: Field, state: map<Piece, State>, i: nat)
    requires StatesAt(rule, field, state, i, WIDTH)
    ensures StatesAt(rule, field, state, i + 1, 0)
  {
    forall p | p in state
      ensures (state[p] == Supported <==> SupportedBefore(rule, field, p, i + 1, 0))
      ensures (state[p] == Unknown <==> !SeenBefore(field, p, i + 1, 0))
    {
      RowWrap(rule, field, p, i);
    }
  }

  /** Under the states held at (i, j), the scan stops there exactly when it
      visits the cell and the support test fails. */
  lemma BlockedAt(rule: Rule, field: Field, state: map<Piece, State>, i: nat, j: nat)
    requires i < |field| && j < WIDTH
    requires StatesAt(rule, field, state, i, j)
    ensures Blocked(rule, state.Keys, field, i, j) <==>
      field[i][j].Block? && field[i][j].piece in state && state[field[i][j].piece] != Supported
      && Supports(rule, field, i, j).Err?
  {
  }

  lemma StopsHere(rule: Rule, tracked: set<Piece>, field: Field, i: int, j: int)
    requires forall i0, j0 :: Earlier(i0, j0, i, j) ==> !Blocked(rule, tracked, field, i0, j0)
    requires Blocked(rule, tracked, field, i, j)
    ensures FirstBlocked(rule, tracked, field, i, j)
    ensures !NeverBlocked(rule, tracked, field)
  {
  }

  lemma NeverStops(rule: Rule, tracked: set<Piece>, field: Field)
    requires forall i0, j0 :: Earlier(i0, j0, |field|, 0) ==> !Blocked(rule, tracked, field, i0, j0)
    ensures NeverBlocked(rule, tracked, field)
  {
  }

  lemma NotBlockedStep(rule: Rule, tracked: set<Piece>, field: Field, i: int, j: int)
    requires forall i0, j0 :: Earlier(i0, j0, i, j) ==> !Blocked(rule, tracked, field, i0, j0)
    requires !Blocked(rule, tracked, field, i, j)
    ensures forall i0, j0 :: Earlier(i0, j0, i, j + 1) ==> !Blocked(rule, tracked, field, i0, j0)
  {
  }

  lemma NotBlockedWrap(rule: Rule, tracked: set<Piece>, field: Field, i: int)
    requires forall i0, j0 :: Earlier(i0, j0, i, WIDTH) ==> !Blocked(rule, tracked, field, i0, j0)
    ensures forall i0, j0 :: Earlier(i0, j0, i + 1, 0) ==> !Blocked(rule, tracked, field, i0, j0)
  {
  }

  /** Phase 1 (lines 93-113): the states of the colours placed before T. */
  method SupportBefore(field: Field, before: seq<Piece>) returns (state: map<Piece, State>)
    ensures state.Keys == Tracked(before)
    ensures FinalStates(BeforeRule(Tracked(before)), field, state)
  {
    ghost var rule := BeforeRule(Tracked(before));
    state := map p | p in before :: Unknown;
    for i := 0 to |field|
      invariant state.Keys == Tracked(before)
      invariant StatesAt(rule, field, state, i, 0)
    {
      for j := 0 to WIDTH
        invariant state.Keys == Tracked(before)
        invariant StatesAt(rule, field, state, i, j)
      {
        var cell := field[i][j];
        if cell.Block? && cell.piece in state && state[cell.piece] != Supported {
          var hasSupport := BeforeSupport(state.Keys, field, i, j);
          VisitUpdate(rule, field, state, i, j, hasSupport);
          state := state[cell.piece := if hasSupport then Supported else Unsupported];
        } else {
          VisitSkip(rule, field, state, i, j);
        }
      }
      NextRow(rule, field, state, i);
    }
    Finish(rule, field, state);
  }

  lemma Finish(rule: Rule, field: Field, state: map<Piece, State>)
    requires StatesAt(rule, field, state, |field|, 0)
    ensures FinalStates(rule, field, state)
  {
    forall p | HasSupport(rule, field, p) ensures Appears(field, p) {
      var i0, j0 :| 0 <= i0 < |field| && 0 <= j0 < WIDTH && Earlier(i0, j0, |field|, 0)
                    && field[i0][j0] == Block(p) && Supports(rule, field, i0, j0) == Ok(true);
    }
  }

  /** Phase 2 (lines 117-147): the states of the colours placed after T, or
      the error of the first cell whose support test fails. */
  method SupportAfter(field: Field, after: seq<Piece>, sequence: seq<Piece>) returns (r: Result<map<Piece, State>>)
    ensures r.Ok? <==> NeverBlocked(AfterRule(sequence), Tracked(after), field)
    ensures r.Ok? ==> r.value.Keys == Tracked(after)
    ensures r.Ok? ==> FinalStates(AfterRule(sequence), field, r.value)
    ensures r.Err? ==> exists i, j :: FirstBlocked(AfterRule(sequence), Tracked(after), field, i, j)
                                      && Supports(AfterRule(sequence), field, i, j) == Err(r.error)
  {
    ghost var rule := AfterRule(sequence);
    ghost var tracked := Tracked(after);
    var state := map p | p in after :: Unknown;
    for i := 0 to |field|
      invariant state.Keys == tracked
      invariant StatesAt(rule, field, state, i, 0)
      invariant forall i0, j0 :: Earlier(i0, j0, i, 0) ==> !Blocked(rule, tracked, field, i0, j0)
    {
      for j := 0 to WIDTH
        invariant state.Keys == tracked
        invariant StatesAt(rule, field, state, i, j)
        invariant forall i0, j0 :: Earlier(i0, j0, i, j) ==> !Blocked(rule, tracked, field, i0, j0)
      {
        var visited := AfterVisit(field, sequence, state, i, j, tracked);
        if visited.Err? {
          StopsHere(rule, tracked, field, i, j);
          return Err(visited.error);
        }
        state := visited.value;
      }
      NextRow(rule, field, state, i);
      NotBlockedWrap(rule, tracked, field, i);
    }
    Finish(rule, field, state);
    NeverStops(rule, tracked, field);
    r := Ok(state);
  }

  /** One visit of phase 2 to cell (i, j) (lines 125-145): the states after
      it, or the error when the scan stops at this cell. */
  method AfterVisit(field: Field, sequence: seq<Piece>, state: map<Piece, State>, i: nat, j: nat, ghost tracked: set<Piece>)
    returns (r: Result<map<Piece, State>>)
    requires i < |field| && j < WIDTH && state.Keys == tracked
    requires StatesAt(AfterRule(sequence), field, state, i, j)
    requires forall i0, j0 :: Earlier(i0, j0, i, j) ==> !Blocked(AfterRule(sequence), tracked, field, i0, j0)
    ensures r.Ok? ==> r.value.Keys == tracked && StatesAt(AfterRule(sequence), field, r.value, i, j + 1)
    ensures r.Ok? ==> forall i0, j0 :: Earlier(i0, j0, i, j + 1) ==> !Blocked(AfterRule(sequence), tracked, field, i0, j0)
    ensures r.Err? ==> FirstBlocked(AfterRule(sequence), tracked, field, i, j)
                       && Supports(AfterRule(sequence), field, i, j) == Err(r.error)
  {
    ghost var rule := AfterRule(sequence);
    BlockedAt(rule, field, state, i, j);
    var cell := field[i][j];
    if cell.Block? && cell.piece in state && state[cell.piece] != Supported {
      var hasSupport := AfterSupport(sequence, field, i, j);
      if hasSupport.Err? {
        StopsHere(rule, tracked, field, i, j);
        return Err(hasSupport.error);
      }
      VisitUpdate(rule, field, state, i, j, hasSupport.value);
      NotBlockedStep(rule, tracked, field, i, j);
      r := Ok(state[cell.piece := if hasSupport.value then Supported else Unsupported]);
    } else {
      VisitSkip(rule, field, state, i, j);
      NotBlockedStep(rule, tracked, field, i, j);
      r := Ok(state);
    }
  }

  /** The floor and grey garbage support any cell, in both phases. */
  lemma FloorAndGreySupport(rule: Rule, field: Field, i: nat, j: nat)
    requires i < |field| && j < WIDTH && field[i][j].Block?
    requires i == 0 || field[i - 1][j] == Grey
    ensures Supports(rule, field, i, j) == Ok(true)
  {
  }

  /** Phase 1 off the floor: a cell is supported exactly when it sits on grey
      or on a tracked colour other than its own; empty cells, untracked
      colours and the same colour never support. */
  lemma BeforeSupportRule(tracked: set<Piece>, field: Field, i: nat, j: nat)
    requires 0 < i < |field| && j < WIDTH && field[i][j].Block?
    ensures BeforeSupport(tracked, field, i, j) <==>
      var below := field[i - 1][j];
      below == Grey || (below.Block? && below.piece in tracked && below.piece != field[i][j].piece)
  {
  }

  /** Phase 2 off the floor: T and empty cells never support. */
  lemma AfterNeverOnTOrEmpty(sequence: seq<Piece>, field: Field, i: nat, j: nat)
    requires 0 < i < |field| && j < WIDTH && field[i][j].Block?
    requires field[i - 1][j] == Block(T) || field[i - 1][j] == Empty
    ensures AfterSupport(sequence, field, i, j) == Ok(false)
  {
  }

  /** Phase 2 on another colour b: the cell of colour c is supported exactly
      when some occurrence of b in the sequence comes before some occurrence
      of c, which is the first index of b against the last index of c. */
  lemma AfterOrder(sequence: seq<Piece>, field: Field, i: nat, j: nat)
    requires 0 < i < |field| && j < WIDTH && field[i][j].Block?
    requires field[i - 1][j].Block? && field[i - 1][j].piece != T
    requires field[i - 1][j].piece in sequence && field[i][j].piece in sequence
    ensures AfterSupport(sequence, field, i, j).Ok?
    ensures AfterSupport(sequence, field, i, j).value <==>
      exists k0, k1 :: 0 <= k0 < k1 < |sequence|
                       && sequence[k0] == field[i - 1][j].piece && sequence[k1] == field[i][j].piece
  {
    var b, c := field[i - 1][j].piece, field[i][j].piece;
    var first, last := FirstIndex(sequence, b).value, LastIndex(sequence, c).value;
    if exists k0, k1 :: 0 <= k0 < k1 < |sequence| && sequence[k0] == b && sequence[k1] == c {
      var k0, k1 :| 0 <= k0 < k1 < |sequence| && sequence[k0] == b && sequence[k1] == c;
      assert first <= k0 && k1 <= last;
    }
    if first < last {
      assert sequence[first] == b && sequence[last] == c;
    }
  }

  /** Phase 2 fails on a cell whose own colour is in the sequence exactly
      when the colour below is a piece other than T that is missing from the
      sequence; the failure names that colour. */
  lemma AfterErrorIff(sequence: seq<Piece>, field: Field, i: nat, j: nat)
    requires i < |field| && j < WIDTH && field[i][j].Block? && field[i][j].piece in sequence
    ensures AfterSupport(sequence, field, i, j).Err? <==>
      i > 0 && field[i - 1][j].Block? && field[i - 1][j].piece != T && field[i - 1][j].piece !in sequence
    ensures AfterSupport(sequence, field, i, j).Err? ==>
      AfterSupport(sequence, field, i, j).error == NotInSequence(field[i - 1][j].piece)
  {
  }

  /** A phase rejects, some state ending as 1, exactly when some tracked
      colour occurs without a supported cell. */
  lemma RejectIff(rule: Rule, field: Field, state: map<Piece, State>)
    requires FinalStates(rule, field, state)
    ensures Unsupported in state.Values <==> !Passes(rule, field, state.Keys)
  {
    if !Passes(rule, field, state.Keys) {
      var p :| p in state && Appears(field, p) && !HasSupport(rule, field, p);
      assert state[p] == Unsupported;
    }
  }

  /** A colour whose every cell lies on the floor passes: it is supported
      if it occurs at all. */
  lemma FloorColourPasses(rule: Rule, field: Field, p: Piece)
    requires forall i, j :: 0 <= i < |field| && 0 <= j < WIDTH && field[i][j] == Block(p) ==> i == 0
    ensures Appears(field, p) ==> HasSupport(rule, field, p)
  {
    if Appears(field, p) {
      var i0, j0 :| 0 <= i0 < |field| && 0 <= j0 < WIDTH && Earlier(i0, j0, |field|, 0)
                    && field[i0][j0] == Block(p);
      assert Supports(rule, field, i0, j0) == Ok(true);
    }
  }

  /** A colour resting on grey anywhere passes, in both phases. */
  lemma GreyBasePasses(rule: Rule, field: Field, p: Piece, i: nat, j: nat)
    requires 0 < i < |field| && j < WIDTH && field[i][j] == Block(p) && field[i - 1][j] == Grey
    ensures HasSupport(rule, field, p)
  {
    assert Earlier(i, j, |field|, 0);
    assert Supports(rule, field, i, j) == Ok(true);
  }

  /** In phase 2 a colour off the floor whose every cell rests on T or on an
      empty cell occurs without support, so the phase rejects. */
  lemma AfterUnsupportedOnTOrEmpty(sequence: seq<Piece>, field: Field, p: Piece)
    requires forall i, j :: 0 <= i < |field| && 0 <= j < WIDTH && field[i][j] == Block(p) ==>
      i > 0 && (field[i - 1][j] == Block(T) || field[i - 1][j] == Empty)
    ensures !HasSupport(AfterRule(sequence), field, p)
  {
  }

  /** The colour below is looked up by its first occurrence and the cell's
      own colour by its last: with the sequence L, S, L an S resting on an L
      is supported, although the last L comes after the last S. */
  lemma AfterFirstBelowLastSelf(field: Field, i: nat, j: nat)
    requires 0 < i < |field| && j < WIDTH
    requires field[i][j] == Block(S) && field[i - 1][j] == Block(L)
    ensures AfterSupport([L, S, L], field, i, j) == Ok(true)
    ensures LastIndex([L, S, L], L) == Some(2) && LastIndex([L, S, L], S) == Some(1)
  {
    assert [L, S, L][..2] == [L, S];
  }
}
