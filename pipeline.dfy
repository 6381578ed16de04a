/** The per-record filter of the main loop and the loop itself: skip
    records without the fumen URL prefix or with too many lines, decode,
    demand exactly one page, then the gap check and the two support phases;
    a record that survives everything is printed. */
module Pipeline {
  import opened Cells
  import opened Gap
  import opened Support

  const PREFIX: string := "http://fumen.zui.jp/?"

  newtype u8 = x: int | 0 <= x < 256

  /** What the fumen decoder returns for a record's reference string. */
  datatype Decoded = DecodeError | Pages(fields: seq<Field>)

  /** One CSV record: column 0 holds the reference string, column 7 the
      line count; `decoded` is the decoder's answer for the reference with
      the prefix stripped. */
  datatype Record = Record(reference: string, lineCount: u8, decoded: Decoded)

  /** The command-line arguments that reach the checks. */
  datatype Config = Config(beforeT: string, afterT: string, line: u8)

  datatype Outcome = Emit(text: string) | Skip | Fatal(error: Error)

  /** `str::strip_prefix`. */
  function StripPrefix(s: string, prefix: string): (r: Option<string>)
    ensures r.Some? <==> prefix <= s
    ensures r.Some? ==> prefix + r.value == s
  {
    if prefix <= s then Some(s[|prefix|..]) else None
  }

  /** The error of the first cell at which phase 2 stops. */
  ghost function StopError(rule: Rule, tracked: set<Piece>, field: Field): (e: Error)
    requires !NeverBlocked(rule, tracked, field)
    ensures exists i, j :: FirstBlocked(rule, tracked, field, i, j) && Supports(rule, field, i, j) == Err(e)
  {
    var i0, j0 :| Blocked(rule, tracked, field, i0, j0);
    FirstBlockedExists(rule, tracked, field, i0, j0);
    var i, j :| FirstBlocked(rule, tracked, field, i, j);
    Supports(rule, field, i, j).error
  }

  /** Some blocked cell comes first. */
  lemma FirstBlockedExists(rule: Rule, tracked: set<Piece>, field: Field, i: int, j: int)
    requires Blocked(rule, tracked, field, i, j)
    ensures exists a, b :: FirstBlocked(rule, tracked, field, a, b)
    decreases i, j
  {
    if !FirstBlocked(rule, tracked, field, i, j) {
      var i0, j0 :| Earlier(i0, j0, i, j) && Blocked(rule, tracked, field, i0, j0);
      FirstBlockedExists(rule, tracked, field, i0, j0);
    }
  }

  /** Only one cell comes first. */
  lemma FirstBlockedUnique(rule: Rule, tracked: set<Piece>, field: Field, i: int, j: int, a: int, b: int)
    requires FirstBlocked(rule, tracked, field, i, j) && FirstBlocked(rule, tracked, field, a, b)
    ensures i == a && j == b
  {
  }

  /** The three structural checks on the one decoded field, in order. */
  ghost function Checks(field: Field, cfg: Config, fumen: string): Outcome {
    if !Continuous(field) then Skip
    else
      match ParseLetters(cfg.beforeT)
      case Err(e) => Fatal(e)
      case Ok(before) =>
        if !Passes(BeforeRule(Tracked(before)), field, Tracked(before)) then Skip
        else
          match ParseLetters(cfg.afterT)
          case Err(e) => Fatal(e)
          case Ok(after) =>
            var rule := AfterRule(before + after);
            if !NeverBlocked(rule, Tracked(after), field) then Fatal(StopError(rule, Tracked(after), field))
            else if !Passes(rule, field, Tracked(after)) then Skip
            else Emit(PREFIX + fumen)
  }

  /** What the main loop does with one record. */
  ghost function Expected(rec: Record, cfg: Config): Outcome {
    match StripPrefix(rec.reference, PREFIX)
    case None => Skip
    case Some(fumen) =>
      if rec.lineCount > cfg.line then Skip
      else
        match rec.decoded
        case DecodeError => Fatal(DecodeFailed)
        case Pages(pages) =>
          if |pages| == 0 then Fatal(NoPage)
          else if |pages| != 1 then Fatal(PageCount(|pages|))
          else Checks(pages[0], cfg, fumen)
  }

  /** The body of the main loop for one record (lines 40-151). */
  method Filter(rec: Record, cfg: Config) returns (out: Outcome)
    ensures out == Expected(rec, cfg)
  {
    var fumen := StripPrefix(rec.reference, PREFIX);
    if fumen.None? {
      return Skip;
    }
    if rec.lineCount > cfg.line {
      return Skip;
    }
    if rec.decoded.DecodeError? {
      return Fatal(DecodeFailed);
    }
    var pages := rec.decoded.fields;
    if |pages| == 0 {
      return Fatal(NoPage);
    }
    var field := pages[0];
    if |pages| != 1 {
      return Fatal(PageCount(|pages|));
    }
    var continuous := GapCheck(field);
    if !continuous {
      return Skip;
    }
    var beforeLetters := ParseLetters(cfg.beforeT);
    if beforeLetters.Err? {
      return Fatal(beforeLetters.error);
    }
    var before := beforeLetters.value;
    var beforeT := SupportBefore(field, before);
    Support.RejectIff(BeforeRule(Tracked(before)), field, beforeT);
    if Unsupported in beforeT.Values {
      return Skip;
    }
    var afterLetters := ParseLetters(cfg.afterT);
    if afterLetters.Err? {
      return Fatal(afterLetters.error);
    }
    var after := afterLetters.value;
    // the upper-cased groups concatenated, then mapped letter by letter
    ParseConcat(cfg.beforeT, cfg.afterT);
    var sequence := ParseLetters(cfg.beforeT + cfg.afterT).value;
    var afterT := SupportAfter(field, after, sequence);
    ghost var rule := AfterRule(sequence);
    if afterT.Err? {
      ghost var i, j :| FirstBlocked(rule, Tracked(after), field, i, j)
                        && Supports(rule, field, i, j) == Err(afterT.error);
      ghost var e := StopError(rule, Tracked(after), field);
      ghost var a, b :| FirstBlocked(rule, Tracked(after), field, a, b) && Supports(rule, field, a, b) == Err(e);
      FirstBlockedUnique(rule, Tracked(after), field, i, j, a, b);
      return Fatal(afterT.error);
    }
    Support.RejectIff(rule, field, afterT.value);
    if Unsupported in afterT.value.Values {
      return Skip;
    }
    return Emit(PREFIX + fumen.value);
  }

  /** The emitted references and the fatal error, if any, of a run over the
      records in order: the run stops at the first fatal record. */
  ghost function RunSpec(records: seq<Record>, cfg: Config): (seq<string>, Option<Error>) {
    if records == [] then ([], None)
    else
      match Expected(records[0], cfg)
      case Fatal(e) => ([], Some(e))
      case Skip => RunSpec(records[1..], cfg)
      case Emit(text) =>
        var rest := RunSpec(records[1..], cfg);
        ([text] + rest.0, rest.1)
  }

  /** The main loop over the records (lines 38-152). */
  method Run(records: seq<Record>, cfg: Config) returns (emitted: seq<string>, fatal: Option<Error>)
    ensures (emitted, fatal) == RunSpec(records, cfg)
  {
    emitted := [];
    fatal := None;
    assert records[0..] == records;
    assert emitted + RunSpec(records, cfg).0 == RunSpec(records, cfg).0;
    for k := 0 to |records|
      invariant RunSpec(records, cfg) == (emitted + RunSpec(records[k..], cfg).0, RunSpec(records[k..], cfg).1)
    {
      var out := Filter(records[k], cfg);
      assert records[k..][1..] == records[k + 1..];
      match out
      case Fatal(e) =>
        fatal := Some(e);
        assert emitted + [] == emitted;
        return;
      case Skip =>
      case Emit(text) =>
        assert emitted + ([text] + RunSpec(records[k + 1..], cfg).0)
            == (emitted + [text]) + RunSpec(records[k + 1..], cfg).0;
        emitted := emitted + [text];
    }
    assert records[|records|..] == [];
    assert emitted + [] == emitted;
  }

  /** A record is printed exactly when it carries the prefix, is within the
      line limit, decodes to one page, and passes the gap check and both
      phases; what is printed is the record's own reference string. */
  lemma EmitIff(rec: Record, cfg: Config)
    ensures Expected(rec, cfg).Emit? <==>
      PREFIX <= rec.reference && rec.lineCount <= cfg.line
      && rec.decoded.Pages? && |rec.decoded.fields| == 1
      && Continuous(rec.decoded.fields[0])
      && ParseLetters(cfg.beforeT).Ok? && ParseLetters(cfg.afterT).Ok?
      && var field, before, after := rec.decoded.fields[0], ParseLetters(cfg.beforeT).value, ParseLetters(cfg.afterT).value;
         Passes(BeforeRule(Tracked(before)), field, Tracked(before))
         && NeverBlocked(AfterRule(before + after), Tracked(after), field)
         && Passes(AfterRule(before + after), field, Tracked(after))
    ensures Expected(rec, cfg).Emit? ==> Expected(rec, cfg).text == rec.reference
  {
  }

  /** The line-count filter runs before anything else that looks at the
      board: a record over the limit is skipped whatever it decodes to. */
  lemma LineFilterFirst(rec: Record, cfg: Config, decoded: Decoded)
    requires rec.lineCount > cfg.line
    ensures Expected(rec.(decoded := decoded), cfg) == Skip
  {
  }

  /** The only ways a record stops the run: a failed decode, a page count
      other than one, a letter naming no piece, or a colour below a phase-2
      cell that is neither T nor in the sequence. The lookup of a cell's own
      colour never fails. */
  lemma FatalKinds(rec: Record, cfg: Config)
    requires Expected(rec, cfg).Fatal?
    ensures match Expected(rec, cfg).error
      case DecodeFailed => rec.decoded.DecodeError?
      case NoPage => rec.decoded.Pages? && |rec.decoded.fields| == 0
      case PageCount(n) => rec.decoded.Pages? && n == |rec.decoded.fields| && n > 1
      case InvalidLetter(c) => c !in LETTERS
      case NotInSequence(b) => NotInSequenceCause(cfg, b)
      case MissingSelf(_) => false
  {
    if rec.decoded.Pages? && |rec.decoded.fields| == 1 {
      var fumen := StripPrefix(rec.reference, PREFIX).value;
      assert Expected(rec, cfg) == Checks(rec.decoded.fields[0], cfg, fumen);
      ChecksFatalKinds(rec.decoded.fields[0], cfg, fumen);
    }
  }

  /** The colour b below a phase-2 cell stops the run: b is not T and is in
      neither group. */
  ghost predicate NotInSequenceCause(cfg: Config, b: Piece) {
    b != T && ParseLetters(cfg.beforeT).Ok? && ParseLetters(cfg.afterT).Ok?
    && b !in ParseLetters(cfg.beforeT).value + ParseLetters(cfg.afterT).value
  }

  lemma ChecksFatalKinds(field: Field, cfg: Config, fumen: string)
    requires Checks(field, cfg, fumen).Fatal?
    ensures match Checks(field, cfg, fumen).error
      case InvalidLetter(c) => c !in LETTERS
      case NotInSequence(b) => NotInSequenceCause(cfg, b)
      case DecodeFailed => false
      case NoPage => false
      case PageCount(_) => false
      case MissingSelf(_) => false
  {
    var e := Checks(field, cfg, fumen).error;
    if ParseLetters(cfg.beforeT).Err? {
      var k :| 0 <= k < |cfg.beforeT| && FirstInvalid(cfg.beforeT, k) && e == InvalidLetter(ToUpper(cfg.beforeT[k]));
    } else if ParseLetters(cfg.afterT).Err? {
      var k :| 0 <= k < |cfg.afterT| && FirstInvalid(cfg.afterT, k) && e == InvalidLetter(ToUpper(cfg.afterT[k]));
    } else {
      var before, after := ParseLetters(cfg.beforeT).value, ParseLetters(cfg.afterT).value;
      var rule := AfterRule(before + after);
      var i, j :| FirstBlocked(rule, Tracked(after), field, i, j) && Supports(rule, field, i, j) == Err(e);
      assert field[i][j].piece in before + after;
      AfterErrorIff(before + after, field, i, j);
    }
  }

  /** Records are independent: a run over a ++ b, where a stops nothing,
      prints what a prints followed by what b prints. */
  lemma {:induction false} RunConcat(a: seq<Record>, b: seq<Record>, cfg: Config)
    requires RunSpec(a, cfg).1.None?
    ensures RunSpec(a + b, cfg) == (RunSpec(a, cfg).0 + RunSpec(b, cfg).0, RunSpec(b, cfg).1)
  {
    if a == [] {
      assert a + b == b;
      assert RunSpec(a, cfg).0 + RunSpec(b, cfg).0 == RunSpec(b, cfg).0;
    } else {
      assert (a + b)[0] == a[0];
      assert (a + b)[1..] == a[1..] + b;
      RunConcat(a[1..], b, cfg);
      match Expected(a[0], cfg)
      case Skip =>
      case Emit(text) =>
        assert [text] + (RunSpec(a[1..], cfg).0 + RunSpec(b, cfg).0)
            == ([text] + RunSpec(a[1..], cfg).0) + RunSpec(b, cfg).0;
    }
  }

  /** Every printed string is the reference of a record of the run. */
  lemma {:induction false} RunEmitsReferences(records: seq<Record>, cfg: Config)
    ensures forall t :: t in RunSpec(records, cfg).0 ==> exists r :: r in records && r.reference == t
  {
    if records != [] {
      RunEmitsReferences(records[1..], cfg);
      EmitIff(records[0], cfg);
      forall t | t in RunSpec(records, cfg).0 ensures exists r :: r in records && r.reference == t {
        if t !in RunSpec(records[1..], cfg).0 {
          assert records[0] in records;
        } else {
          var r :| r in records[1..] && r.reference == t;
          assert r in records;
        }
      }
    }
  }
}
