/** Board vocabulary of the filter: the seven piece colours, the cells of a
    decoded fumen field, and the letter notation used for the piece groups
    given on the command line. */
module Cells {

  /** The seven tetromino colours of a fumen field. */
  datatype Piece = I | O | T | S | Z | J | L

  /** One grid position: empty, grey garbage, or a block of a piece colour. */
  datatype Cell = Empty | Grey | Block(piece: Piece)

  /** Every row of a fumen field has ten columns. */
  const WIDTH: nat := 10

  type Row = r: seq<Cell> | |r| == WIDTH witness seq(WIDTH, _ => Empty)

  /** Rows bottom to top: field[0] is the floor row and field[i - 1] lies
      directly below field[i]. */
  type Field = seq<Row>

  datatype Option<+V> = None | Some(value: V)

  /** Every way the filter stops the whole run instead of skipping a record. */
  datatype Error =
    | InvalidLetter(letter: char)    // letter_to_cellcolor's panic
    | DecodeFailed                   // Fumen::decode(..).expect
    | NoPage                         // fumen.pages[0] on a fumen without pages
    | PageCount(count: nat)          // assert_eq!(fumen.pages.len(), 1)
    | NotInSequence(piece: Piece)    // the below colour is missing from before ++ after
    | MissingSelf(piece: Piece)      // the unwrap of the cell's own colour lookup

  datatype Result<+V> = Ok(value: V) | Err(error: Error)

  /** The letters letter_to_cellcolor accepts. */
  const LETTERS: string := "IOTSZJL"

  /** The letter that names a piece. */
  function Name(p: Piece): (c: char)
    ensures c in LETTERS
  {
    match p
    case I => 'I'
    case O => 'O'
    case T => 'T'
    case S => 'S'
    case Z => 'Z'
    case J => 'J'
    case L => 'L'
  }

  /** letter_to_cellcolor: the same-named piece for each of the seven
      letters, an invalid-letter error for any other character. */
  function LetterToPiece(letter: char): (r: Result<Piece>)
    ensures r.Ok? <==> letter in LETTERS
    ensures r.Ok? ==> Name(r.value) == letter
    ensures r.Err? ==> r.error == InvalidLetter(letter)
  {
    match letter
    case 'I' => Ok(I)
    case 'O' => Ok(O)
    case 'T' => Ok(T)
    case 'S' => Ok(S)
    case 'Z' => Ok(Z)
    case 'J' => Ok(J)
    case 'L' => Ok(L)
    case _ => Err(InvalidLetter(letter))
  }

  lemma LetterRoundTrip(p: Piece)
    ensures LetterToPiece(Name(p)) == Ok(p)
  {
  }

  /** Upper-casing of one character, restricted to ASCII: after it, exactly
      the seven capitals and their lower-case forms name a piece, and a
      character that names a piece is that capital or its lower-case form. */
  function ToUpper(c: char): (u: char)
    ensures u in LETTERS <==> c in "IOTSZJLiotszjl"
    ensures u in LETTERS ==> c == u || c as int == u as int + 32
  {
    if 'a' <= c <= 'z' then (c as int - 32) as char else c
  }

  /** `letters.to_uppercase().chars().map(letter_to_cellcolor)` collected: the
      pieces named by the upper-cased letters, in order, or the error of the
      first letter that names no piece. */
  function ParseLetters(letters: string): (r: Result<seq<Piece>>)
    ensures r.Ok? <==> forall k :: 0 <= k < |letters| ==> ToUpper(letters[k]) in LETTERS
    ensures r.Ok? ==> |r.value| == |letters|
    ensures r.Ok? ==> forall k {:trigger r.value[k]} :: 0 <= k < |letters| ==> Name(r.value[k]) == ToUpper(letters[k])
    ensures r.Err? ==> exists k :: 0 <= k < |letters| && FirstInvalid(letters, k)
                                   && r.error == InvalidLetter(ToUpper(letters[k]))
  {
    if letters == [] then Ok([])
    else
      match LetterToPiece(ToUpper(letters[0]))
      case Err(e) =>
        assert FirstInvalid(letters, 0);
        Err(e)
      case Ok(p) =>
        match ParseLetters(letters[1..])
        case Err(e) =>
          ghost var k :| 0 <= k < |letters[1..]| && FirstInvalid(letters[1..], k)
                         && e == InvalidLetter(ToUpper(letters[1..][k]));
          assert FirstInvalid(letters, k + 1);
          Err(e)
        case Ok(ps) =>
          assert forall k :: 0 < k < |letters| ==> letters[k] == letters[1..][k - 1];
          Ok([p] + ps)
  }

  /** Position k holds the first letter that, upper-cased, names no piece. */
  ghost predicate FirstInvalid(letters: string, k: int)
    requires 0 <= k < |letters|
  {
    ToUpper(letters[k]) !in LETTERS && forall m :: 0 <= m < k ==> ToUpper(letters[m]) in LETTERS
  }

  /** Lower-case letters are accepted: each of "iotszjl" names the same
      piece as its capital. */
  lemma LowerCaseAccepted(c: char)
    requires c in "iotszjl"
    ensures LetterToPiece(ToUpper(c)).Ok?
    ensures Name(LetterToPiece(ToUpper(c)).value) as int == c as int - 32
  {
  }

  /** Distinct pieces have distinct letters. */
  lemma NameInjective(p: Piece, q: Piece)
    requires Name(p) == Name(q)
    ensures p == q
  {
  }

  /** Parsing two groups written one after the other gives the two parsed
      groups one after the other. */
  lemma ParseConcat(a: string, b: string)
    requires ParseLetters(a).Ok? && ParseLetters(b).Ok?
    ensures ParseLetters(a + b) == Ok(ParseLetters(a).value + ParseLetters(b).value)
  {
    ConcatValid(a, b);
    ConcatPointwise(a, b);
    assert ParseLetters(a + b).value == ParseLetters(a).value + ParseLetters(b).value;
  }

  lemma ConcatValid(a: string, b: string)
    requires ParseLetters(a).Ok? && ParseLetters(b).Ok?
    ensures ParseLetters(a + b).Ok?
  {
    forall k | 0 <= k < |a + b|
      ensures ToUpper((a + b)[k]) in LETTERS
    {
      if k < |a| { assert (a + b)[k] == a[k]; } else { assert (a + b)[k] == b[k - |a|]; }
    }
  }

  lemma ConcatPointwise(a: string, b: string)
    requires ParseLetters(a).Ok? && ParseLetters(b).Ok? && ParseLetters(a + b).Ok?
    ensures forall k :: 0 <= k < |a + b| ==>
      ParseLetters(a + b).value[k] == (ParseLetters(a).value + ParseLetters(b).value)[k]
  {
    var x, y := ParseLetters(a).value, ParseLetters(b).value;
    var r := ParseLetters(a + b).value;
    forall k | 0 <= k < |r|
      ensures r[k] == (x + y)[k]
    {
      if k < |a| {
        assert (a + b)[k] == a[k];
        NameInjective(r[k], x[k]);
      } else {
        assert (a + b)[k] == b[k - |a|];
        NameInjective(r[k], y[k - |a|]);
      }
    }
  }

  /** The set of colours named by a parsed group (the keys of its HashMap). */
  function Tracked(group: seq<Piece>): set<Piece> {
    set p | p in group
  }
}
