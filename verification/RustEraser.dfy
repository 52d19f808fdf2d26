/**
 The scanner that blanks the comments and literals of a Rust source file, so
 that a module name is looked for in code alone.

 The scanner's regular expressions are written out as functions on the text
 still to read. `Front` says what the scanner finds at the front of that text.
 */
module RustEraser {
  import opened Wrappers

  datatype Problem = OpenBlockComment | OpenRawString

  /** What stands at the front: a character to keep, a construct of `length` characters, or one with no end. */
  datatype Token = Plain | Construct(length: nat) | Unended(problem: Problem)

  predicate StartsWith(s: string, pattern: string) {
    pattern <= s
  }

  /** `StartsWith` for a pattern of one character. */
  predicate Single(s: string, c: char) {
    |s| >= 1 && s[0] == c
  }

  /** `StartsWith` for a pattern of two characters. */
  predicate Pair(s: string, c: char, d: char) {
    |s| >= 2 && s[0] == c && s[1] == d
  }

  // ------------------------------------------------------------ scanners

  /** The characters before the first newline. */
  function LineLength(s: string): (n: nat)
    ensures n <= |s|
    ensures forall i :: 0 <= i < n ==> s[i] != '\n'
    ensures n < |s| ==> s[n] == '\n'
  {
    if s == "" || s[0] == '\n' then 0 else 1 + LineLength(s[1..])
  }

  function Shift(n: nat, found: Option<nat>): Option<nat> {
    match found
    case Some(at) => Some(n + at)
    case None => None
  }

  /** The characters up to the end of the block comment that `depth` openers before `s` began. */
  function CommentLength(s: string, depth: nat): (n: Option<nat>)
    ensures n.Some? ==> n.value <= |s|
    decreases |s|
  {
    if depth == 0 then Some(0)
    else if s == "" then None
    else if Pair(s, '/', '*') then Shift(2, CommentLength(s[2..], depth + 1))
    else if Pair(s, '*', '/') then Shift(2, CommentLength(s[2..], depth - 1))
    else Shift(1, CommentLength(s[1..], depth))
  }

  /** The first place `pattern` occurs. */
  function Find(s: string, pattern: string): (n: Option<nat>)
    ensures n.Some? ==> n.value + |pattern| <= |s|
    decreases |s|
  {
    if StartsWith(s, pattern) then Some(0)
    else if s == "" then None
    else Shift(1, Find(s[1..], pattern))
  }

  function Hashes(n: nat): (s: string)
    ensures |s| == n
  {
    seq(n, _ => '#')
  }

  function LeadingHashes(s: string): (n: nat)
    ensures n <= |s|
    ensures forall i :: 0 <= i < n ==> s[i] == '#'
    ensures n < |s| ==> s[n] != '#'
  {
    if s == "" || s[0] != '#' then 0 else 1 + LeadingHashes(s[1..])
  }

  /** The length of a raw string's letters at the front: `br`, `cr` or `r`, or 0. */
  function RawLetters(s: string): (n: nat)
    ensures n <= |s| && n <= 2
    ensures forall i :: 0 <= i < n ==> s[i] in "bcr"
  {
    if Pair(s, 'b', 'r') || Pair(s, 'c', 'r') then 2 else if Single(s, 'r') then 1 else 0
  }

  /** Letters, hashes, a quote: the length of a raw string's opening, or 0 when none is at the front. */
  function RawOpening(s: string): (n: nat)
    ensures n <= |s|
    ensures n > 0 ==> n >= 2 && s[n - 1] == '"' && RawLetters(s) > 0
    ensures forall i :: 0 <= i < n - 1 ==> s[i] in "bcr#"
  {
    var letters := RawLetters(s);
    var hashes := LeadingHashes(s[letters..]);
    if letters > 0 && letters + hashes < |s| && s[letters + hashes] == '"' then letters + hashes + 1 else 0
  }

  /** The characters up to and with the closing quote, where `s` follows the opening one. */
  function QuotedLength(s: string): (n: Option<nat>)
    ensures n.Some? ==> 1 <= n.value <= |s|
    decreases |s|
  {
    if s == "" then None
    else if s[0] == '"' then Some(1)
    else if s[0] == '\\' then if |s| == 1 then None else Shift(2, QuotedLength(s[2..]))
    else Shift(1, QuotedLength(s[1..]))
  }

  /** An escaped string at the front, with its `b` or `c`. */
  function StringLength(s: string): (n: Option<nat>)
    ensures n.Some? ==> 2 <= n.value <= |s|
  {
    if Pair(s, 'b', '"') || Pair(s, 'c', '"') then Shift(2, QuotedLength(s[2..]))
    else if Single(s, '"') then Shift(1, QuotedLength(s[1..]))
    else None
  }

  /** One escaped or plain character and a closing quote, where `s` follows the opening one. */
  function CharBodyLength(s: string): (n: Option<nat>)
    ensures n.Some? ==> 2 <= n.value <= |s|
  {
    if |s| >= 3 && s[0] == '\\' && s[2] == '\'' then Some(3)
    else if |s| >= 2 && s[0] != '\\' && s[0] != '\'' && s[1] == '\'' then Some(2)
    else None
  }

  /** A character literal at the front, with its `b`. */
  function CharLength(s: string): (n: Option<nat>)
    ensures n.Some? ==> 2 <= n.value <= |s|
  {
    if Pair(s, 'b', '\'') then Shift(2, CharBodyLength(s[2..]))
    else if Single(s, '\'') then Shift(1, CharBodyLength(s[1..]))
    else None
  }

  function RawClosing(opening: nat, letters: nat): string
    requires letters < opening
  {
    "\"" + Hashes(opening - letters - 1)
  }

  /** A raw string at the front, from its opening to its own closing. */
  function RawLength(s: string): (n: Option<nat>)
    ensures n.Some? ==> RawOpening(s) > 0 && RawOpening(s) < n.value <= |s|
  {
    if RawOpening(s) == 0 then None
    else
      var closing := RawClosing(RawOpening(s), RawLetters(s));
      Shift(RawOpening(s) + |closing|, Find(s[RawOpening(s)..], closing))
  }

  /** The scanner's choice at the front of `s`, in the order it tries its branches. */
  function Front(s: string): (t: Token)
    requires s != ""
    ensures t.Construct? ==> 2 <= t.length <= |s|
  {
    if Pair(s, '/', '/') then Construct(LineLength(s))
    else if Pair(s, '/', '*') then
      match CommentLength(s[2..], 1)
      case Some(n) => Construct(2 + n)
      case None => Unended(OpenBlockComment)
    else if RawOpening(s) > 0 then
      match RawLength(s)
      case Some(n) => Construct(n)
      case None => Unended(OpenRawString)
    else if StringLength(s).Some? then Construct(StringLength(s).value)
    else if CharLength(s).Some? then Construct(CharLength(s).value)
    else Plain
  }

  type Erasure = Result<string, Problem>

  function Prepend(front: string, rest: Erasure): Erasure {
    match rest
    case Ok(text) => Ok(front + text)
    case Err(problem) => Err(problem)
  }

  /** The text with one space for each construct, or the problem of the first construct with no end. */
  function Erased(s: string): Erasure
    decreases |s|
  {
    if s == "" then Ok("")
    else
      match Front(s)
      case Plain => Prepend([s[0]], Erased(s[1..]))
      case Construct(n) => Prepend(" ", Erased(s[n..]))
      case Unended(problem) => Err(problem)
  }

  // ------------------------------------------------------------- the loop

  lemma DropDrop(s: string, m: nat, n: nat)
    requires m + n <= |s|
    ensures s[m..][n..] == s[m + n..]
  {
  }

  /** One turn of the comment loop: where it moves to and what depth it carries on with. */
  lemma CommentStep(text: string, at: nat, depth: nat)
    requires at < |text| && depth > 0
    ensures var rest := text[at..];
            var step := if Pair(rest, '/', '*') || Pair(rest, '*', '/') then 2 else 1;
            var next := if Pair(rest, '/', '*') then depth + 1
                        else if Pair(rest, '*', '/') then depth - 1 else depth;
            && at + step <= |text|
            && Shift(at, CommentLength(rest, depth)) == Shift(at + step, CommentLength(text[at + step..], next))
  {
    var rest := text[at..];
    DropDrop(text, at, if Pair(rest, '/', '*') || Pair(rest, '*', '/') then 2 else 1);
  }

  method CommentEnd(text: string, start: nat) returns (end: Option<nat>)
    requires start <= |text|
    ensures end == Shift(start, CommentLength(text[start..], 1))
  {
    var position, depth := start, 1;
    ghost var goal := Shift(start, CommentLength(text[start..], 1));
    while depth > 0 && position < |text|
      invariant start <= position <= |text|
      invariant goal == Shift(position, CommentLength(text[position..], depth))
      decreases |text| - position
    {
      CommentStep(text, position, depth);
      if Pair(text[position..], '/', '*') {
        depth, position := depth + 1, position + 2;
      } else if Pair(text[position..], '*', '/') {
        depth, position := depth - 1, position + 2;
      } else {
        position := position + 1;
      }
    }
    assert depth > 0 ==> text[position..] == "";
    end := if depth == 0 then Some(position) else None;
  }

  lemma PrependTwice(a: string, b: string, rest: Erasure)
    ensures Prepend(a, Prepend(b, rest)) == Prepend(a + b, rest)
  {
    if rest.Ok? {
      assert a + (b + rest.value) == (a + b) + rest.value;
    }
  }

  lemma PlainStep(text: string, at: nat, result: string)
    requires at < |text| && Front(text[at..]).Plain?
    ensures Prepend(result, Erased(text[at..])) == Prepend(result + [text[at]], Erased(text[at + 1..]))
  {
    DropDrop(text, at, 1);
    PrependTwice(result, [text[at]], Erased(text[at + 1..]));
  }

  lemma KeepFront(s: string)
    requires s != "" && Front(s).Plain?
    ensures Erased(s) == Prepend([s[0]], Erased(s[1..]))
    ensures !Pair(s, '/', '/') && !Pair(s, '/', '*')
  {
  }

  lemma PlainWhen(s: string)
    requires s != "" && !Pair(s, '/', '/') && !Pair(s, '/', '*')
    requires RawOpening(s) == 0 && StringLength(s).None?
    ensures Front(s) == if CharLength(s).Some? then Construct(CharLength(s).value) else Plain
  {
  }

  lemma BlankFront(s: string, n: nat, tail: string)
    requires s != "" && Front(s) == Construct(n) && s[n..] == tail
    ensures Erased(s) == Prepend(" ", Erased(tail))
  {
  }

  lemma ConstructStep(text: string, at: nat, end: nat, result: string)
    requires at < |text| && at <= end && Front(text[at..]) == Construct(end - at)
    ensures Prepend(result, Erased(text[at..])) == Prepend(result + " ", Erased(text[end..]))
  {
    DropDrop(text, at, end - at);
    BlankFront(text[at..], end - at, text[end..]);
    PrependTwice(result, " ", Erased(text[end..]));
  }

  lemma LastStep(text: string, result: string)
    ensures Prepend(result, Erased(text[|text|..])) == Ok(result)
  {
    assert text[|text|..] == "" && result + "" == result;
  }

  lemma FirstStep(text: string)
    ensures Erased(text) == Prepend("", Erased(text[0..]))
  {
    assert text[0..] == text;
    if Erased(text).Ok? {
      assert "" + Erased(text).value == Erased(text).value;
    }
  }

  /** What the branches of one pass of the loop find, where `Front` says what they should. */
  method ScanConstruct(text: string, position: nat) returns (end: Result<nat, Problem>, found: bool)
    requires position < |text|
    ensures found <==> !Front(text[position..]).Plain?
    ensures found ==> match end
                      case Ok(at) => position <= at && Front(text[position..]) == Construct(at - position)
                      case Err(problem) => Front(text[position..]) == Unended(problem)
  {
    var rest := text[position..];
    end, found := Ok(position), true;
    if Pair(rest, '/', '/') {
      end := Ok(position + LineLength(rest));
    } else if Pair(rest, '/', '*') {
      var commentEnd := CommentEnd(text, position + 2);
      DropDrop(text, position, 2);
      end := if commentEnd.Some? then Ok(commentEnd.value) else Err(OpenBlockComment);
    } else if RawOpening(rest) > 0 {
      var closing := RawClosing(RawOpening(rest), RawLetters(rest));
      var at := Find(rest[RawOpening(rest)..], closing);
      end := if at.Some? then Ok(position + RawOpening(rest) + at.value + |closing|) else Err(OpenRawString);
    } else if StringLength(rest).Some? {
      end := Ok(position + StringLength(rest).value);
    } else if CharLength(rest).Some? {
      end := Ok(position + CharLength(rest).value);
    } else {
      found := false;
    }
  }

  /** `rust_code`: one pass over the text, appending to the result. */
  method RustCode(text: string) returns (r: Erasure)
    ensures r == Erased(text)
  {
    var result := "";
    var position := 0;
    FirstStep(text);
    ghost var goal := Erased(text);
    while position < |text|
      invariant position <= |text|
      invariant goal == Prepend(result, Erased(text[position..]))
      decreases |text| - position
    {
      var end, found := ScanConstruct(text, position);
      if !found {
        PlainStep(text, position, result);
        result, position := result + [text[position]], position + 1;
      } else if end.Err? {
        return Err(end.error);
      } else {
        ConstructStep(text, position, end.value, result);
        result, position := result + " ", end.value;
      }
    }
    LastStep(text, result);
    r := Ok(result);
  }

  // ------------------------------------------------- what the output holds

  /** No two neighbouring characters open a comment. */
  predicate NoCommentOpener(s: string) {
    forall i :: 0 <= i < |s| - 1 ==> !(s[i] == '/' && (s[i + 1] == '/' || s[i + 1] == '*'))
  }

  lemma {:induction false} OutputFront(s: string)
    requires Erased(s).Ok?
    ensures s == "" ==> Erased(s).value == ""
    ensures s != "" ==> Erased(s).value != "" && (Erased(s).value[0] == s[0] || Erased(s).value[0] == ' ')
  {
  }

  /** The output opens no comment. */
  lemma {:induction false} OutputHoldsNoComment(s: string)
    requires Erased(s).Ok?
    ensures NoCommentOpener(Erased(s).value)
    decreases |s|
  {
    if s != "" {
      var front, tail := FirstOutput(s);
      OutputHoldsNoComment(tail);
      OutputFront(tail);
      var output, rest := Erased(s).value, Erased(tail).value;
      forall i | 0 <= i < |output| - 1 ensures !(output[i] == '/' && (output[i + 1] == '/' || output[i + 1] == '*')) {
        assert i > 0 ==> output[i] == rest[i - 1] && output[i + 1] == rest[i];
      }
    }
  }

  /** The first output character and the input after what gave it. */
  lemma FirstOutput(s: string) returns (front: char, tail: string)
    requires s != "" && Erased(s).Ok?
    ensures |tail| < |s| && Erased(tail).Ok? && Erased(s).value == [front] + Erased(tail).value
    ensures front != ' ' ==> front == s[0] && tail == s[1..] && !Pair(s, '/', '/') && !Pair(s, '/', '*')
  {
    if Front(s).Plain? {
      KeepFront(s);
      front, tail := s[0], s[1..];
    } else {
      var n := Front(s).length;
      front, tail := ' ', s[n..];
      BlankFront(s, n, tail);
    }
  }

  /** What became of one stretch of the input: a character kept, or a construct blanked. */
  datatype Piece = Kept(c: char) | Blanked(construct: string)

  function Shown(piece: Piece): char {
    if piece.Kept? then piece.c else ' '
  }

  function Input(pieces: seq<Piece>): string {
    if pieces == [] then ""
    else (if pieces[0].Kept? then [pieces[0].c] else pieces[0].construct) + Input(pieces[1..])
  }

  function Output(pieces: seq<Piece>): string {
    if pieces == [] then "" else [Shown(pieces[0])] + Output(pieces[1..])
  }

  /** A complete comment or literal: it starts as one and ends as that kind does. */
  predicate IsConstruct(s: string) {
    || (Pair(s, '/', '/') && '\n' !in s)
    || (Pair(s, '/', '*') && CommentLength(s[2..], 1) == Some(|s| - 2))
    || RawLength(s) == Some(|s|)
    || StringLength(s) == Some(|s|)
    || CharLength(s) == Some(|s|)
  }

  predicate Accounts(pieces: seq<Piece>, input: string, output: string) {
    && Input(pieces) == input
    && Output(pieces) == output
    && forall i :: 0 <= i < |pieces| && pieces[i].Blanked? ==> IsConstruct(pieces[i].construct)
  }

  lemma {:induction false} CommentLengthLocal(s: string, depth: nat)
    requires CommentLength(s, depth).Some?
    ensures CommentLength(s[..CommentLength(s, depth).value], depth) == CommentLength(s, depth)
    decreases |s|
  {
    var n := CommentLength(s, depth).value;
    if depth > 0 {
      var step := if Pair(s, '/', '*') || Pair(s, '*', '/') then 2 else 1;
      var inner := if Pair(s, '/', '*') then depth + 1 else if Pair(s, '*', '/') then depth - 1 else depth;
      CommentLengthLocal(s[step..], inner);
      assert s[..n][step..] == s[step..][..n - step];
      if step == 1 && n > 1 {
        assert s[..n][..2] == s[..2];
      }
    }
  }

  lemma {:induction false} FindLocal(s: string, pattern: string)
    requires Find(s, pattern).Some?
    ensures Find(s[..Find(s, pattern).value + |pattern|], pattern) == Find(s, pattern)
    decreases |s|
  {
    var n := Find(s, pattern).value + |pattern|;
    if StartsWith(s, pattern) {
      assert s[..n] == pattern;
    } else {
      FindLocal(s[1..], pattern);
      assert s[..n][1..] == s[1..][..n - 1];
      assert s[..n][..|pattern|] == s[..|pattern|];
    }
  }

  lemma {:induction false} QuotedLengthLocal(s: string)
    requires QuotedLength(s).Some?
    ensures QuotedLength(s[..QuotedLength(s).value]) == QuotedLength(s)
    decreases |s|
  {
    var n := QuotedLength(s).value;
    if s[0] != '"' {
      var step := if s[0] == '\\' then 2 else 1;
      QuotedLengthLocal(s[step..]);
      assert s[..n][step..] == s[step..][..n - step];
    }
  }

  lemma {:induction false} LeadingHashesLocal(s: string, n: nat)
    requires LeadingHashes(s) < n <= |s|
    ensures LeadingHashes(s[..n]) == LeadingHashes(s)
  {
    if s[0] == '#' {
      LeadingHashesLocal(s[1..], n - 1);
      assert s[..n][1..] == s[1..][..n - 1];
    }
  }

  lemma RawOpeningLocal(s: string, n: nat)
    requires 0 < RawOpening(s) <= n <= |s|
    ensures RawLetters(s[..n]) == RawLetters(s) && RawOpening(s[..n]) == RawOpening(s)
  {
    var letters := RawLetters(s);
    assert s[..n][..letters] == s[..letters];
    if |s| > 1 && n > 1 {
      assert s[..n][..2] == s[..2];
    }
    LeadingHashesLocal(s[letters..], n - letters);
    assert s[..n][letters..] == s[letters..][..n - letters];
  }

  lemma BlockCommentIsConstruct(s: string)
    requires Pair(s, '/', '*') && CommentLength(s[2..], 1).Some?
    ensures IsConstruct(s[..2 + CommentLength(s[2..], 1).value])
  {
    var n := 2 + CommentLength(s[2..], 1).value;
    CommentLengthLocal(s[2..], 1);
    assert s[..n][2..] == s[2..][..n - 2];
  }

  lemma RawStringIsConstruct(s: string)
    requires RawLength(s).Some?
    ensures RawLength(s[..RawLength(s).value]) == RawLength(s)
  {
    var opening, n := RawOpening(s), RawLength(s).value;
    RawOpeningLocal(s, n);
    FindLocal(s[opening..], RawClosing(opening, RawLetters(s)));
    assert s[..n][opening..] == s[opening..][..n - opening];
  }

  lemma StringIsConstruct(s: string)
    requires StringLength(s).Some?
    ensures IsConstruct(s[..StringLength(s).value])
  {
    var n, quote := StringLength(s).value, if Single(s, '"') then 1 else 2;
    QuotedLengthLocal(s[quote..]);
    assert s[..n][quote..] == s[quote..][..n - quote];
    assert s[..n][..2] == s[..2];
  }

  lemma CharIsConstruct(s: string)
    requires CharLength(s).Some?
    ensures IsConstruct(s[..CharLength(s).value])
  {
    var n, quote := CharLength(s).value, if Single(s, '\'') then 1 else 2;
    assert s[..n][quote..] == s[quote..][..n - quote];
    assert s[..n][..2] == s[..2];
  }

  lemma FrontIsConstruct(s: string)
    requires s != "" && Front(s).Construct?
    ensures IsConstruct(s[..Front(s).length])
  {
    if Pair(s, '/', '/') {
      assert s[..Front(s).length][..2] == s[..2];
    } else if Pair(s, '/', '*') {
      BlockCommentIsConstruct(s);
    } else if RawOpening(s) > 0 {
      RawStringIsConstruct(s);
    } else if StringLength(s).Some? {
      StringIsConstruct(s);
    } else {
      CharIsConstruct(s);
    }
  }

  lemma AccountForOne(piece: Piece, pieces: seq<Piece>, front: string, input: string, output: string)
    requires Accounts(pieces, input, output)
    requires front == (if piece.Kept? then [piece.c] else piece.construct)
    requires piece.Blanked? ==> IsConstruct(front)
    ensures Accounts([piece] + pieces, front + input, [Shown(piece)] + output)
  {
    assert ([piece] + pieces)[1..] == pieces;
  }

  /** The length of the piece at the front. */
  function PieceLength(s: string): (n: nat)
    requires s != ""
    ensures 1 <= n <= |s|
  {
    if Front(s).Construct? then Front(s).length else 1
  }

  function FrontPiece(s: string): Piece
    requires s != ""
  {
    if Front(s).Construct? then Blanked(s[..Front(s).length]) else Kept(s[0])
  }

  /** The pieces that the scanner reads an accepted text as. */
  function Pieces(s: string): seq<Piece>
    requires Erased(s).Ok?
    decreases |s|
  {
    if s == "" then [] else [FrontPiece(s)] + Pieces(s[PieceLength(s)..])
  }

  lemma FirstPiece(s: string)
    requires s != "" && Erased(s).Ok?
    ensures var n := PieceLength(s);
            && Erased(s[n..]).Ok?
            && Erased(s).value == [Shown(FrontPiece(s))] + Erased(s[n..]).value
            && s[..n] == (if FrontPiece(s).Kept? then [FrontPiece(s).c] else FrontPiece(s).construct)
            && (FrontPiece(s).Blanked? ==> IsConstruct(s[..n]))
  {
    if Front(s).Plain? {
      KeepFront(s);
    } else {
      FrontIsConstruct(s);
      BlankFront(s, Front(s).length, s[Front(s).length..]);
    }
  }

  lemma SplitAt(s: string, n: nat)
    requires n <= |s|
    ensures s == s[..n] + s[n..]
  {
  }

  /**
   Every input the scanner accepts splits into characters it keeps, in order, and complete comments
   and literals, each of which becomes one space.
   */
  lemma {:induction false} EveryCharacterAccounted(s: string)
    requires Erased(s).Ok?
    ensures Accounts(Pieces(s), s, Erased(s).value)
    decreases |s|
  {
    if s != "" {
      var n := PieceLength(s);
      FirstPiece(s);
      EveryCharacterAccounted(s[n..]);
      AccountForOne(FrontPiece(s), Pieces(s[n..]), s[..n], s[n..], Erased(s[n..]).value);
      SplitAt(s, n);
    }
  }

  lemma {:induction false} ConstructsAreLonger(pieces: seq<Piece>)
    requires forall i :: 0 <= i < |pieces| && pieces[i].Blanked? ==> IsConstruct(pieces[i].construct)
    ensures |Output(pieces)| <= |Input(pieces)|
  {
    if pieces != [] {
      ConstructsAreLonger(pieces[1..]);
    }
  }

  lemma OutputIsNoLonger(s: string)
    requires Erased(s).Ok?
    ensures |Erased(s).value| <= |s|
  {
    EveryCharacterAccounted(s);
    ConstructsAreLonger(Pieces(s));
  }
}
