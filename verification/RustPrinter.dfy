/**
 A printer for Rust source text made of code, comments and literals, and the
 proof that the scanner of `RustEraser` takes it apart again.
 */
module RustPrinter {
  import opened Wrappers
  import opened RustEraser

  /** The inside of a block comment: characters and nested comments. */
  datatype Comment = Done | Char(c: char, rest: Comment) | Nested(inner: Comment, rest: Comment)

  /** One character of a string or a character literal; a long escape has digits after its letter. */
  datatype Unit = Direct(c: char) | Escaped(c: char) | Long(letter: char, digits: string)

  datatype Segment =
    | Code(text: string)
    | Line(body: string)
    | Block(comment: Comment)
    | Quoted(letter: string, units: seq<Unit>)
    | Character(byte: bool, one: Unit)
    | Raw(letters: string, hashes: nat, content: string)

  // ------------------------------------------------------------ printing

  function PrintComment(comment: Comment): string {
    match comment
    case Done => ""
    case Char(c, rest) => [c] + PrintComment(rest)
    case Nested(inner, rest) => "/*" + PrintComment(inner) + "*/" + PrintComment(rest)
  }

  function PrintUnit(unit: Unit): string {
    match unit
    case Direct(c) => [c]
    case Escaped(c) => ['\\', c]
    case Long(letter, digits) => ['\\', letter] + digits
  }

  function PrintUnits(units: seq<Unit>): string {
    if units == [] then "" else PrintUnit(units[0]) + PrintUnits(units[1..])
  }

  function Print(segment: Segment): string {
    match segment
    case Code(text) => text
    case Line(body) => "//" + body
    case Block(comment) => "/*" + PrintComment(comment) + "*/"
    case Quoted(letter, units) => letter + "\"" + PrintUnits(units) + "\""
    case Character(byte, one) => (if byte then "b" else "") + "'" + PrintUnit(one) + "'"
    case Raw(letters, hashes, content) => letters + Hashes(hashes) + "\"" + content + "\"" + Hashes(hashes)
  }

  function PrintAll(segments: seq<Segment>): string {
    if segments == [] then "" else Print(segments[0]) + PrintAll(segments[1..])
  }

  /** Code, and a character literal with a long escape, which the scanner takes for code. */
  predicate KeptWhole(segment: Segment) {
    segment.Code? || (segment.Character? && segment.one.Long?)
  }

  /** What is left of the text: what is kept whole, and a space for each other segment. */
  function CodeOf(segments: seq<Segment>): string {
    if segments == [] then ""
    else (if KeptWhole(segments[0]) then Print(segments[0]) else " ") + CodeOf(segments[1..])
  }

  // ---------------------------------------------------------- well-formed

  /** No character opens or closes a comment together with the next one, which may be the closing star. */
  predicate PlainComment(comment: Comment) {
    match comment
    case Done => true
    case Char(c, rest) =>
      var next := (PrintComment(rest) + "*/")[0];
      !(c == '/' && next == '*') && !(c == '*' && next == '/') && PlainComment(rest)
    case Nested(inner, rest) => PlainComment(inner) && PlainComment(rest)
  }

  /** Nothing in the code opens a comment or a string. An apostrophe may stand in it, as in a lifetime. */
  predicate PlainCode(text: string) {
    '"' !in text && NoCommentOpener(text)
  }

  /** A last character that may open a comment, a string or a byte literal together with what follows. */
  predicate Joins(last: char, rest: string) {
    && rest != ""
    && match last
       case '/' => rest[0] in "/*"
       case 'b' => rest[0] in "\"'r"
       case 'c' => rest[0] in "\"r"
       case 'r' => rest[0] in "\"#"
       case '#' => rest[0] in "\"#"
       case _ => false
  }

  /** The end of the text does not join what follows it, and none of its apostrophes opens a character literal. */
  predicate StandsBefore(text: string, rest: string) {
    && (text != "" ==> !Joins(text[|text| - 1], rest))
    && forall i :: 0 <= i < |text| && text[i] == '\'' ==> CharBodyLength((text + rest)[i + 1..]).None?
  }

  predicate Occurs(s: string, pattern: string) {
    exists i :: 0 <= i <= |s| && StartsWith(s[i..], pattern)
  }

  predicate IsDigit(c: char) {
    '0' <= c <= '9' || 'a' <= c <= 'f' || 'A' <= c <= 'F' || c == '{' || c == '}' || c == '_'
  }

  /** The digits of a long escape, with the braces and underscores of a code point. */
  predicate Digits(s: string) {
    forall d <- s :: IsDigit(d)
  }

  predicate WellFormedUnit(unit: Unit, quote: char) {
    match unit
    case Direct(c) => c != quote && c != '\\'
    case Escaped(_) => true
    case Long(letter, digits) => letter in "xu" && digits != "" && Digits(digits)
  }

  predicate WellFormedSegment(segment: Segment) {
    match segment
    case Code(text) => PlainCode(text)
    case Line(body) => '\n' !in body
    case Block(comment) => PlainComment(comment)
    case Quoted(letter, units) =>
      letter in ["", "b", "c"] && forall unit <- units :: WellFormedUnit(unit, '"')
    case Character(_, one) => WellFormedUnit(one, '\'')
    case Raw(letters, hashes, content) => letters in ["r", "br", "cr"] && !Occurs(content, "\"" + Hashes(hashes))
  }

  /**
   Each segment is well formed, a line comment ends the text or is followed by a newline, and what is
   kept whole does not join what follows it.
   */
  predicate WellFormed(segments: seq<Segment>) {
    segments != [] ==>
      && WellFormedSegment(segments[0])
      && (segments[0].Line? && |segments| > 1 ==>
            segments[1].Code? && segments[1].text != "" && segments[1].text[0] == '\n')
      && (KeptWhole(segments[0]) ==> StandsBefore(Print(segments[0]), PrintAll(segments[1..])))
      && WellFormed(segments[1..])
  }

  // -------------------------------------------------------------- proofs

  lemma CloserScanned(tail: string, depth: nat)
    ensures CommentLength("*/" + tail, depth + 1) == Shift(2, CommentLength(tail, depth))
  {
    assert ("*/" + tail)[2..] == tail;
  }

  lemma OpenerScanned(tail: string, depth: nat)
    requires depth > 0
    ensures CommentLength("/*" + tail, depth) == Shift(2, CommentLength(tail, depth + 1))
  {
    assert ("/*" + tail)[2..] == tail;
  }

  lemma NestedScanned(inner: string, more: string, rest: string, depth: nat)
    requires depth > 0
    requires CommentLength(inner + ("*/" + (more + rest)), depth + 1)
          == Shift(|inner|, CommentLength("*/" + (more + rest), depth + 1))
    requires CommentLength(more + rest, depth) == Shift(|more|, CommentLength(rest, depth))
    ensures CommentLength("/*" + inner + "*/" + more + rest, depth)
         == Shift(|inner| + |more| + 4, CommentLength(rest, depth))
  {
    assert "/*" + inner + "*/" + more + rest == "/*" + (inner + ("*/" + (more + rest)));
    OpenerScanned(inner + ("*/" + (more + rest)), depth);
    CloserScanned(more + rest, depth);
  }

  lemma PlainScanned(s: string, tail: string, depth: nat)
    requires s != "" && !Pair(s, '/', '*') && !Pair(s, '*', '/') && s[1..] == tail && depth > 0
    ensures CommentLength(s, depth) == Shift(1, CommentLength(tail, depth))
  {
  }

  /** What follows a comment's inside closes it. */
  predicate Closes(rest: string) {
    Pair(rest, '*', '/')
  }

  lemma CharOpensNothing(s: string, c: char, more: string, rest: string)
    requires s == [c] + more + rest && Closes(rest)
    requires var next := (more + "*/")[0]; !(c == '/' && next == '*') && !(c == '*' && next == '/')
    ensures s != "" && !Pair(s, '/', '*') && !Pair(s, '*', '/') && s[1..] == more + rest
  {
    assert s[1] == (more + "*/")[0];
  }

  lemma CharScanned(s: string, c: char, more: string, rest: string, depth: nat, end: Option<nat>)
    requires s == [c] + more + rest && Closes(rest) && depth > 0
    requires var next := (more + "*/")[0]; !(c == '/' && next == '*') && !(c == '*' && next == '/')
    requires CommentLength(more + rest, depth) == Shift(|more|, end)
    ensures CommentLength(s, depth) == Shift(|more| + 1, end)
  {
    CharOpensNothing(s, c, more, rest);
    PlainScanned(s, more + rest, depth);
  }

  lemma {:induction false} CommentScanned(comment: Comment, rest: string, depth: nat)
    requires PlainComment(comment) && depth > 0 && Closes(rest)
    ensures CommentLength(PrintComment(comment) + rest, depth)
         == Shift(|PrintComment(comment)|, CommentLength(rest, depth))
    decreases comment
  {
    match comment
    case Done =>
      assert "" + rest == rest;
    case Char(c, more) =>
      CommentScanned(more, rest, depth);
      CharScanned(PrintComment(comment) + rest, c, PrintComment(more), rest, depth, CommentLength(rest, depth));
    case Nested(inner, more) =>
      CommentScanned(inner, "*/" + (PrintComment(more) + rest), depth + 1);
      CommentScanned(more, rest, depth);
      NestedScanned(PrintComment(inner), PrintComment(more), rest, depth);
  }

  lemma BlockScanned(comment: Comment, rest: string)
    requires PlainComment(comment)
    ensures var text := Print(Block(comment)); Front(text + rest) == Construct(|text|)
  {
    CommentScanned(comment, "*/" + rest, 1);
    BlockTextScanned(Print(Block(comment)) + rest, PrintComment(comment), rest);
  }

  lemma BlockTextScanned(text: string, inner: string, rest: string)
    requires text == "/*" + inner + "*/" + rest
    requires CommentLength(inner + ("*/" + rest), 1) == Shift(|inner|, CommentLength("*/" + rest, 1))
    ensures Front(text) == Construct(|inner| + 4)
  {
    BlockBodyScanned(text, inner + ("*/" + rest), inner, rest);
    BlockAtFront(text, |inner| + 2);
  }

  lemma BlockBodyScanned(text: string, body: string, inner: string, rest: string)
    requires text == "/*" + inner + "*/" + rest && body == inner + ("*/" + rest)
    requires CommentLength(body, 1) == Shift(|inner|, CommentLength("*/" + rest, 1))
    ensures text[2..] == body && CommentLength(body, 1) == Some(|inner| + 2)
  {
    LastCloserScanned(rest);
  }

  lemma LastCloserScanned(rest: string)
    ensures CommentLength("*/" + rest, 1) == Some(2)
  {
    CloserScanned(rest, 0);
  }

  lemma BlockAtFront(s: string, n: nat)
    requires Pair(s, '/', '*') && CommentLength(s[2..], 1) == Some(n)
    ensures Front(s) == Construct(2 + n)
  {
  }

  lemma {:induction false} LineScanned(line: string, rest: string)
    requires '\n' !in line && (rest == "" || rest[0] == '\n')
    ensures LineLength(line + rest) == |line|
  {
    if line == "" {
      assert line + rest == rest;
    } else {
      assert (line + rest)[1..] == line[1..] + rest;
      LineScanned(line[1..], rest);
    }
  }

  lemma {:induction false} QuotedSkips(plain: string, rest: string)
    requires '"' !in plain && '\\' !in plain
    ensures QuotedLength(plain + rest) == Shift(|plain|, QuotedLength(rest))
  {
    if plain == "" {
      assert plain + rest == rest;
    } else {
      assert (plain + rest)[1..] == plain[1..] + rest;
      QuotedSkips(plain[1..], rest);
    }
  }

  lemma DigitsArePlain(digits: string)
    requires Digits(digits)
    ensures '"' !in digits && '\\' !in digits && '/' !in digits && '\'' !in digits
  {
  }

  lemma EscapeSkipped(s: string, digits: string, rest: string)
    requires |s| >= 2 && s[0] == '\\' && s[2..] == digits + rest
    requires '"' !in digits && '\\' !in digits
    ensures QuotedLength(s) == Shift(|digits| + 2, QuotedLength(rest))
  {
    QuotedSkips(digits, rest);
  }

  lemma UnitScanned(unit: Unit, rest: string)
    requires WellFormedUnit(unit, '"')
    ensures QuotedLength(PrintUnit(unit) + rest) == Shift(|PrintUnit(unit)|, QuotedLength(rest))
  {
    match unit
    case Direct(c) => QuotedSkips([c], rest);
    case Escaped(c) => EscapeSkipped(['\\', c] + rest, "", rest);
    case Long(letter, digits) =>
      DigitsArePlain(digits);
      EscapeSkipped(['\\', letter] + digits + rest, digits, rest);
  }

  lemma {:induction false} UnitsScanned(units: seq<Unit>, rest: string)
    requires forall unit <- units :: WellFormedUnit(unit, '"')
    ensures QuotedLength(PrintUnits(units) + "\"" + rest) == Some(|PrintUnits(units)| + 1)
  {
    var text := PrintUnits(units) + "\"" + rest;
    if units == [] {
      assert text[0] == '"';
    } else {
      UnitsScanned(units[1..], rest);
      assert units[0] in units;
      var more := PrintUnits(units[1..]) + "\"" + rest;
      UnitScanned(units[0], more);
      assert text == PrintUnit(units[0]) + more;
    }
  }

  lemma QuotedScanned(letter: string, units: seq<Unit>, rest: string)
    requires WellFormedSegment(Quoted(letter, units))
    ensures var text := Print(Quoted(letter, units)); Front(text + rest) == Construct(|text|)
  {
    var text := Print(Quoted(letter, units)) + rest;
    assert text[|letter| + 1..] == PrintUnits(units) + "\"" + rest;
    UnitsScanned(units, rest);
    assert letter == "b" || letter == "c" ==> text[0] == letter[0] && text[1] == '"';
    assert letter == "" ==> text[0] == '"';
    StringAtFront(text, |letter| + |PrintUnits(units)| + 2);
  }

  lemma StringAtFront(s: string, n: nat)
    requires s != "" && StringLength(s) == Some(n)
    ensures Front(s) == Construct(n)
  {
    assert RawOpening(s) == 0;
  }

  lemma CharacterLength(byte: bool, one: Unit, rest: string)
    requires WellFormedSegment(Character(byte, one))
    ensures var text := Print(Character(byte, one));
            && (Single(text + rest, '\'') || Pair(text + rest, 'b', '\''))
            && CharLength(text + rest) == if one.Long? then None else Some(|text|)
  {
    var text := Print(Character(byte, one)) + rest;
    var quote := if byte then 2 else 1;
    assert text[quote..] == PrintUnit(one) + ("'" + rest);
    UnitBody(one, rest);
    QuotedBody(text, quote);
  }

  lemma QuotedBody(s: string, quote: nat)
    requires (quote == 1 && Single(s, '\'')) || (quote == 2 && Pair(s, 'b', '\''))
    ensures CharLength(s) == Shift(quote, CharBodyLength(s[quote..]))
  {
  }

  lemma UnitBody(one: Unit, rest: string)
    requires WellFormedUnit(one, '\'')
    ensures CharBodyLength(PrintUnit(one) + ("'" + rest))
         == if one.Long? then None else Some(|PrintUnit(one)| + 1)
  {
    var s := PrintUnit(one) + ("'" + rest);
    match one
    case Direct(c) => assert s[0] == c && s[1] == '\'';
    case Escaped(c) => assert s[0] == '\\' && s[1] == c && s[2] == '\'';
    case Long(_, _) => LongBody(one, "'" + rest);
  }

  /** A character literal is one construct exactly when its escape, if any, is one character long. */
  lemma CharacterScanned(byte: bool, one: Unit, rest: string)
    requires WellFormedSegment(Character(byte, one))
    ensures var text := Print(Character(byte, one));
            && (Front(text + rest) == Construct(|text|) <==> !one.Long?)
            && (Front(text + rest).Plain? <==> one.Long?)
  {
    var text := Print(Character(byte, one));
    CharacterLength(byte, one, rest);
    CharacterFront(text + rest, |text|, one.Long?);
  }

  lemma CharacterFront(s: string, n: nat, long: bool)
    requires Single(s, '\'') || Pair(s, 'b', '\'')
    requires CharLength(s) == if long then None else Some(n)
    ensures Front(s) == if long then Plain else Construct(n)
  {
    if long {
      QuoteIsPlain(s);
    } else {
      CharacterAtFront(s, n);
    }
  }

  lemma LongBody(one: Unit, rest: string)
    requires one.Long? && WellFormedUnit(one, '\'')
    ensures CharBodyLength(PrintUnit(one) + rest).None?
  {
    assert one.digits[0] in one.digits;
    assert (PrintUnit(one) + rest)[2] == one.digits[0];
  }

  lemma QuoteIsPlain(s: string)
    requires Single(s, '\'') || Pair(s, 'b', '\'')
    requires CharLength(s).None?
    ensures Front(s).Plain?
  {
    assert RawOpening(s) == 0 && StringLength(s).None?;
  }

  lemma CharacterAtFront(s: string, n: nat)
    requires s != "" && CharLength(s) == Some(n)
    ensures Front(s) == Construct(n)
  {
    assert RawOpening(s) == 0 && StringLength(s).None?;
  }

  lemma {:induction false} HashesScanned(n: nat, rest: string)
    requires rest != "" && rest[0] != '#'
    ensures LeadingHashes(Hashes(n) + rest) == n
  {
    if n == 0 {
      assert Hashes(0) + rest == rest;
    } else {
      assert (Hashes(n) + rest)[1..] == Hashes(n - 1) + rest;
      HashesScanned(n - 1, rest);
    }
  }

  lemma NoEarlyClosing(content: string, closing: string, rest: string)
    requires content != "" && closing != "" && closing[0] == '"' && forall i :: 0 < i < |closing| ==> closing[i] == '#'
    requires !Occurs(content, closing)
    ensures !StartsWith(content + closing + rest, closing)
  {
    var text := content + closing + rest;
    if |closing| <= |content| {
      assert content[0..] == content && text[..|closing|] == content[..|closing|];
    } else {
      // The content's own quote stands where a closing at the front would have a hash.
      assert text[|content|] == '"';
    }
  }

  lemma {:induction false} ClosingFound(content: string, closing: string, rest: string)
    requires closing != "" && closing[0] == '"' && forall i :: 0 < i < |closing| ==> closing[i] == '#'
    requires !Occurs(content, closing)
    ensures Find(content + closing + rest, closing) == Some(|content|)
  {
    var text := content + closing + rest;
    if content == "" {
      assert text[..|closing|] == closing;
    } else {
      NoEarlyClosing(content, closing, rest);
      assert text[1..] == content[1..] + closing + rest;
      forall i | 0 <= i <= |content[1..]| ensures !StartsWith(content[1..][i..], closing) {
        assert content[1..][i..] == content[i + 1..];
      }
      ClosingFound(content[1..], closing, rest);
    }
  }

  lemma RawOpeningScanned(text: string, letters: string, hashes: nat, after: string)
    requires letters in ["r", "br", "cr"] && text == letters + Hashes(hashes) + "\"" + after
    ensures RawLetters(text) == |letters| && RawOpening(text) == |letters| + hashes + 1
    ensures RawClosing(RawOpening(text), RawLetters(text)) == "\"" + Hashes(hashes)
    ensures text[RawOpening(text)..] == after
  {
    assert text[0] == letters[0] && (|letters| == 2 ==> text[1] == letters[1]);
    assert text[|letters|..] == Hashes(hashes) + ("\"" + after);
    HashesScanned(hashes, "\"" + after);
  }

  lemma RawLengthScanned(text: string, closing: string, content: string, rest: string)
    requires RawOpening(text) > 0 && RawClosing(RawOpening(text), RawLetters(text)) == closing
    requires text[RawOpening(text)..] == content + closing + rest
    requires Find(content + closing + rest, closing) == Some(|content|)
    ensures RawLength(text) == Some(RawOpening(text) + |content| + |closing|)
  {
  }

  lemma RawFront(text: string, letters: string, hashes: nat, content: string, closing: string, rest: string)
    requires letters in ["r", "br", "cr"] && closing == "\"" + Hashes(hashes)
    requires text == letters + Hashes(hashes) + "\"" + (content + closing + rest)
    requires Find(content + closing + rest, closing) == Some(|content|)
    ensures Front(text) == Construct(|letters| + |content| + 2 * hashes + 2)
  {
    RawOpeningScanned(text, letters, hashes, content + closing + rest);
    RawLengthScanned(text, closing, content, rest);
    RawAtFront(text, |letters| + |content| + 2 * hashes + 2);
  }

  lemma RawScanned(letters: string, hashes: nat, content: string, rest: string)
    requires WellFormedSegment(Raw(letters, hashes, content))
    ensures var text := Print(Raw(letters, hashes, content)); Front(text + rest) == Construct(|text|)
  {
    var text := Print(Raw(letters, hashes, content));
    RawLayout(letters, hashes, content, rest);
    ClosingFound(content, "\"" + Hashes(hashes), rest);
    RawFront(text + rest, letters, hashes, content, "\"" + Hashes(hashes), rest);
  }

  lemma RawAtFront(s: string, n: nat)
    requires s != "" && RawLength(s) == Some(n)
    ensures Front(s) == Construct(n)
  {
    assert s[0] in "bcr";
  }

  lemma RawLayout(letters: string, hashes: nat, content: string, rest: string)
    ensures Print(Raw(letters, hashes, content)) + rest
         == letters + Hashes(hashes) + "\"" + (content + ("\"" + Hashes(hashes)) + rest)
  {
  }

  /** No literal's letters at the end of code reach into what follows. */
  lemma CodeStartsNothing(text: string, rest: string)
    requires PlainCode(text) && text != "" && StandsBefore(text, rest)
    ensures Front(text + rest).Plain?
  {
    var s := text + rest;
    CodeOpensNoComment(text, rest);
    CodeOpensNoRaw(text, rest);
    CodeOpensNoLiteral(text, rest);
    PlainWhen(s);
  }

  lemma CodeOpensNoComment(text: string, rest: string)
    requires NoCommentOpener(text) && text != "" && !Joins(text[|text| - 1], rest)
    ensures !Pair(text + rest, '/', '/') && !Pair(text + rest, '/', '*')
  {
    var s := text + rest;
    assert s[0] == text[0] && (|text| > 1 ==> s[1] == text[1]);
    assert |text| == 1 && rest != "" ==> s[1] == rest[0];
  }

  lemma CodeOpensNoRaw(text: string, rest: string)
    requires '"' !in text && text != "" && !Joins(text[|text| - 1], rest)
    ensures RawOpening(text + rest) == 0
  {
    var s := text + rest;
    var n := RawOpening(s);
    if n > 0 {
      assert forall i :: 0 <= i < |text| ==> s[i] == text[i];
      var last := |text| - 1;
      assert n > |text| && s[last] == text[last] && s[last + 1] == rest[0];
      RawLettersFirst(s, last);
    }
  }

  /** Inside a raw string's opening, `b` and `c` stand first, and only `r`, a hash or the quote follow. */
  lemma RawLettersFirst(s: string, i: nat)
    requires i + 1 < RawOpening(s)
    ensures if s[i] in "bc" then s[i + 1] == 'r' else s[i] in "r#" && s[i + 1] in "\"#"
  {
    var letters := RawLetters(s);
    assert forall k :: letters <= k < RawOpening(s) - 1 ==> s[letters..][k - letters] == '#' && s[k] == '#';
  }

  lemma CodeOpensNoLiteral(text: string, rest: string)
    requires '"' !in text && text != "" && StandsBefore(text, rest)
    ensures StringLength(text + rest).None? && CharLength(text + rest).None?
  {
    var s := text + rest;
    assert s[0] == text[0] && text[0] in text;
    if |text| > 1 {
      assert s[1] == text[1] && text[1] in text;
    } else {
      assert text[|text| - 1] == text[0] && (rest != "" ==> s[1] == rest[0]);
    }
  }

  lemma CodeBehind(text: string, rest: string)
    requires text != "" && PlainCode(text) && StandsBefore(text, rest)
    ensures PlainCode(text[1..]) && StandsBefore(text[1..], rest)
  {
    var s := text + rest;
    assert s[1..] == text[1..] + rest;
    assert forall c <- text[1..] :: c in text;
    forall i | 0 <= i < |text| - 1 && text[1..][i] == '\'' ensures CharBodyLength(s[1..][i + 1..]).None? {
      DropDrop(s, 1, i + 1);
      assert text[i + 1] == '\'';
    }
  }

  lemma KeptOne(s: string, text: string, more: string, tail: string, rest: Erasure)
    requires s != "" && Front(s).Plain? && s[1..] == tail && text == [s[0]] + more
    requires Erased(tail) == Prepend(more, rest)
    ensures Erased(s) == Prepend(text, rest)
  {
    KeepFront(s);
    PrependTwice([s[0]], more, rest);
  }

  lemma BehindFirst(text: string, rest: string)
    requires text != ""
    ensures text + rest != "" && (text + rest)[1..] == text[1..] + rest
    ensures text == [(text + rest)[0]] + text[1..]
  {
  }

  lemma {:induction false} CodeScanned(text: string, rest: string)
    requires PlainCode(text) && StandsBefore(text, rest)
    ensures Erased(text + rest) == Prepend(text, Erased(rest))
  {
    if text == "" {
      assert text + rest == rest;
      assert Erased(rest).Ok? ==> "" + Erased(rest).value == Erased(rest).value;
    } else {
      CodeStartsNothing(text, rest);
      CodeBehind(text, rest);
      CodeScanned(text[1..], rest);
      BehindFirst(text, rest);
      KeptOne(text + rest, text, text[1..], text[1..] + rest, Erased(rest));
    }
  }

  lemma LongIsCode(byte: bool, one: Unit)
    requires one.Long? && WellFormedUnit(one, '\'')
    ensures PlainCode(Print(Character(byte, one)))
  {
    DigitsArePlain(one.digits);
    NothingOpens((if byte then "b" else "") + "'", ['\\', one.letter] + one.digits, "'");
  }

  lemma NothingOpens(a: string, b: string, c: string)
    requires '"' !in a && '"' !in b && '"' !in c && '/' !in a && '/' !in b && '/' !in c
    ensures PlainCode(a + b + c)
  {
    assert forall x <- a + b + c :: x in a || x in b || x in c;
    assert forall i :: 0 <= i < |a + b + c| ==> (a + b + c)[i] in a + b + c;
  }

  lemma SegmentScanned(segment: Segment, rest: string)
    requires WellFormedSegment(segment) && !KeptWhole(segment)
    requires segment.Line? ==> rest == "" || rest[0] == '\n'
    ensures Erased(Print(segment) + rest) == Prepend(" ", Erased(rest))
  {
    var text := Print(segment);
    match segment {
      case Line(body) =>
        LineScanned(text, rest);
        assert (text + rest)[0] == text[0] && (text + rest)[1] == text[1];
      case Block(comment) => BlockScanned(comment, rest);
      case Quoted(letter, units) => QuotedScanned(letter, units, rest);
      case Character(byte, one) => CharacterScanned(byte, one, rest);
      case Raw(letters, hashes, content) => RawScanned(letters, hashes, content, rest);
    }
    BlankFront(text + rest, |text|, rest);
  }

  /**
   The scanner takes a printed text apart again: what is kept whole in order, and one space for each
   other segment.
   */
  lemma {:induction false} PrintedTextErases(segments: seq<Segment>)
    requires WellFormed(segments)
    ensures Erased(PrintAll(segments)) == Ok(CodeOf(segments))
  {
    if segments != [] {
      var rest := PrintAll(segments[1..]);
      PrintedTextErases(segments[1..]);
      if KeptWhole(segments[0]) {
        if segments[0].Character? {
          LongIsCode(segments[0].byte, segments[0].one);
        }
        CodeScanned(Print(segments[0]), rest);
      } else {
        assert segments[0].Line? && |segments| > 1 ==> rest != "" && rest[0] == '\n';
        SegmentScanned(segments[0], rest);
      }
    }
  }
}
