/**
 A second pass of the scanner over its own output: which literals the first pass
 can make, and exactly when the second pass changes nothing.

 Characters kept side by side stood side by side in the input, so an output can
 begin a comment, a string or a raw string only where the input did. A character
 literal is different: its two quotes may close around a construct's space.
 */
module RustSecondPass {
  import opened Wrappers
  import opened RustEraser

  // ---------------------------------------------------------- fixed points

  /** Nothing in the text reads as a comment or a literal, closed or not. */
  predicate AllPlain(s: string) {
    forall i :: 0 <= i < |s| ==> Front(s[i..]).Plain?
  }

  /** Erasing leaves a text alone exactly when nothing in it reads as a comment or a literal. */
  lemma {:induction false} UnchangedExactly(s: string)
    ensures Erased(s) == Ok(s) <==> AllPlain(s)
  {
    if s == "" {
      assert AllPlain(s);
    } else {
      assert s[0..] == s;
      if Front(s).Plain? {
        UnchangedExactly(s[1..]);
        KeepFront(s);
        PlainBehind(s);
      } else if Erased(s).Ok? {
        var n := Front(s).length;
        BlankFront(s, n, s[n..]);
        OutputIsNoLonger(s[n..]);
        assert |Erased(s).value| < |s|;
      }
    }
  }

  lemma PlainBehind(s: string)
    requires s != "" && Front(s).Plain?
    ensures AllPlain(s) <==> AllPlain(s[1..])
    ensures Prepend([s[0]], Erased(s[1..])) == Ok(s) <==> Erased(s[1..]) == Ok(s[1..])
  {
    if AllPlain(s) {
      forall i | 0 <= i < |s| - 1 ensures Front(s[1..][i..]).Plain? {
        DropDrop(s, 1, i);
      }
    }
    if AllPlain(s[1..]) {
      forall i | 0 <= i < |s| ensures Front(s[i..]).Plain? {
        if i == 0 {
          assert s[0..] == s;
        } else {
          DropDrop(s, 1, i - 1);
          assert Front(s[1..][i - 1..]).Plain?;
        }
      }
    }
    if Prepend([s[0]], Erased(s[1..])) == Ok(s) {
      var rest := Erased(s[1..]).value;
      assert rest == ([s[0]] + rest)[1..];
    }
    assert s == [s[0]] + s[1..];
  }

  // ------------------------------------------------- what the first pass keeps

  lemma NextPiece(s: string)
    requires Erased(s).Ok? && (Pieces(s) != [] || Erased(s).value != "")
    ensures s != "" && Erased(s[PieceLength(s)..]).Ok?
    ensures Pieces(s) == [FrontPiece(s)] + Pieces(s[PieceLength(s)..])
    ensures Erased(s).value == [Shown(FrontPiece(s))] + Erased(s[PieceLength(s)..]).value
    ensures FrontPiece(s).Kept? ==> Front(s).Plain?
  {
    FirstPiece(s);
  }

  lemma NextKept(s: string)
    requires Erased(s).Ok? && Erased(s).value != "" && Erased(s).value[0] != ' '
    ensures s != "" && Erased(s[1..]).Ok? && Erased(s).value == [s[0]] + Erased(s[1..]).value
  {
    NextPiece(s);
  }

  lemma TakeBehindFirst(s: string, t: string, rest: string, n: nat)
    requires s != "" && t == [s[0]] + rest && 0 < n <= |t|
    requires n - 1 <= |s[1..]| && s[1..][..n - 1] == rest[..n - 1]
    ensures n <= |s| && s[..n] == t[..n]
  {
    assert s == [s[0]] + s[1..];
  }

  /** Output that is no space was kept, so it stands in the input as it stands in the output. */
  lemma {:induction false} KeptPrefix(s: string, n: nat)
    requires Erased(s).Ok? && n <= |Erased(s).value|
    requires forall i :: 0 <= i < n ==> Erased(s).value[i] != ' '
    ensures n <= |s| && s[..n] == Erased(s).value[..n]
    decreases n
  {
    if n > 0 {
      NextKept(s);
      var output, rest := Erased(s).value, Erased(s[1..]).value;
      assert forall i :: 0 <= i < n - 1 ==> rest[i] == output[i + 1];
      KeptPrefix(s[1..], n - 1);
      TakeBehindFirst(s, output, rest, n);
    }
  }

  lemma {:induction false} CommentEndsInSlash(s: string, depth: nat)
    requires depth > 0 && CommentLength(s, depth).Some?
    ensures var n := CommentLength(s, depth).value; n > 0 && s[n - 1] == '/'
    decreases |s|
  {
    if Pair(s, '/', '*') {
      CommentEndsInSlash(s[2..], depth + 1);
    } else if Pair(s, '*', '/') {
      if depth > 1 {
        CommentEndsInSlash(s[2..], depth - 1);
      }
    } else {
      CommentEndsInSlash(s[1..], depth);
    }
  }

  lemma {:induction false} QuotedEndsInQuote(s: string)
    requires QuotedLength(s).Some?
    ensures s[QuotedLength(s).value - 1] == '"'
    decreases |s|
  {
    if s[0] != '"' {
      QuotedEndsInQuote(s[if s[0] == '\\' then 2 else 1..]);
    }
  }

  lemma {:induction false} FoundThere(s: string, pattern: string)
    requires Find(s, pattern).Some?
    ensures var at := Find(s, pattern).value; s[at..at + |pattern|] == pattern
    decreases |s|
  {
    if StartsWith(s, pattern) {
      assert s[0..|pattern|] == pattern;
    } else {
      FoundThere(s[1..], pattern);
    }
  }

  lemma LastFound(s: string, pattern: string)
    requires Find(s, pattern).Some? && pattern != ""
    ensures s[Find(s, pattern).value + |pattern| - 1] == pattern[|pattern| - 1]
  {
    FoundThere(s, pattern);
    var at := Find(s, pattern).value;
    assert s[at + |pattern| - 1] == s[at..at + |pattern|][|pattern| - 1];
  }

  lemma RawEndsClean(s: string)
    requires RawLength(s).Some?
    ensures s[RawLength(s).value - 1] != '\\'
  {
    var opening := RawOpening(s);
    var closing := RawClosing(opening, RawLetters(s));
    LastFound(s[opening..], closing);
    assert closing[|closing| - 1] == '"' || closing[|closing| - 1] == '#';
  }

  /** A construct ends in a backslash only as a line comment, before a newline or the end. */
  lemma ConstructEndsClean(s: string)
    requires s != "" && Front(s).Construct?
    ensures var n := Front(s).length; s[n - 1] != '\\' || n == |s| || s[n] == '\n'
  {
    if Pair(s, '/', '/') {
    } else if Pair(s, '/', '*') {
      CommentEndsInSlash(s[2..], 1);
    } else if RawOpening(s) > 0 {
      RawEndsClean(s);
    } else if StringLength(s).Some? {
      QuotedEndsInQuote(s[if Single(s, '"') then 1 else 2..]);
    }
  }

  // -------------------------------------------------- no string newly appears

  /** An unclosed string stays unclosed from any later place on, or from the next if a backslash escapes that one. */
  lemma {:induction false} UnclosedFrom(s: string, n: nat)
    requires QuotedLength(s).None? && n <= |s|
    ensures || QuotedLength(s[n..]).None?
            || (n > 0 && s[n - 1] == '\\' && n < |s| && QuotedLength(s[n + 1..]).None?)
    decreases |s|
  {
    if n == 0 {
      assert s[0..] == s;
    } else if s[0] != '\\' {
      UnclosedFrom(s[1..], n - 1);
      DropDrop(s, 1, n - 1);
      if n < |s| {
        DropDrop(s, 1, n);
      }
    } else if n > 1 {
      UnclosedFrom(s[2..], n - 2);
      DropDrop(s, 2, n - 2);
      if n < |s| {
        DropDrop(s, 2, n - 1);
      }
    }
  }

  lemma UnclosedPast(s: string, n: nat)
    requires QuotedLength(s).None? && n <= |s|
    requires n == 0 || s[n - 1] != '\\' || n == |s| || s[n] == '\n'
    ensures QuotedLength(s[n..]).None?
  {
    UnclosedFrom(s, n);
    if n < |s| && s[n] == '\n' {
      DropDrop(s, n, 1);
      StepsOver(s[n..]);
    }
  }

  lemma StepsOver(s: string)
    requires s != "" && s[0] != '"' && s[0] != '\\'
    ensures QuotedLength(s).None? <==> QuotedLength(s[1..]).None?
  {
  }

  /** Blanking a construct inside an unclosed string leaves it unclosed, even one whose first character is escaped. */
  lemma UnclosedAfter(s: string, n: nat)
    requires 2 <= n <= |s| && (s[n - 1] != '\\' || n == |s| || s[n] == '\n')
    requires QuotedLength(s).None? || QuotedLength(s[1..]).None?
    ensures QuotedLength(s[n..]).None?
  {
    if QuotedLength(s).None? {
      UnclosedPast(s, n);
    } else {
      DropDrop(s, 1, n - 1);
      UnclosedPast(s[1..], n - 1);
    }
  }

  lemma QuotedStep(c: char, rest: string)
    requires c != '"' && c != '\\'
    ensures QuotedLength([c] + rest) == Shift(1, QuotedLength(rest))
  {
    assert ([c] + rest)[1..] == rest;
  }

  lemma QuotedEscape(c: char, rest: string)
    ensures QuotedLength("\\" + ([c] + rest)) == Shift(2, QuotedLength(rest))
  {
    assert ("\\" + ([c] + rest))[2..] == rest;
  }

  /** What follows an opening quote with no closing one has none in the output either. */
  lemma {:induction false} UnclosedStays(s: string)
    requires Erased(s).Ok? && QuotedLength(s).None?
    ensures QuotedLength(Erased(s).value).None?
    decreases |s|
  {
    if s == "" {
    } else if s[0] == '\\' {
      KeepFront(s);
      if |s| > 1 {
        EscapedStays(s);
      }
    } else {
      var n := PieceLength(s);
      FirstPiece(s);
      if Front(s).Construct? {
        ConstructEndsClean(s);
        UnclosedAfter(s, n);
      }
      UnclosedStays(s[n..]);
      QuotedStep(Shown(FrontPiece(s)), Erased(s[n..]).value);
    }
  }

  lemma {:induction false} EscapedStays(s: string)
    requires |s| > 1 && s[0] == '\\' && Erased(s).Ok? && QuotedLength(s).None?
    ensures QuotedLength(Erased(s).value).None?
    decreases |s|, 0
  {
    var rest := s[1..];
    KeepFront(s);
    FirstPiece(rest);
    var n := PieceLength(rest);
    DropDrop(s, 1, 1);
    if Front(rest).Construct? {
      ConstructEndsClean(rest);
      UnclosedAfter(rest, n);
    }
    UnclosedStays(rest[n..]);
    QuotedEscape(Shown(FrontPiece(rest)), Erased(rest[n..]).value);
  }

  // -------------------------------------------- what the output begins with

  lemma {:induction false} HashesExtend(s: string, n: nat)
    requires n <= |s| && LeadingHashes(s[..n]) < n
    ensures LeadingHashes(s) == LeadingHashes(s[..n])
  {
    if s[..n][0] == '#' {
      assert s[..n][1..] == s[1..][..n - 1];
      HashesExtend(s[1..], n - 1);
    }
  }

  lemma DropOfTake(s: string, n: nat, m: nat)
    requires m <= n <= |s|
    ensures s[..n][m..] == s[m..][..n - m]
  {
  }

  lemma OpeningExtends(s: string, n: nat)
    requires n <= |s| && RawOpening(s[..n]) == n > 0
    ensures RawOpening(s) == n
  {
    var letters := RawLetters(s[..n]);
    assert s[..n][..letters] == s[..letters];
    DropOfTake(s, n, letters);
    HashesExtend(s[letters..], n - letters);
  }

  lemma OpeningCarries(a: string, b: string, n: nat)
    requires RawOpening(a) == n > 0 && n <= |b| && b[..n] == a[..n]
    ensures RawOpening(b) == n
  {
    RawOpeningLocal(a, n);
    OpeningExtends(b, n);
  }

  lemma RawIsNoPlain(s: string)
    requires RawOpening(s) > 0
    ensures s != "" && !Front(s).Plain?
  {
    assert s[0] in "bcr";
  }

  lemma OpeningHasNoSpace(s: string)
    ensures forall i :: 0 <= i < RawOpening(s) ==> s[i] != ' '
  {
  }

  /** A raw string that the output begins is one that the input begins. */
  lemma RawStays(s: string)
    requires s != "" && Erased(s).Ok? && Front(s).Plain?
    ensures RawOpening(Erased(s).value) == 0
  {
    var output := Erased(s).value;
    var n := RawOpening(output);
    if n > 0 {
      OpeningHasNoSpace(output);
      KeptPrefix(s, n);
      OpeningCarries(output, s, n);
      RawIsNoPlain(s);
    }
  }

  /** So is a string. */
  lemma StringStays(s: string)
    requires s != "" && Erased(s).Ok? && Front(s).Plain?
    ensures StringLength(Erased(s).value).None?
  {
    var output := Erased(s).value;
    if Single(output, '"') {
      NextKept(s);
      UnclosedQuote(s, s[1..], output, Erased(s[1..]).value);
      UnclosedStays(s[1..]);
    } else if Pair(output, 'b', '"') || Pair(output, 'c', '"') {
      NextKept(s);
      NextKept(s[1..]);
      UnclosedQuote(s, s[2..], output, Erased(s[2..]).value);
      UnclosedStays(s[2..]);
    }
  }

  /** A string at the front that is kept has no end, in the input or in the output. */
  lemma UnclosedQuote(s: string, after: string, output: string, rest: string)
    requires s != "" && Front(s).Plain? && output != ""
    requires if Single(s, '"') then after == s[1..] && output == [s[0]] + rest
             else (Pair(s, 'b', '"') || Pair(s, 'c', '"')) && after == s[2..] && output == s[..2] + rest
    ensures QuotedLength(after).None?
    ensures QuotedLength(rest).None? ==> StringLength(output).None?
  {
    assert StringLength(s).None?;
    assert Single(s, '"') ==> output[1..] == rest;
    assert !Single(s, '"') ==> output[2..] == rest;
  }

  /** Two quotes around a space, or around a backslash and a space. */
  predicate QuotedSpace(s: string) {
    "' '" <= s || "'\\ '" <= s
  }

  /** The only character literal that a kept quote can begin in the output holds a construct's space. */
  lemma CharacterNeedsGap(s: string)
    requires s != "" && Erased(s).Ok? && Front(s).Plain? && CharLength(Erased(s).value).Some?
    ensures var output := Erased(s).value; QuotedSpace(output) || QuotedSpace(output[1..])
  {
    var output := Erased(s).value;
    var n := CharLength(output).value;
    if forall i :: 0 <= i < n ==> output[i] != ' ' {
      KeptPrefix(s, n);
      CharacterCarries(output, s, n);
    } else {
      GapInside(output);
    }
  }

  lemma CharacterCarries(a: string, b: string, n: nat)
    requires CharLength(a) == Some(n) && n <= |b| && b[..n] == a[..n]
    ensures b != "" && !Front(b).Plain?
  {
    assert forall i :: 0 <= i < n ==> b[i] == b[..n][i] == a[..n][i] == a[i];
    assert CharLength(b).Some?;
  }

  lemma GapInside(s: string)
    requires CharLength(s).Some? && exists i :: 0 <= i < CharLength(s).value && s[i] == ' '
    ensures QuotedSpace(s) || QuotedSpace(s[1..])
  {
  }

  lemma {:induction false} OnePieceEach(s: string)
    requires Erased(s).Ok?
    ensures |Erased(s).value| == |Pieces(s)|
    decreases |s|
  {
    if s != "" {
      NextPiece(s);
      OnePieceEach(s[PieceLength(s)..]);
    }
  }

  lemma DropBehindFirst<T>(first: T, s: seq<T>, rest: seq<T>, i: nat)
    requires s == [first] + rest && 0 < i <= |s|
    ensures s[i..] == rest[i - 1..]
  {
  }

  /** Every place of the output begins what the scanner gives for a later part of the input. */
  lemma {:induction false} OutputBehind(s: string, i: nat) returns (t: string)
    requires Erased(s).Ok? && i <= |Pieces(s)|
    ensures i <= |Erased(s).value|
    ensures Erased(t).Ok? && Erased(t).value == Erased(s).value[i..] && Pieces(t) == Pieces(s)[i..]
    decreases |s|
  {
    OnePieceEach(s);
    if i == 0 {
      t := s;
    } else {
      NextPiece(s);
      var tail := s[PieceLength(s)..];
      t := OutputBehind(tail, i - 1);
      DropBehindFirst(FrontPiece(s), Pieces(s), Pieces(tail), i);
      DropBehindFirst(Shown(FrontPiece(s)), Erased(s).value, Erased(tail).value, i);
    }
  }

  lemma ShownPieces(s: string)
    requires Erased(s).Ok?
    ensures |Erased(s).value| == |Pieces(s)|
    ensures forall i :: 0 <= i < |Pieces(s)| ==> Erased(s).value[i] == Shown(Pieces(s)[i])
  {
    OnePieceEach(s);
    forall i | 0 <= i < |Pieces(s)| ensures Erased(s).value[i] == Shown(Pieces(s)[i]) {
      var t := OutputBehind(s, i);
      assert Erased(s).value[i] == Erased(t).value[0] && Pieces(s)[i] == Pieces(t)[0] by {
        assert Pieces(t)[0] == Pieces(s)[i..][0];
        OnePieceEach(t);
      }
      NextPiece(t);
    }
  }

  lemma CommentStays(s: string)
    requires s != "" && Erased(s).Ok?
    ensures !Pair(Erased(s).value, '/', '/') && !Pair(Erased(s).value, '/', '*')
  {
    OutputHoldsNoComment(s);
  }

  lemma SpaceIsPlain(s: string)
    requires s != "" && s[0] == ' '
    ensures Front(s).Plain?
  {
  }

  /** What a text begins with that opens no comment, raw string or string. */
  lemma BeginsCharacterOrNothing(s: string)
    requires s != "" && !Pair(s, '/', '/') && !Pair(s, '/', '*')
    requires RawOpening(s) == 0 && StringLength(s).None?
    requires CharLength(s).Some? ==> QuotedSpace(s) || QuotedSpace(s[1..])
    ensures BeginsGapOrNothing(s)
  {
    PlainWhen(s);
  }

  /** Not a construct without its end, and a construct only where two quotes stand around a space. */
  predicate BeginsGapOrNothing(s: string)
    requires s != ""
  {
    && !Front(s).Unended?
    && (QuotedSpace(s) ==> Front(s).Construct?)
    && (Front(s).Construct? ==> QuotedSpace(s) || QuotedSpace(s[1..]))
  }

  lemma OutputBegins(s: string)
    requires s != "" && Erased(s).Ok?
    ensures Erased(s).value != "" && BeginsGapOrNothing(Erased(s).value)
  {
    FirstPiece(s);
    if Front(s).Construct? {
      SpaceIsPlain(Erased(s).value);
    } else {
      CommentStays(s);
      RawStays(s);
      StringStays(s);
      if CharLength(Erased(s).value).Some? {
        CharacterNeedsGap(s);
      }
      BeginsCharacterOrNothing(Erased(s).value);
    }
  }

  lemma OutputGoesOn(s: string, i: nat)
    requires Erased(s).Ok? && i < |Erased(s).value|
    ensures BeginsGapOrNothing(Erased(s).value[i..])
  {
    ShownPieces(s);
    var t := OutputBehind(s, i);
    OutputBegins(t);
  }

  lemma {:induction false} NoneOpen(s: string)
    requires forall i :: 0 <= i < |s| ==> !Front(s[i..]).Unended?
    ensures Erased(s).Ok?
    decreases |s|
  {
    if s != "" {
      assert s[0..] == s;
      var n := PieceLength(s);
      forall i | 0 <= i < |s[n..]| ensures !Front(s[n..][i..]).Unended? {
        DropDrop(s, n, i);
      }
      NoneOpen(s[n..]);
    }
  }

  // ---------------------------------------------------------- main results

  /** A second pass always ends in a text. */
  lemma SecondPassNeverFails(s: string)
    requires Erased(s).Ok?
    ensures Erased(Erased(s).value).Ok?
  {
    var output := Erased(s).value;
    forall i | 0 <= i < |output| ensures !Front(output[i..]).Unended? {
      OutputGoesOn(s, i);
    }
    NoneOpen(output);
  }

  /** Nowhere in the text do two quotes stand around a space, or around a backslash and a space. */
  predicate QuotesNoSpace(s: string) {
    forall i :: 0 <= i <= |s| ==> !QuotedSpace(s[i..])
  }

  lemma PlainWithoutGaps(s: string)
    requires forall i :: 0 <= i < |s| ==> BeginsGapOrNothing(s[i..])
    ensures AllPlain(s) <==> QuotesNoSpace(s)
  {
    if QuotesNoSpace(s) {
      forall i | 0 <= i < |s| ensures Front(s[i..]).Plain? {
        DropDrop(s, i, 1);
        assert !QuotedSpace(s[i..]) && !QuotedSpace(s[i + 1..]);
      }
    } else {
      var i :| 0 <= i <= |s| && QuotedSpace(s[i..]);
      assert i < |s| && !Front(s[i..]).Plain?;
    }
  }

  /** A second pass changes nothing exactly when the output nowhere quotes a space. */
  lemma SecondPassByOutput(s: string)
    requires Erased(s).Ok?
    ensures Erased(Erased(s).value) == Ok(Erased(s).value) <==> QuotesNoSpace(Erased(s).value)
  {
    var output := Erased(s).value;
    UnchangedExactly(output);
    forall i | 0 <= i < |output| ensures BeginsGapOrNothing(output[i..]) {
      OutputGoesOn(s, i);
    }
    PlainWithoutGaps(output);
  }

  /** From piece `i` on, two kept quotes stand around a blanked construct, or around a backslash and one. */
  predicate QuotesConstruct(pieces: seq<Piece>, i: nat) {
    && i + 2 < |pieces|
    && pieces[i] == Kept('\'')
    && ((pieces[i + 1].Blanked? && pieces[i + 2] == Kept('\''))
        || (i + 3 < |pieces| && pieces[i + 1] == Kept('\\') && pieces[i + 2].Blanked? && pieces[i + 3] == Kept('\'')))
  }

  lemma {:induction false} KeptPieces(s: string, n: nat)
    requires Erased(s).Ok? && n <= |Pieces(s)| && forall i :: 0 <= i < n ==> Pieces(s)[i].Kept?
    ensures n <= |s| && forall i :: 0 <= i < n ==> Pieces(s)[i] == Kept(s[i])
  {
    if n > 0 {
      FirstPiece(s);
      var pieces, rest := Pieces(s), Pieces(s[PieceLength(s)..]);
      assert pieces[0] == FrontPiece(s) && PieceLength(s) == 1;
      assert forall i :: 0 <= i < n - 1 ==> rest[i] == pieces[i + 1];
      KeptPieces(s[1..], n - 1);
      assert forall i :: 0 < i < n ==> pieces[i] == rest[i - 1] && s[i] == s[1..][i - 1];
    }
  }

  /** Characters kept at the front are not together a character literal of the output. */
  lemma KeptIsNoLiteral(s: string, n: nat)
    requires Erased(s).Ok? && CharLength(Erased(s).value) == Some(n) && n <= |Pieces(s)|
    ensures exists i :: 0 <= i < n && Pieces(s)[i].Blanked?
  {
    if forall i :: 0 <= i < n ==> Pieces(s)[i].Kept? {
      NextPiece(s);
      KeptPieces(s, n);
      ShownPieces(s);
      assert s[..n] == Erased(s).value[..n];
      CharacterCarries(Erased(s).value, s, n);
    }
  }

  lemma QuotedSpaceLength(s: string)
    requires QuotedSpace(s)
    ensures |s| >= 3 && CharLength(s) == Some(if s[1] == ' ' then 3 else 4) && CharLength(s).value <= |s|
  {
  }

  lemma GapShape(output: string, pieces: seq<Piece>)
    requires |output| == |pieces| && forall i :: 0 <= i < |pieces| ==> output[i] == Shown(pieces[i])
    requires QuotedSpace(output) ==> exists i :: 0 <= i < (if output[1] == ' ' then 3 else 4) && pieces[i].Blanked?
    ensures QuotedSpace(output) <==> QuotesConstruct(pieces, 0)
  {
    assert "' '" <= output <==> |output| >= 3 && output[0] == '\'' && output[1] == ' ' && output[2] == '\'';
    assert "'\\ '" <= output <==>
           |output| >= 4 && output[0] == '\'' && output[1] == '\\' && output[2] == ' ' && output[3] == '\'';
  }

  /** A quoted space of the output is a construct's: a kept one would have been part of a literal. */
  lemma QuotedSpaceIsGap(s: string)
    requires Erased(s).Ok?
    ensures QuotedSpace(Erased(s).value) <==> QuotesConstruct(Pieces(s), 0)
  {
    ShownPieces(s);
    if QuotedSpace(Erased(s).value) {
      QuotedSpaceLength(Erased(s).value);
      KeptIsNoLiteral(s, if Erased(s).value[1] == ' ' then 3 else 4);
    }
    GapShape(Erased(s).value, Pieces(s));
  }

  /**
   The scanner read a second time changes nothing exactly when nowhere in the input two kept quotes
   stand around a comment or literal, or around a backslash and one.
   */
  lemma SecondPassExactly(s: string)
    requires Erased(s).Ok?
    ensures Erased(Erased(s).value) == Ok(Erased(s).value) <==>
            forall i: nat :: i < |Pieces(s)| ==> !QuotesConstruct(Pieces(s), i)
  {
    var output, pieces := Erased(s).value, Pieces(s);
    SecondPassByOutput(s);
    ShownPieces(s);
    forall i: nat | i <= |pieces| ensures QuotedSpace(output[i..]) <==> QuotesConstruct(pieces, i) {
      var t := OutputBehind(s, i);
      QuotedSpaceIsGap(t);
    }
  }

  /** One such input: a quoted comment becomes a quoted space, which a second pass erases. */
  lemma SecondPassErasesMore()
    ensures Erased("'/**/'") == Ok("' '") && Erased("' '") == Ok(" ")
  {
    QuotedSpaceErases();
    QuotedCommentErases();
  }

  lemma QuotedSpaceErases()
    ensures Erased("' '") == Ok(" ")
  {
    assert "' '"[1..] == " '";
    BlankFront("' '", 3, "");
    assert Erased("") == Ok("") && " " + "" == " ";
  }

  lemma QuotedCommentErases()
    ensures Erased("'/**/'") == Ok("' '")
  {
    var quote, comment := "'", "/**/'";
    assert quote[1..] == "";
    KeepFront(quote);
    assert Erased("") == Ok("") && [quote[0]] + "" == quote;
    assert comment[2..][2..] == quote && CommentLength(comment[2..], 1) == Some(2);
    BlankFront(comment, 4, quote);
    assert "'/**/'"[1..] == comment;
    KeepFront("'/**/'");
    assert [quote[0]] + (" " + quote) == "' '";
  }
}
