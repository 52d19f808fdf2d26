/**
 Character literals with long escapes, such as a hexadecimal byte or a code
 point. The scanner's pattern takes one character after a backslash, so it keeps
 such a literal as code, and its closing quote may begin a literal of its own.
 */
module RustLongEscapes {
  import opened Wrappers
  import opened RustEraser
  import opened RustPrinter

  /** A long literal up to its last digit, or up to a last digit `b`, which may be a byte literal's letter. */
  function Opening(byte: bool, one: Unit): string
    requires one.Long? && one.digits != ""
  {
    (if byte then "b'" else "'") + Escape(one)
  }

  function Escape(one: Unit): string
    requires one.Long? && one.digits != ""
  {
    ['\\', one.letter] + if Closing(one) == "'" then one.digits else one.digits[..|one.digits| - 1]
  }

  /** The rest of it. */
  function Closing(one: Unit): (s: string)
    requires one.Long? && one.digits != ""
    ensures s == "'" || s == "b'"
  {
    if one.digits[|one.digits| - 1] == 'b' then "b'" else "'"
  }

  lemma TwoParts(byte: bool, one: Unit)
    requires one.Long? && one.digits != ""
    ensures Print(Character(byte, one)) == Opening(byte, one) + Closing(one)
  {
    var escape := ['\\', one.letter];
    assert (if byte then "b" else "") + "'" == if byte then "b'" else "'";
    if Closing(one) == "'" {
      Split(if byte then "b'" else "'", escape, one.digits, one.digits, "'");
    } else {
      LastDigit(one.digits);
      Split(if byte then "b'" else "'", escape, one.digits, one.digits[..|one.digits| - 1], "b'");
    }
  }

  lemma LastDigit(digits: string)
    requires digits != "" && digits[|digits| - 1] == 'b'
    ensures digits + "'" == digits[..|digits| - 1] + "b'"
  {
  }

  lemma Split(quote: string, escape: string, digits: string, front: string, closing: string)
    requires digits + "'" == front + closing
    ensures quote + (escape + digits) + "'" == quote + (escape + front) + closing
  {
    Grouped(quote, escape, digits, "'");
    Grouped(quote, escape, front, closing);
  }

  lemma Grouped(a: string, b: string, c: string, d: string)
    ensures a + (b + c) + d == a + (b + (c + d))
  {
  }

  lemma EscapeGoesOn(s: string)
    requires |s| >= 3 && s[0] == '\\' && s[2] != '\''
    ensures CharBodyLength(s).None?
  {
  }

  /** The quote that opens a long literal opens no literal for the scanner. */
  lemma OpeningStands(quote: string, escape: string, back: string)
    requires quote == "'" || quote == "b'"
    requires |escape| >= 2 && escape[0] == '\\' && '\'' !in escape
    requires back != "" && !Joins(escape[|escape| - 1], back) && (|escape| == 2 ==> back[0] != '\'')
    ensures StandsBefore(quote + escape, back)
  {
    var text := quote + escape;
    assert text[|text| - 1] == escape[|escape| - 1];
    assert forall k :: |quote| <= k < |text| ==> text[k] in escape;
    forall i | 0 <= i < |text| && text[i] == '\'' ensures CharBodyLength((text + back)[i + 1..]).None? {
      assert i == |quote| - 1;
      assert (text + back)[i + 1..] == escape + back;
      assert |escape| > 2 ==> escape[2] in escape;
      EscapeGoesOn(escape + back);
    }
  }

  lemma EscapeShape(one: Unit)
    requires one.Long? && WellFormedUnit(one, '\'')
    ensures var escape := Escape(one);
            && |escape| >= 2 && escape[0] == '\\'
            && '\'' !in escape && '"' !in escape && '/' !in escape
            && escape[|escape| - 1] !in "r#/"
            && ((escape[|escape| - 1] == 'b' || |escape| == 2) ==> Closing(one) == "b'")
  {
    var digits := if Closing(one) == "'" then one.digits else one.digits[..|one.digits| - 1];
    assert forall d <- digits :: d in one.digits;
    EscapeOf(['\\', one.letter], digits);
  }

  lemma NotInEither(c: char, a: string, b: string)
    requires c !in a && c !in b
    ensures c !in a + b
  {
  }

  lemma EscapeOf(start: string, digits: string)
    requires |start| == 2 && start[0] == '\\' && start[1] in "xu" && Digits(digits)
    ensures var escape := start + digits;
            && '\'' !in escape && '"' !in escape && '/' !in escape
            && escape[|escape| - 1] !in "r#/"
            && escape[|escape| - 1] == if digits == "" then start[1] else digits[|digits| - 1]
  {
    DigitsArePlain(digits);
    NotInEither('\'', start, digits);
    NotInEither('"', start, digits);
    NotInEither('/', start, digits);
    assert digits != "" ==> IsDigit(digits[|digits| - 1]);
  }

  lemma DigitJoinsNoQuote(last: char, back: string)
    requires last !in "r#/" && back != "" && back[0] in "'b" && (last == 'b' ==> back[0] == 'b')
    ensures !Joins(last, back)
  {
  }

  lemma OpeningScanned(byte: bool, one: Unit, rest: string)
    requires one.Long? && WellFormedUnit(one, '\'')
    ensures Erased(Print(Character(byte, one)) + rest) == Prepend(Opening(byte, one), Erased(Closing(one) + rest))
  {
    var quote, escape, back := if byte then "b'" else "'", Escape(one), Closing(one) + rest;
    EscapeShape(one);
    DigitJoinsNoQuote(escape[|escape| - 1], back);
    OpeningStands(quote, escape, back);
    NothingOpens(quote, escape, "");
    assert quote + escape + "" == quote + escape;
    CodeScanned(quote + escape, back);
    TwoParts(byte, one);
    Regroup(quote + escape, Closing(one), rest);
  }

  lemma Regroup(a: string, b: string, c: string)
    ensures a + b + c == a + (b + c)
  {
  }

  /** The closing quote is kept, or begins a literal that is blanked. */
  lemma ClosingScanned(closing: string, rest: string)
    requires closing == "'" || closing == "b'"
    ensures Erased(closing + rest)
         == match CharBodyLength(rest)
            case None => Prepend(closing, Erased(rest))
            case Some(n) => Prepend(" ", Erased(rest[n..]))
  {
    var text, quote := closing + rest, |closing|;
    assert text[quote..] == rest;
    if CharBodyLength(rest).Some? {
      var n := CharBodyLength(rest).value;
      CharacterAtFront(text, quote + n);
      DropDrop(text, quote, n);
      BlankFront(text, quote + n, rest[n..]);
    } else {
      CodeScanned(closing, rest);
    }
  }

  // ---------------------------------------------------------- main results

  /**
   In an accepted text a long literal comes out whole, and what follows it as if it stood alone,
   exactly when what follows does not end a character literal that the closing quote begins.
   Otherwise that literal is blanked.
   */
  lemma LongCharacterKeptExactly(byte: bool, one: Unit, rest: string)
    requires one.Long? && WellFormedUnit(one, '\'')
    requires Erased(Print(Character(byte, one)) + rest).Ok?
    ensures var text := Print(Character(byte, one));
            && (Erased(text + rest) == Prepend(text, Erased(rest)) <==> CharBodyLength(rest).None?)
            && (CharBodyLength(rest).Some? ==>
                  Erased(text + rest)
                  == Prepend(Opening(byte, one) + " ", Erased(rest[CharBodyLength(rest).value..])))
  {
    var opening, closing := Opening(byte, one), Closing(one);
    OpeningScanned(byte, one, rest);
    ClosingScanned(closing, rest);
    TwoParts(byte, one);
    if CharBodyLength(rest).Some? {
      var tail := Erased(rest[CharBodyLength(rest).value..]);
      PrependTwice(opening, " ", tail);
      SpaceForQuote(opening, closing, Erased(rest), tail);
    } else {
      PrependTwice(opening, closing, Erased(rest));
    }
  }

  lemma SpaceForQuote(opening: string, closing: string, whole: Erasure, tail: Erasure)
    requires closing != "" && closing[0] != ' ' && tail.Ok?
    ensures Prepend(opening + " ", tail) != Prepend(opening + closing, whole)
  {
    assert (opening + " " + tail.value)[|opening|] == ' ';
    assert whole.Ok? ==> (opening + closing + whole.value)[|opening|] == closing[0];
  }

  /** A hexadecimal escape comes out as it went in. */
  lemma AHexEscapeIsKept()
    ensures Erased("'\\x41'") == Ok("'\\x41'")
  {
    HexEscapeSpelled();
    OpeningScanned(false, HEX, "");
    ClosingScanned("'", "");
    assert Erased("") == Ok("");
    assert "'\\x41'" + "" == "'\\x41'" && "'\\x41" + ("'" + "") == "'\\x41'";
  }

  const HEX := Long('x', "41")

  lemma HexEscapeSpelled()
    ensures Print(Character(false, HEX)) == "'\\x41'" && Opening(false, HEX) == "'\\x41" && Closing(HEX) == "'"
  {
  }

  /** Its closing quote, a comma and the next quote read as a literal. */
  lemma HexEscapeThenQuote(literal: string, opening: string, hidden: string, kept: string)
    requires literal == Print(Character(false, HEX)) && opening == Opening(false, HEX) && Closing(HEX) == "'"
    requires Erased(hidden) == Ok(kept)
    ensures Erased(literal + (",'" + hidden)) == Ok(opening + (" " + kept))
  {
    var tail := ",'" + hidden;
    assert tail[2..] == hidden && CharBodyLength(tail) == Some(2);
    OpeningScanned(false, HEX, tail);
    ClosingScanned("'", tail);
  }

  /** So the code between two quoted quotes is lost. */
  lemma AHexEscapeHidesCode()
    ensures Erased("['\\x41','\"',a::b,'\"']") == Ok("['\\x41  ']")
  {
    var text, hidden := "'\\x41'" + (",'" + "\"',a::b,'\"']"), "\"',a::b,'\"']";
    HexEscapeSpelled();
    HiddenCode(hidden);
    HexEscapeThenQuote("'\\x41'", "'\\x41", hidden, " ']");
    Bracketed(text, "'\\x41" + (" " + " ']"));
    HiddenSpelled();
  }

  lemma Bracketed(text: string, kept: string)
    requires Erased(text) == Ok(kept)
    ensures Erased("[" + text) == Ok("[" + kept)
  {
    CodeScanned("[", text);
  }

  lemma HiddenSpelled()
    ensures "[" + ("'\\x41'" + (",'" + "\"',a::b,'\"']")) == "['\\x41','\"',a::b,'\"']"
    ensures "[" + ("'\\x41" + (" " + " ']")) == "['\\x41  ']"
  {
  }

  lemma HiddenCode(hidden: string)
    requires hidden == "\"',a::b,'\"']"
    ensures Erased(hidden) == Ok(" ']")
  {
    HiddenLength(hidden);
    StringAtFront(hidden, 10);
    assert hidden[10..] == "']";
    BlankFront(hidden, 10, "']");
    QuoteBracket();
  }

  lemma HiddenLength(hidden: string)
    requires hidden == "\"',a::b,'\"']"
    ensures StringLength(hidden) == Some(10)
  {
    assert hidden[1..] == "',a::b,'" + "\"']";
    QuotedSkips("',a::b,'", "\"']");
  }

  lemma QuoteBracket()
    ensures Prepend(" ", Erased("']")) == Ok(" ']")
  {
    CodeScanned("']", "");
    assert "']" + "" == "']" && " " + "']" == " ']";
  }
}
