/** The texts that the scanner refuses: comments and raw strings without their end. */
module RustUnended {
  import opened Wrappers
  import opened RustEraser
  import opened RustPrinter

  predicate HoldsCloser(s: string) {
    exists i :: 0 <= i < |s| - 1 && s[i] == '*' && s[i + 1] == '/'
  }

  lemma {:induction false} NoCloserNoEnd(s: string, depth: nat)
    requires depth > 0 && !HoldsCloser(s)
    ensures CommentLength(s, depth).None?
    decreases |s|
  {
    if s != "" {
      assert !Pair(s, '*', '/');
      var step := if Pair(s, '/', '*') then 2 else 1;
      forall i | 0 <= i < |s[step..]| - 1 ensures !(s[step..][i] == '*' && s[step..][i + 1] == '/') {
        assert s[step..][i] == s[step + i] && s[step..][i + 1] == s[step + i + 1];
      }
      NoCloserNoEnd(s[step..], if step == 2 then depth + 1 else depth);
    }
  }

  lemma {:induction false} NotFound(s: string, pattern: string)
    requires !Occurs(s, pattern)
    ensures Find(s, pattern).None?
    decreases |s|
  {
    assert s[0..] == s;
    if s != "" {
      forall i | 0 <= i <= |s[1..]| ensures !StartsWith(s[1..][i..], pattern) {
        DropDrop(s, 1, i);
      }
      NotFound(s[1..], pattern);
    }
  }

  /** A block comment that nothing closes is refused as one. */
  lemma OpenCommentIsRefused(inside: string)
    requires !HoldsCloser(inside)
    ensures Erased("/*" + inside) == Err(OpenBlockComment)
  {
    var text := "/*" + inside;
    assert text[2..] == inside;
    NoCloserNoEnd(inside, 1);
  }

  /** A raw string whose own closing does not follow is refused as one. */
  lemma OpenRawStringIsRefused(letters: string, hashes: nat, inside: string)
    requires letters in ["r", "br", "cr"] && !Occurs(inside, "\"" + Hashes(hashes))
    ensures Erased(letters + Hashes(hashes) + "\"" + inside) == Err(OpenRawString)
  {
    var text := letters + Hashes(hashes) + "\"" + inside;
    RawOpeningScanned(text, letters, hashes, inside);
    NotFound(inside, "\"" + Hashes(hashes));
    RawIsRefused(text);
  }

  lemma RawIsRefused(s: string)
    requires RawOpening(s) > 0 && RawLength(s).None?
    ensures Erased(s) == Err(OpenRawString)
  {
    assert s[0] in "bcr";
  }

  /** After code, each is refused where it stands. */
  lemma RefusedAfterCode(code: string, rest: string, problem: Problem)
    requires PlainCode(code) && StandsBefore(code, rest) && Erased(rest) == Err(problem)
    ensures Erased(code + rest) == Err(problem)
  {
    CodeScanned(code, rest);
  }
}
