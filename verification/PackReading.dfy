/**
 What the pack reader answers for any bytes at all, said in terms of the bytes:
 which inputs are read, and which text each id gets. An entry or alias whose bytes
 are no text is passed over, so that an earlier one of the same id stays.
 */
module PackReading {
  import opened Bytes
  import opened Wrappers
  import opened LanguagePack
  import opened Utf8

  /** Two bytes, little end first. */
  function Small(bytes: seq<byte>, at: nat): u16
    requires at + 2 <= |bytes|
  {
    bytes[at] as int + 0x100 * (bytes[at + 1] as int)
  }

  /** Four bytes, little end first. */
  function Large(bytes: seq<byte>, at: nat): nat
    requires at + 4 <= |bytes|
  {
    bytes[at] as int + 0x100 * (bytes[at + 1] as int) + 0x1_0000 * (bytes[at + 2] as int)
    + 0x100_0000 * (bytes[at + 3] as int)
  }

  /** Where the alias table starts: after the header, the entries and the sentinel. */
  function TableEnd(bytes: seq<byte>): nat
    requires |bytes| >= 12
  {
    12 + (Small(bytes, 8) as int + 1) * 6
  }

  /** A version 5 pack whose tables lie inside it and whose texts end inside it. */
  predicate Whole(bytes: seq<byte>) {
    && |bytes| >= 12
    && bytes[..4] == [5, 0, 0, 0]
    && TableEnd(bytes) + (Small(bytes, 10) as int) * 4 <= |bytes|
    && Large(bytes, TableEnd(bytes) - 4) <= |bytes|
  }

  /** The entries and then the aliases, in the order they are read. */
  function Rows(bytes: seq<byte>): nat
    requires Whole(bytes)
  {
    Small(bytes, 8) as int + Small(bytes, 10) as int
  }

  function RowId(bytes: seq<byte>, k: nat): u16
    requires Whole(bytes) && k < Rows(bytes)
  {
    var count := Small(bytes, 8) as int;
    if k < count then Small(bytes, 12 + k * 6) else Small(bytes, TableEnd(bytes) + (k - count) * 4)
  }

  /** The entry whose text the row gives to its id: an entry its own, an alias the one it names. */
  function RowEntry(bytes: seq<byte>, k: nat): nat
    requires Whole(bytes) && k < Rows(bytes)
  {
    var count := Small(bytes, 8) as int;
    if k < count then k else Small(bytes, TableEnd(bytes) + (k - count) * 4 + 2)
  }

  /** The bytes between the entry's offset and the next one's are this text in the pack's encoding. */
  ghost predicate Holds(bytes: seq<byte>, entry: nat, text: seq<byte>, utf16: Utf16)
    requires |bytes| > 4
  {
    && 24 + entry * 6 <= |bytes|
    && var from, to := Large(bytes, 14 + entry * 6), Large(bytes, 20 + entry * 6);
       && from <= to <= |bytes|
       && ((bytes[4] == 1 && bytes[from..to] == text && IsText(text))
           || (bytes[4] == 2 && utf16(bytes[from..to]) == Some(text)))
  }

  /** Row `k` gives the id this text, and no later row gives it any. */
  ghost predicate GivenBy(bytes: seq<byte>, k: nat, id: u16, text: seq<byte>, utf16: Utf16)
    requires Whole(bytes)
  {
    && k < Rows(bytes) && RowId(bytes, k) == id && Holds(bytes, RowEntry(bytes, k), text, utf16)
    && forall l: nat, t :: k < l < Rows(bytes) && RowId(bytes, l) == id ==> !Holds(bytes, RowEntry(bytes, l), t, utf16)
  }

  // ---------------------------------------------------------- what is read

  lemma ReadsSmall(bytes: seq<byte>, at: nat)
    ensures U16At(bytes, at) == if at + 2 <= |bytes| then Some(Small(bytes, at)) else None
  {
  }

  lemma ReadsLarge(bytes: seq<byte>, at: nat)
    ensures U32At(bytes, at) == if at + 4 <= |bytes| then Some(Large(bytes, at)) else None
  {
  }

  lemma ReadsEntryAt(bytes: seq<byte>, i: nat)
    ensures Entry(bytes, i)
         == if 18 + i * 6 <= |bytes| then Some((Small(bytes, 12 + i * 6), Large(bytes, 14 + i * 6))) else None
  {
  }

  lemma ReadsAliasAt(bytes: seq<byte>, k: nat)
    requires |bytes| >= 12
    ensures AliasAt(bytes, k)
         == if TableEnd(bytes) + k * 4 + 4 <= |bytes|
            then Some((Small(bytes, TableEnd(bytes) + k * 4), Small(bytes, TableEnd(bytes) + k * 4 + 2))) else None
  {
  }

  lemma {:induction false} AliasesFit(bytes: seq<byte>, entries: map<u16, Text>, k: nat, utf16: Utf16)
    requires |bytes| >= 12
    ensures AliasesRead(bytes, entries, k, utf16).Some? <==> k == 0 || TableEnd(bytes) + k * 4 <= |bytes|
  {
    if k > 0 {
      AliasesFit(bytes, entries, k - 1, utf16);
      ReadsAliasAt(bytes, k - 1);
    }
  }

  lemma TextIsHeld(bytes: seq<byte>, entry: nat, text: seq<byte>, utf16: Utf16)
    requires |bytes| > 4
    ensures (TextAt(bytes, entry, utf16).Some? && TextAt(bytes, entry, utf16).value == text)
       <==> Holds(bytes, entry, text, utf16)
  {
    ReadsEntryAt(bytes, entry);
    ReadsEntryAt(bytes, entry + 1);
    if 24 + entry * 6 <= |bytes| {
      var from, to := Large(bytes, 14 + entry * 6), Large(bytes, 20 + entry * 6);
      if from <= to <= |bytes| {
        TextIsEncoded(bytes[from..to]);
      }
    }
  }

  // ------------------------------------------------- rows as one list

  type Row = (u16, Option<Text>)

  /** Inserting the first `n` rows in order; one without a text inserts nothing. */
  function Folded(rows: seq<Row>, n: nat): map<u16, Text>
    requires n <= |rows|
  {
    if n == 0 then map[] else Insert(Folded(rows, n - 1), rows[n - 1].0, rows[n - 1].1)
  }

  /** Row `k` is the last of the first `n` with the id and a text, and the text is this. */
  ghost predicate Wins(rows: seq<Row>, n: nat, k: nat, id: u16, text: seq<byte>)
    requires n <= |rows|
  {
    && k < n && rows[k].0 == id && rows[k].1.Some? && rows[k].1.value == text
    && forall l :: k < l < n && rows[l].0 == id ==> rows[l].1.None?
  }

  lemma LaterRowWithout(rows: seq<Row>, n: nat, k: nat, id: u16, text: seq<byte>)
    requires 0 < n <= |rows| && (rows[n - 1].0 != id || rows[n - 1].1.None?)
    ensures Wins(rows, n, k, id, text) <==> Wins(rows, n - 1, k, id, text)
  {
  }

  lemma {:induction false} FoldedExactly(rows: seq<Row>, n: nat, id: u16, text: seq<byte>)
    requires n <= |rows|
    ensures (id in Folded(rows, n) && Folded(rows, n)[id] == text) <==> exists k: nat :: Wins(rows, n, k, id, text)
  {
    if n > 0 {
      FoldedExactly(rows, n - 1, id, text);
      if rows[n - 1].0 == id && rows[n - 1].1.Some? {
        assert rows[n - 1].1.value == text ==> Wins(rows, n, n - 1, id, text);
      } else {
        if k: nat :| Wins(rows, n, k, id, text) {
          LaterRowWithout(rows, n, k, id, text);
        }
        var before: nat := n - 1;
        if k: nat :| Wins(rows, before, k, id, text) {
          LaterRowWithout(rows, n, k, id, text);
        }
      }
    }
  }

  /** Each row's id, and the text that the reader finds for it. */
  function RowsOf(bytes: seq<byte>, utf16: Utf16): (rows: seq<Row>)
    requires Whole(bytes)
    ensures |rows| == Rows(bytes)
    ensures forall k :: 0 <= k < |rows| ==> rows[k] == (RowId(bytes, k), TextAt(bytes, RowEntry(bytes, k), utf16))
  {
    seq(Rows(bytes), k requires 0 <= k < Rows(bytes) => (RowId(bytes, k), TextAt(bytes, RowEntry(bytes, k), utf16)))
  }

  lemma {:induction false} EntriesFold(bytes: seq<byte>, rows: seq<Row>, n: nat, utf16: Utf16)
    requires |bytes| > 4 && n <= |rows|
    requires forall i :: 0 <= i < n ==>
               Entry(bytes, i).Some? && rows[i] == (Entry(bytes, i).value.0, TextAt(bytes, i, utf16))
    ensures EntriesRead(bytes, n, utf16) == Folded(rows, n)
  {
    if n > 0 {
      EntriesFold(bytes, rows, n - 1, utf16);
    }
  }

  /** Row `count + i` is alias `i`. */
  predicate IsAlias(bytes: seq<byte>, rows: seq<Row>, count: nat, i: nat, utf16: Utf16)
    requires |bytes| > 4 && count + i < |rows|
  {
    AliasAt(bytes, i).Some?
    && rows[count + i] == (AliasAt(bytes, i).value.0, TextAt(bytes, AliasAt(bytes, i).value.1, utf16))
  }

  lemma {:induction false} AliasesFold(bytes: seq<byte>, rows: seq<Row>, count: nat, k: nat, utf16: Utf16)
    requires |bytes| > 4 && count + k <= |rows|
    requires forall i :: 0 <= i < k ==> IsAlias(bytes, rows, count, i, utf16)
    ensures AliasesRead(bytes, Folded(rows, count), k, utf16) == Some(Folded(rows, count + k))
  {
    if k > 0 {
      AliasesFold(bytes, rows, count, k - 1, utf16);
      assert IsAlias(bytes, rows, count, k - 1, utf16);
    }
  }

  lemma EntriesFoldRows(bytes: seq<byte>, utf16: Utf16)
    requires Whole(bytes)
    ensures forall i :: 0 <= i < Small(bytes, 8) ==> Entry(bytes, i).Some?
    ensures EntriesRead(bytes, Small(bytes, 8), utf16) == Folded(RowsOf(bytes, utf16), Small(bytes, 8))
  {
    var rows := RowsOf(bytes, utf16);
    forall i | 0 <= i < Small(bytes, 8)
      ensures Entry(bytes, i).Some? && rows[i] == (Entry(bytes, i).value.0, TextAt(bytes, i, utf16))
    {
      ReadsEntryAt(bytes, i);
    }
    EntriesFold(bytes, rows, Small(bytes, 8), utf16);
  }

  lemma AliasRow(bytes: seq<byte>, i: nat, utf16: Utf16)
    requires Whole(bytes) && i < Small(bytes, 10)
    ensures IsAlias(bytes, RowsOf(bytes, utf16), Small(bytes, 8), i, utf16)
  {
    ReadsAliasAt(bytes, i);
  }

  lemma AliasRows(bytes: seq<byte>, utf16: Utf16)
    requires Whole(bytes)
    ensures forall i :: 0 <= i < Small(bytes, 10) ==> IsAlias(bytes, RowsOf(bytes, utf16), Small(bytes, 8), i, utf16)
  {
    forall i | 0 <= i < Small(bytes, 10) ensures IsAlias(bytes, RowsOf(bytes, utf16), Small(bytes, 8), i, utf16) {
      AliasRow(bytes, i, utf16);
    }
  }

  lemma AliasesFoldRows(bytes: seq<byte>, utf16: Utf16)
    requires Whole(bytes)
    ensures var rows := RowsOf(bytes, utf16);
            AliasesRead(bytes, Folded(rows, Small(bytes, 8)), Small(bytes, 10), utf16) == Some(Folded(rows, |rows|))
  {
    AliasRows(bytes, utf16);
    AliasesFold(bytes, RowsOf(bytes, utf16), Small(bytes, 8), Small(bytes, 10), utf16);
  }

  lemma TextIsNone(bytes: seq<byte>, entry: nat, utf16: Utf16)
    requires |bytes| > 4
    ensures TextAt(bytes, entry, utf16).None? <==> forall text :: !Holds(bytes, entry, text, utf16)
  {
    forall text ensures Holds(bytes, entry, text, utf16) ==> TextAt(bytes, entry, utf16).Some? {
      TextIsHeld(bytes, entry, text, utf16);
    }
    if TextAt(bytes, entry, utf16).Some? {
      TextIsHeld(bytes, entry, TextAt(bytes, entry, utf16).value, utf16);
    }
  }

  lemma WinsIsGiven(bytes: seq<byte>, k: nat, id: u16, text: seq<byte>, utf16: Utf16)
    requires Whole(bytes)
    ensures Wins(RowsOf(bytes, utf16), |RowsOf(bytes, utf16)|, k, id, text) <==> GivenBy(bytes, k, id, text, utf16)
  {
    var rows := RowsOf(bytes, utf16);
    if k < Rows(bytes) {
      TextIsHeld(bytes, RowEntry(bytes, k), text, utf16);
      forall l: nat | k < l < Rows(bytes)
        ensures rows[l].1.None? <==> forall t :: !Holds(bytes, RowEntry(bytes, l), t, utf16)
      {
        TextIsNone(bytes, RowEntry(bytes, l), utf16);
      }
    }
  }

  lemma ReadsWhole(bytes: seq<byte>, utf16: Utf16)
    requires Whole(bytes)
    ensures U32At(bytes, 0) == Some(5) && Count(bytes) == Small(bytes, 8) && AliasCount(bytes) == Small(bytes, 10)
    ensures Entry(bytes, Small(bytes, 8)).Some? && Entry(bytes, Small(bytes, 8)).value.1 <= |bytes|
  {
    ReadsLarge(bytes, 0);
    ReadsSmall(bytes, 8);
    ReadsSmall(bytes, 10);
    ReadsEntryAt(bytes, Small(bytes, 8));
  }

  lemma WholeIsRead(bytes: seq<byte>, utf16: Utf16)
    requires Whole(bytes)
    ensures Parsed(bytes, utf16) == Strings(Folded(RowsOf(bytes, utf16), |RowsOf(bytes, utf16)|))
  {
    ReadsWhole(bytes, utf16);
    EntriesFoldRows(bytes, utf16);
    AliasesFoldRows(bytes, utf16);
  }

  // ---------------------------------------------------------- main results

  /** Every input is read, refused or fatal by its first four bytes, its length and where its tables and texts end. */
  lemma OutcomeExactly(bytes: seq<byte>, utf16: Utf16)
    ensures Parsed(bytes, utf16) == Refused(UnknownFormat) <==> |bytes| < 4 || bytes[..4] != [5, 0, 0, 0]
    ensures Parsed(bytes, utf16) == Panics <==> bytes == [5, 0, 0, 0]
    ensures Parsed(bytes, utf16).Strings? <==> Whole(bytes)
  {
    ReadsLarge(bytes, 0);
    ReadsSmall(bytes, 8);
    ReadsSmall(bytes, 10);
    ReadsEntryAt(bytes, Count(bytes));
    if |bytes| >= 12 && Entry(bytes, Count(bytes)).Some? {
      EarlierEntriesReadable(bytes, Count(bytes));
      AliasesFit(bytes, EntriesRead(bytes, Count(bytes), utf16), AliasCount(bytes), utf16);
    }
  }

  /**
   Of an input that is read, an id has a text exactly when some entry or alias of that id names a
   slice that is this text, and no later one of that id names a slice that is any text.
   */
  lemma ReadingExactly(bytes: seq<byte>, utf16: Utf16, id: u16, text: seq<byte>)
    requires Parsed(bytes, utf16).Strings?
    ensures Whole(bytes)
    ensures var strings := Parsed(bytes, utf16).strings;
            (id in strings && strings[id] == text) <==> exists k: nat :: GivenBy(bytes, k, id, text, utf16)
  {
    OutcomeExactly(bytes, utf16);
    WholeIsRead(bytes, utf16);
    var rows := RowsOf(bytes, utf16);
    FoldedExactly(rows, |rows|, id, text);
    forall k: nat ensures Wins(rows, |rows|, k, id, text) <==> GivenBy(bytes, k, id, text, utf16) {
      WinsIsGiven(bytes, k, id, text, utf16);
    }
  }

  lemma {:induction false} NothingFolds(rows: seq<Row>, n: nat)
    requires n <= |rows| && forall k :: 0 <= k < n ==> rows[k].1.None?
    ensures Folded(rows, n) == map[]
  {
    if n > 0 {
      NothingFolds(rows, n - 1);
    }
  }

  /** In any other encoding nothing is a text. */
  lemma OtherEncodingsReadNothing(bytes: seq<byte>, utf16: Utf16)
    requires Parsed(bytes, utf16).Strings? && |bytes| > 4 && bytes[4] != 1 && bytes[4] != 2
    ensures Parsed(bytes, utf16) == Strings(map[])
  {
    OutcomeExactly(bytes, utf16);
    WholeIsRead(bytes, utf16);
    NothingFolds(RowsOf(bytes, utf16), |RowsOf(bytes, utf16)|);
  }

  /** A resource that is no text, as a compressed one, gives its id nothing. */
  lemma ACompressedResourceIsPassedOver(utf16: Utf16)
    ensures Parsed([5, 0, 0, 0, 1, 0, 0, 0, 1, 0, 0, 0, 7, 0, 24, 0, 0, 0, 0, 0, 25, 0, 0, 0, 0xFF], utf16)
         == Strings(map[])
  {
    var bytes: seq<byte> := [5, 0, 0, 0, 1, 0, 0, 0, 1, 0, 0, 0, 7, 0, 24, 0, 0, 0, 0, 0, 25, 0, 0, 0, 0xFF];
    assert bytes[..4] == [5, 0, 0, 0] && Small(bytes, 8) == 1 && Small(bytes, 10) == 0 && bytes[4] == 1;
    assert Large(bytes, 14) == 24 && Large(bytes, 20) == 25 && bytes[24..25] == [0xFF];
    OneEntryNoText(bytes, utf16);
  }

  lemma OneEntryNoText(bytes: seq<byte>, utf16: Utf16)
    requires Whole(bytes) && bytes[4] == 1 && Small(bytes, 8) == 1 && Small(bytes, 10) == 0
    requires Large(bytes, 14) <= Large(bytes, 20)
    requires Large(bytes, 20) <= |bytes| ==> bytes[Large(bytes, 14)..Large(bytes, 20)] == [0xFF]
    ensures Parsed(bytes, utf16) == Strings(map[])
  {
    WholeIsRead(bytes, utf16);
    ReadsEntryAt(bytes, 0);
    ReadsEntryAt(bytes, 1);
    NothingFolds(RowsOf(bytes, utf16), |RowsOf(bytes, utf16)|);
  }
}
