/**
 Chromium language packs, version 5: the reader the application ships and the
 writer its tests use. The two are written independently; the lemmas at the end
 say that the reader undoes the writer and refuses every truncation but one.
 */
module LanguagePack {
  import opened Bytes
  import opened Wrappers

  type u16 = n: int | 0 <= n < 0x1_0000

  // ---------------------------------------------------------------- text

  /** A Rust `String` is its UTF-8 bytes, so text is the byte sequences that section 4 of RFC 3629 admits. */
  type Text = s: seq<byte> | ValidUtf8(s)

  predicate Tail(b: byte) {
    0x80 <= b <= 0xBF
  }

  /** The number of bytes of the well-formed character that starts `s`, or 0 when none does. */
  function ScalarLength(s: seq<byte>): nat {
    if |s| >= 1 && s[0] <= 0x7F then 1
    else if |s| >= 2 && 0xC2 <= s[0] <= 0xDF && Tail(s[1]) then 2
    else if |s| >= 3 && Tail(s[2]) &&
            ((s[0] == 0xE0 && 0xA0 <= s[1] <= 0xBF) ||
             (s[0] == 0xED && 0x80 <= s[1] <= 0x9F) ||
             (0xE1 <= s[0] <= 0xEF && s[0] != 0xED && Tail(s[1]))) then 3
    else if |s| >= 4 && Tail(s[2]) && Tail(s[3]) &&
            ((s[0] == 0xF0 && 0x90 <= s[1] <= 0xBF) ||
             (s[0] == 0xF4 && 0x80 <= s[1] <= 0x8F) ||
             (0xF1 <= s[0] <= 0xF3 && Tail(s[1]))) then 4
    else 0
  }

  predicate ValidUtf8(s: seq<byte>) {
    s == [] || (ScalarLength(s) > 0 && ValidUtf8(s[ScalarLength(s)..]))
  }

  // -------------------------------------------------------------- reader

  datatype Problem = UnknownFormat | Truncated

  /** `Panics` is the reader's out-of-bounds index of the encoding byte, which no branch guards. */
  datatype Parse = Strings(strings: map<u16, Text>) | Refused(problem: Problem) | Panics

  /** How one encoded string decodes; the pack's UTF-16 encoding stays a parameter. */
  type Utf16 = seq<byte> -> Option<Text>

  function U16At(bytes: seq<byte>, at: nat): (r: Option<u16>) {
    if at + 2 <= |bytes| then Some(256 * (bytes[at + 1] as int) + bytes[at]) else None
  }

  function U32At(bytes: seq<byte>, at: nat): (r: Option<nat>) {
    if at + 4 <= |bytes| then
      Some(0x100_0000 * (bytes[at + 3] as int) + 0x1_0000 * (bytes[at + 2] as int)
           + 0x100 * (bytes[at + 1] as int) + bytes[at])
    else None
  }

  /** The id and the text offset of entry `index`. */
  function Entry(bytes: seq<byte>, index: nat): Option<(u16, nat)> {
    match (U16At(bytes, 12 + index * 6), U32At(bytes, 14 + index * 6))
    case (Some(id), Some(offset)) => Some((id, offset))
    case _ => None
  }

  function Decoded(encoding: byte, raw: seq<byte>, utf16: Utf16): Option<Text> {
    if encoding == 1 then if ValidUtf8(raw) then Some(raw) else None
    else if encoding == 2 then utf16(raw)
    else None
  }

  /** The text of entry `index`: from its own offset up to the next entry's. */
  function TextAt(bytes: seq<byte>, index: nat, utf16: Utf16): Option<Text>
    requires |bytes| > 4
  {
    match (Entry(bytes, index), Entry(bytes, index + 1))
    case (Some(from), Some(to)) =>
      if from.1 <= to.1 <= |bytes| then Decoded(bytes[4], bytes[from.1..to.1], utf16) else None
    case _ => None
  }

  function Count(bytes: seq<byte>): u16 {
    if U16At(bytes, 8).Some? then U16At(bytes, 8).value else 0
  }

  function AliasCount(bytes: seq<byte>): u16 {
    if U16At(bytes, 10).Some? then U16At(bytes, 10).value else 0
  }

  function Insert(strings: map<u16, Text>, id: u16, text: Option<Text>): map<u16, Text> {
    if text.Some? then strings[id := text.value] else strings
  }

  /** The map after the first `k` entries. */
  function EntriesRead(bytes: seq<byte>, k: nat, utf16: Utf16): map<u16, Text>
    requires |bytes| > 4
    requires forall i :: 0 <= i < k ==> Entry(bytes, i).Some?
  {
    if k == 0 then map[]
    else Insert(EntriesRead(bytes, k - 1, utf16), Entry(bytes, k - 1).value.0, TextAt(bytes, k - 1, utf16))
  }

  /** The id and the entry index of alias `k`. */
  function AliasAt(bytes: seq<byte>, k: nat): Option<(u16, u16)> {
    var at := 12 + (Count(bytes) as int + 1) * 6 + k * 4;
    match (U16At(bytes, at), U16At(bytes, at + 2))
    case (Some(id), Some(index)) => Some((id, index))
    case _ => None
  }

  /** The map after the first `k` aliases, or None once an alias lies past the end. */
  function AliasesRead(bytes: seq<byte>, entries: map<u16, Text>, k: nat, utf16: Utf16): Option<map<u16, Text>>
    requires |bytes| > 4
  {
    if k == 0 then Some(entries)
    else
      var strings, row := AliasesRead(bytes, entries, k - 1, utf16), AliasAt(bytes, k - 1);
      if strings.None? || row.None? then None
      else Some(Insert(strings.value, row.value.0, TextAt(bytes, row.value.1, utf16)))
  }

  lemma EarlierEntriesReadable(bytes: seq<byte>, count: nat)
    requires Entry(bytes, count).Some?
    ensures forall i :: 0 <= i <= count ==> Entry(bytes, i).Some?
  {
  }

  lemma {:induction false} AliasFailureStays(
    bytes: seq<byte>, entries: map<u16, Text>, j: nat, k: nat, utf16: Utf16)
    requires |bytes| > 4 && j <= k
    requires AliasesRead(bytes, entries, j, utf16).None?
    ensures AliasesRead(bytes, entries, k, utf16).None?
  {
    if j < k {
      AliasFailureStays(bytes, entries, j, k - 1, utf16);
    }
  }

  /** What reading `bytes` answers. */
  function Parsed(bytes: seq<byte>, utf16: Utf16): Parse {
    if U32At(bytes, 0) != Some(5) then Refused(UnknownFormat)
    else if |bytes| == 4 then Panics
    else if Entry(bytes, Count(bytes)).None? || Entry(bytes, Count(bytes)).value.1 > |bytes| then Refused(Truncated)
    else
      EarlierEntriesReadable(bytes, Count(bytes));
      match AliasesRead(bytes, EntriesRead(bytes, Count(bytes), utf16), AliasCount(bytes), utf16)
      case Some(strings) => Strings(strings)
      case None => Refused(Truncated)
  }

  lemma EntriesStep(bytes: seq<byte>, k: nat, utf16: Utf16)
    requires |bytes| > 4 && forall i :: 0 <= i <= k ==> Entry(bytes, i).Some?
    ensures EntriesRead(bytes, k + 1, utf16)
         == Insert(EntriesRead(bytes, k, utf16), Entry(bytes, k).value.0, TextAt(bytes, k, utf16))
  {
  }

  /** The reader's two insertion loops. */
  method Read(bytes: seq<byte>, utf16: Utf16) returns (r: Parse)
    ensures r == Parsed(bytes, utf16)
  {
    if U32At(bytes, 0) != Some(5) {
      return Refused(UnknownFormat);
    }
    if |bytes| <= 4 {
      return Panics;
    }
    var count, aliases := Count(bytes), AliasCount(bytes);
    var sentinel := Entry(bytes, count);
    if sentinel.None? || sentinel.value.1 > |bytes| {
      return Refused(Truncated);
    }
    EarlierEntriesReadable(bytes, count);
    var strings := ReadEntries(bytes, count, utf16);
    ghost var entries := strings;
    for alias := 0 to aliases
      invariant AliasesRead(bytes, entries, alias, utf16) == Some(strings)
    {
      var row := AliasAt(bytes, alias);
      if row.None? {
        AliasFailureStays(bytes, entries, alias + 1, aliases, utf16);
        return Refused(Truncated);
      }
      var value := TextAt(bytes, row.value.1, utf16);
      if value.Some? {
        strings := strings[row.value.0 := value.value];
      }
    }
    return Strings(strings);
  }

  /** The first of the two: an entry whose bytes are no text is passed over. */
  method ReadEntries(bytes: seq<byte>, count: nat, utf16: Utf16) returns (strings: map<u16, Text>)
    requires |bytes| > 4 && forall i :: 0 <= i <= count ==> Entry(bytes, i).Some?
    ensures strings == EntriesRead(bytes, count, utf16)
  {
    strings := map[];
    for index := 0 to count
      invariant strings == EntriesRead(bytes, index, utf16)
    {
      EntriesStep(bytes, index, utf16);
      var value := TextAt(bytes, index, utf16);
      if value.Some? {
        strings := strings[Entry(bytes, index).value.0 := value.value];
      }
    }
  }

  // -------------------------------------------------------------- writer

  type Named = seq<(u16, Text)>

  type Aliases = seq<(u16, u16)>

  /** The low 16 bits, little end first. */
  function Le16(n: nat): (s: seq<byte>)
    ensures |s| == 2
  {
    [n % 256, n / 256 % 256]
  }

  /** The low 32 bits, little end first. */
  function Le32(n: nat): (s: seq<byte>)
    ensures |s| == 4
  {
    [n % 256, n / 0x100 % 256, n / 0x1_0000 % 256, n / 0x100_0000 % 256]
  }

  /** The texts of the first `k` strings, one after another. */
  function Texts(strings: Named, k: nat): seq<byte>
    requires k <= |strings|
  {
    if k == 0 then [] else Texts(strings, k - 1) + strings[k - 1].1
  }

  /** Where the text of string `i` starts; for `i == |strings|`, the length of the pack. */
  function Offset(strings: Named, aliases: Aliases, i: nat): nat
    requires i <= |strings|
  {
    12 + (|strings| + 1) * 6 + |aliases| * 4 + |Texts(strings, i)|
  }

  function Header(strings: Named, aliases: Aliases): (s: seq<byte>)
    ensures |s| == 12
  {
    [5, 0, 0, 0, 1, 0, 0, 0] + Le16(|strings|) + Le16(|aliases|)
  }

  function Row(id: u16, offset: nat): (s: seq<byte>)
    ensures |s| == 6
  {
    Le16(id) + Le32(offset)
  }

  function AliasRow(alias: (u16, u16)): (s: seq<byte>)
    ensures |s| == 4
  {
    Le16(alias.0) + Le16(alias.1)
  }

  function EntryTable(strings: Named, aliases: Aliases, k: nat): (s: seq<byte>)
    requires k <= |strings|
    ensures |s| == k * 6
  {
    if k == 0 then []
    else EntryTable(strings, aliases, k - 1) + Row(strings[k - 1].0, Offset(strings, aliases, k - 1))
  }

  function AliasTable(aliases: Aliases, k: nat): (s: seq<byte>)
    requires k <= |aliases|
    ensures |s| == k * 4
  {
    if k == 0 then [] else AliasTable(aliases, k - 1) + AliasRow(aliases[k - 1])
  }

  /** The head of a pack: everything before its texts. */
  function Head(strings: Named, aliases: Aliases): (s: seq<byte>)
    ensures |s| == Offset(strings, aliases, 0)
  {
    Header(strings, aliases) + EntryTable(strings, aliases, |strings|)
    + Row(0, Offset(strings, aliases, |strings|)) + AliasTable(aliases, |aliases|)
  }

  function Packed(strings: Named, aliases: Aliases): (s: seq<byte>)
    ensures |s| == Offset(strings, aliases, |strings|)
  {
    Head(strings, aliases) + Texts(strings, |strings|)
  }

  /** One pass of each of the writer's loops, after `front` bytes. */
  lemma RowWritten(front: seq<byte>, strings: Named, aliases: Aliases, i: nat, offset: nat)
    requires i < |strings| && offset == Offset(strings, aliases, i)
    ensures front + EntryTable(strings, aliases, i) + Le16(strings[i].0) + Le32(offset)
         == front + EntryTable(strings, aliases, i + 1)
    ensures offset + |strings[i].1| == Offset(strings, aliases, i + 1)
  {
    var table, id, at := EntryTable(strings, aliases, i), Le16(strings[i].0), Le32(offset);
    assert front + table + id + at == front + (table + (id + at));
  }

  lemma AliasWritten(front: seq<byte>, aliases: Aliases, i: nat)
    requires i < |aliases|
    ensures front + AliasTable(aliases, i) + Le16(aliases[i].0) + Le16(aliases[i].1)
         == front + AliasTable(aliases, i + 1)
  {
    var table, id, index := AliasTable(aliases, i), Le16(aliases[i].0), Le16(aliases[i].1);
    assert front + table + id + index == front + (table + (id + index));
  }

  lemma TextWritten(front: seq<byte>, strings: Named, i: nat)
    requires i < |strings|
    ensures front + Texts(strings, i) + strings[i].1 == front + Texts(strings, i + 1)
  {
    var texts, text := Texts(strings, i), strings[i].1;
    assert front + texts + text == front + (texts + text);
  }

  lemma HeadWritten(strings: Named, aliases: Aliases, offset: nat)
    requires offset == Offset(strings, aliases, |strings|)
    ensures Header(strings, aliases) + EntryTable(strings, aliases, |strings|) + Le16(0) + Le32(offset)
            + AliasTable(aliases, |aliases|) == Head(strings, aliases)
  {
    var front, id, at := Header(strings, aliases) + EntryTable(strings, aliases, |strings|), Le16(0), Le32(offset);
    assert front + id + at == front + (id + at);
  }

  /** The writer: its three loops and the running offset of the first. */
  method Write(strings: Named, aliases: Aliases) returns (bytes: seq<byte>)
    ensures bytes == Packed(strings, aliases)
  {
    bytes := [5, 0, 0, 0, 1, 0, 0, 0];
    bytes := bytes + Le16(|strings|);
    bytes := bytes + Le16(|aliases|);
    var offset := 12 + (|strings| + 1) * 6 + |aliases| * 4;
    ghost var header := bytes;
    for i := 0 to |strings|
      invariant offset == Offset(strings, aliases, i)
      invariant bytes == header + EntryTable(strings, aliases, i)
    {
      RowWritten(header, strings, aliases, i, offset);
      bytes := bytes + Le16(strings[i].0);
      bytes := bytes + Le32(offset);
      offset := offset + |strings[i].1|;
    }
    bytes := bytes + Le16(0);
    bytes := bytes + Le32(offset);
    ghost var table := bytes;
    for i := 0 to |aliases|
      invariant bytes == table + AliasTable(aliases, i)
    {
      AliasWritten(table, aliases, i);
      bytes := bytes + Le16(aliases[i].0);
      bytes := bytes + Le16(aliases[i].1);
    }
    HeadWritten(strings, aliases, offset);
    ghost var head := bytes;
    for i := 0 to |strings|
      invariant bytes == head + Texts(strings, i)
    {
      TextWritten(head, strings, i);
      bytes := bytes + strings[i].1;
    }
  }

  // ---------------------------------------------------------- round trip

  /** The counts fit their fields, the length fits an offset and each alias names a string. */
  predicate Fits(strings: Named, aliases: Aliases) {
    && |strings| < 0x1_0000
    && |aliases| < 0x1_0000
    && Offset(strings, aliases, |strings|) < 0x1_0000_0000
    && forall i :: 0 <= i < |aliases| ==> aliases[i].1 < |strings|
  }

  /** Inserting the first `k` strings in order, a later one replacing an earlier one of the same id. */
  function Inserted(strings: Named, k: nat): map<u16, Text>
    requires k <= |strings|
  {
    if k == 0 then map[] else Inserted(strings, k - 1)[strings[k - 1].0 := strings[k - 1].1]
  }

  /** Then the first `k` aliases, each with the text of the string it names. */
  function WithAliases(strings: Named, aliases: Aliases, k: nat): map<u16, Text>
    requires k <= |aliases|
    requires forall i :: 0 <= i < |aliases| ==> aliases[i].1 < |strings|
  {
    if k == 0 then Inserted(strings, |strings|)
    else WithAliases(strings, aliases, k - 1)[aliases[k - 1].0 := strings[aliases[k - 1].1].1]
  }

  lemma ReadsLe16(bytes: seq<byte>, at: nat, n: u16)
    requires at + 2 <= |bytes| && bytes[at..at + 2] == Le16(n)
    ensures U16At(bytes, at) == Some(n)
  {
    assert bytes[at] == bytes[at..at + 2][0] && bytes[at + 1] == bytes[at..at + 2][1];
  }

  lemma ReadsLe32(bytes: seq<byte>, at: nat, n: nat)
    requires n < 0x1_0000_0000
    requires at + 4 <= |bytes| && bytes[at..at + 4] == Le32(n)
    ensures U32At(bytes, at) == Some(n)
  {
    var s := bytes[at..at + 4];
    assert bytes[at] == s[0] && bytes[at + 1] == s[1] && bytes[at + 2] == s[2] && bytes[at + 3] == s[3];
    assert n / 0x100 == n / 0x1_0000 * 256 + n / 0x100 % 256;
    assert n / 0x1_0000 == n / 0x100_0000 * 256 + n / 0x1_0000 % 256;
  }

  lemma {:induction false} EntryTableAt(strings: Named, aliases: Aliases, i: nat, k: nat)
    requires i < k <= |strings|
    ensures EntryTable(strings, aliases, k)[i * 6..i * 6 + 6] == Row(strings[i].0, Offset(strings, aliases, i))
  {
    var front, last := EntryTable(strings, aliases, k - 1), Row(strings[k - 1].0, Offset(strings, aliases, k - 1));
    Middle(front + last, [], front, last, i * 6, if i < k - 1 then i * 6 + 6 else i * 6);
    if i < k - 1 {
      EntryTableAt(strings, aliases, i, k - 1);
    }
  }

  lemma {:induction false} AliasTableAt(aliases: Aliases, i: nat, k: nat)
    requires i < k <= |aliases|
    ensures AliasTable(aliases, k)[i * 4..i * 4 + 4] == AliasRow(aliases[i])
  {
    if i < k - 1 {
      AliasTableAt(aliases, i, k - 1);
    }
  }

  lemma {:induction false} TextsGrow(strings: Named, i: nat, k: nat)
    requires i <= k <= |strings|
    ensures |Texts(strings, i)| <= |Texts(strings, k)|
    ensures Texts(strings, k)[..|Texts(strings, i)|] == Texts(strings, i)
  {
    if i < k {
      TextsGrow(strings, i, k - 1);
    }
  }

  /** A slice of the middle of a concatenation. */
  lemma Middle(whole: seq<byte>, a: seq<byte>, b: seq<byte>, c: seq<byte>, i: nat, j: nat)
    requires whole == a + b + c && i <= j <= |b|
    ensures whole[|a| + i..|a| + j] == b[i..j]
  {
  }

  lemma ReadsRow(bytes: seq<byte>, i: nat, id: u16, offset: nat)
    requires offset < 0x1_0000_0000
    requires 18 + i * 6 <= |bytes| && bytes[12 + i * 6..18 + i * 6] == Row(id, offset)
    ensures Entry(bytes, i) == Some((id, offset))
  {
    var row := bytes[12 + i * 6..18 + i * 6];
    assert bytes[12 + i * 6..14 + i * 6] == row[..2] && bytes[14 + i * 6..18 + i * 6] == row[2..];
    ReadsLe16(bytes, 12 + i * 6, id);
    ReadsLe32(bytes, 14 + i * 6, offset);
  }

  lemma ReadsAliasRow(bytes: seq<byte>, i: nat, alias: (u16, u16))
    requires var at := 12 + (Count(bytes) as int + 1) * 6 + i * 4;
             at + 4 <= |bytes| && bytes[at..at + 4] == AliasRow(alias)
    ensures AliasAt(bytes, i) == Some(alias)
  {
    var at := 12 + (Count(bytes) as int + 1) * 6 + i * 4;
    var row := bytes[at..at + 4];
    assert bytes[at..at + 2] == row[..2] && bytes[at + 2..at + 4] == row[2..];
    ReadsLe16(bytes, at, alias.0);
    ReadsLe16(bytes, at + 2, alias.1);
  }

  lemma ReadsHeader(strings: Named, aliases: Aliases)
    requires Fits(strings, aliases)
    ensures var bytes := Packed(strings, aliases);
            U32At(bytes, 0) == Some(5) && bytes[4] == 1 && Count(bytes) == |strings| && AliasCount(bytes) == |aliases|
  {
    var bytes := Packed(strings, aliases);
    var header := Header(strings, aliases);
    assert bytes[..12] == header;
    assert bytes[8..10] == header[8..10] == Le16(|strings|);
    assert bytes[10..12] == header[10..12] == Le16(|aliases|);
    ReadsLe16(bytes, 8, |strings|);
    ReadsLe16(bytes, 10, |aliases|);
  }

  lemma ReadsSentinel(strings: Named, aliases: Aliases)
    requires Fits(strings, aliases)
    ensures Entry(Packed(strings, aliases), |strings|) == Some((0, Offset(strings, aliases, |strings|)))
  {
    var bytes, n := Packed(strings, aliases), |strings|;
    var front, end := Header(strings, aliases) + EntryTable(strings, aliases, n), Row(0, Offset(strings, aliases, n));
    var rest := AliasTable(aliases, |aliases|) + Texts(strings, n);
    assert bytes == front + end + rest;
    Middle(bytes, front, end, rest, 0, 6);
    ReadsRow(bytes, n, 0, Offset(strings, aliases, n));
  }

  lemma ReadsEntry(strings: Named, aliases: Aliases, i: nat)
    requires Fits(strings, aliases) && i < |strings|
    ensures Entry(Packed(strings, aliases), i) == Some((strings[i].0, Offset(strings, aliases, i)))
  {
    var bytes, n := Packed(strings, aliases), |strings|;
    var header, table := Header(strings, aliases), EntryTable(strings, aliases, n);
    var rest := Row(0, Offset(strings, aliases, n)) + AliasTable(aliases, |aliases|) + Texts(strings, n);
    assert bytes == header + table + rest;
    TextsGrow(strings, i, n);
    EntryTableAt(strings, aliases, i, n);
    Middle(bytes, header, table, rest, i * 6, i * 6 + 6);
    ReadsRow(bytes, i, strings[i].0, Offset(strings, aliases, i));
  }

  /** The offset of the entry after string `i`, an entry or the sentinel. */
  lemma ReadsNextOffset(strings: Named, aliases: Aliases, i: nat)
    requires Fits(strings, aliases) && i < |strings|
    ensures var next := Entry(Packed(strings, aliases), i + 1);
            next.Some? && next.value.1 == Offset(strings, aliases, i + 1)
  {
    if i + 1 < |strings| {
      ReadsEntry(strings, aliases, i + 1);
    } else {
      ReadsSentinel(strings, aliases);
    }
  }

  lemma TextsAt(strings: Named, i: nat)
    requires i < |strings|
    ensures |Texts(strings, i)| <= |Texts(strings, i + 1)| <= |Texts(strings, |strings|)|
    ensures Texts(strings, |strings|)[|Texts(strings, i)|..|Texts(strings, i + 1)|] == strings[i].1
  {
    var all, upTo := Texts(strings, |strings|), Texts(strings, i + 1);
    TextsGrow(strings, i + 1, |strings|);
    assert all[|Texts(strings, i)|..|upTo|] == all[..|upTo|][|Texts(strings, i)|..];
  }

  lemma ReadsText(strings: Named, aliases: Aliases, i: nat, utf16: Utf16)
    requires Fits(strings, aliases) && i < |strings|
    ensures |Packed(strings, aliases)| > 4
    ensures TextAt(Packed(strings, aliases), i, utf16) == Some(strings[i].1)
  {
    var bytes, head, texts := Packed(strings, aliases), Head(strings, aliases), Texts(strings, |strings|);
    var from, to := |Texts(strings, i)|, |Texts(strings, i + 1)|;
    assert bytes[4] == 1 by { ReadsHeader(strings, aliases); }
    ReadsEntry(strings, aliases, i);
    ReadsNextOffset(strings, aliases, i);
    TextsAt(strings, i);
    assert bytes == head + texts + [];
    Middle(bytes, head, texts, [], from, to);
    assert bytes[Offset(strings, aliases, i)..Offset(strings, aliases, i + 1)] == strings[i].1;
  }

  lemma ReadsAlias(strings: Named, aliases: Aliases, i: nat)
    requires Fits(strings, aliases) && i < |aliases|
    ensures AliasAt(Packed(strings, aliases), i) == Some(aliases[i])
  {
    var bytes, table, texts := Packed(strings, aliases), AliasTable(aliases, |aliases|), Texts(strings, |strings|);
    var front := Header(strings, aliases) + EntryTable(strings, aliases, |strings|)
                 + Row(0, Offset(strings, aliases, |strings|));
    assert Count(bytes) == |strings| by { ReadsHeader(strings, aliases); }
    assert bytes == front + table + texts;
    AliasTableAt(aliases, i, |aliases|);
    Middle(bytes, front, table, texts, i * 4, i * 4 + 4);
    ReadsAliasRow(bytes, i, aliases[i]);
  }

  /** Entry `i` of `bytes` reads as string `i`. */
  predicate ReadsBack(bytes: seq<byte>, strings: Named, i: nat, utf16: Utf16)
    requires |bytes| > 4 && i < |strings|
  {
    && Entry(bytes, i).Some?
    && Entry(bytes, i).value.0 == strings[i].0
    && TextAt(bytes, i, utf16) == Some(strings[i].1)
  }

  lemma {:induction false} EntriesAreInserted(bytes: seq<byte>, strings: Named, k: nat, utf16: Utf16)
    requires |bytes| > 4 && k <= |strings|
    requires forall i :: 0 <= i < |strings| ==> ReadsBack(bytes, strings, i, utf16)
    ensures forall i :: 0 <= i < k ==> Entry(bytes, i).Some?
    ensures EntriesRead(bytes, k, utf16) == Inserted(strings, k)
  {
    if k > 0 {
      EntriesAreInserted(bytes, strings, k - 1, utf16);
      assert ReadsBack(bytes, strings, k - 1, utf16);
    }
  }

  lemma {:induction false} AliasesAreInserted(
    bytes: seq<byte>, strings: Named, aliases: Aliases, k: nat, utf16: Utf16)
    requires |bytes| > 4 && k <= |aliases|
    requires forall i :: 0 <= i < |strings| ==> ReadsBack(bytes, strings, i, utf16)
    requires forall i :: 0 <= i < |aliases| ==> aliases[i].1 < |strings| && AliasAt(bytes, i) == Some(aliases[i])
    ensures AliasesRead(bytes, Inserted(strings, |strings|), k, utf16) == Some(WithAliases(strings, aliases, k))
  {
    if k > 0 {
      AliasesAreInserted(bytes, strings, aliases, k - 1, utf16);
      assert ReadsBack(bytes, strings, aliases[k - 1].1, utf16);
    }
  }

  /** Reading a written pack gives back what was written, whatever the UTF-16 branch would answer. */
  lemma RoundTrip(strings: Named, aliases: Aliases, utf16: Utf16)
    requires Fits(strings, aliases)
    ensures Parsed(Packed(strings, aliases), utf16) == Strings(WithAliases(strings, aliases, |aliases|))
  {
    var bytes := Packed(strings, aliases);
    ReadsHeader(strings, aliases);
    ReadsSentinel(strings, aliases);
    forall i | 0 <= i < |strings|
      ensures ReadsBack(bytes, strings, i, utf16)
    {
      ReadsEntry(strings, aliases, i);
      ReadsText(strings, aliases, i, utf16);
    }
    forall i | 0 <= i < |aliases| ensures AliasAt(bytes, i) == Some(aliases[i]) {
      ReadsAlias(strings, aliases, i);
    }
    EntriesAreInserted(bytes, strings, |strings|, utf16);
    AliasesAreInserted(bytes, strings, aliases, |aliases|, utf16);
  }

  /**
   Every proper prefix of a written pack is refused, wherever the cut falls, with one exception: the
   first four bytes alone pass the format test and then panic.
   */
  lemma PrefixOutcome(strings: Named, aliases: Aliases, cut: nat, utf16: Utf16)
    requires Fits(strings, aliases) && cut < |Packed(strings, aliases)|
    ensures Parsed(Packed(strings, aliases)[..cut], utf16)
         == if cut < 4 then Refused(UnknownFormat) else if cut == 4 then Panics else Refused(Truncated)
  {
    var bytes, prefix := Packed(strings, aliases), Packed(strings, aliases)[..cut];
    ReadsHeader(strings, aliases);
    ReadsSentinel(strings, aliases);
    if cut > 4 {
      assert Count(prefix) == if cut < 10 then 0 else |strings|;
    }
  }

  /** The reader panics on one input only. */
  lemma PanicsOnlyOnBareMagic(bytes: seq<byte>, utf16: Utf16)
    ensures Parsed(bytes, utf16) == Panics <==> bytes == [5, 0, 0, 0]
  {
  }
}
