# Verification model

Dafny models of six parts of the desktop application whose correctness spans
loops, whole runs or two pieces of code that must agree. Every function of the
code is modelled with its own branches and edge cases. Code that changes state
step by step is a method or a class proved against a specification function,
and the properties are lemmas about those functions over every input, every run
or every interleaving.

- **Chromium language packs** (`LanguagePack`, `Utf8`, `PackReading`). The reader
  of a version 5 pack, on any bytes, and the writer it must undo: a little-endian
  header, an offset table with an end sentinel, an alias table and the texts. Texts
  are UTF-8 (sections 3 and 4 of RFC 3629).
- **Rust comments and literals** (`RustEraser`, `RustSecondPass`, `RustPrinter`,
  `RustLongEscapes`, `RustUnended`). The scanner that blanks nested comments,
  strings, raw strings and characters, what it makes of its own output, a printer of
  code, comments and literals that it takes apart again, the literals it takes for
  code and the texts it refuses.
- **Pairing and the relay** (`PairingToken`, `Pairing`, `RelayLedger`, `Relay`).
  The unpadded base64url of a pairing token (sections 3.2 and 5 of RFC 4648) and
  its constant-time comparison; the one-shot session with an `await` in the
  middle of `authorize`; and the request multiplexer whose callbacks may call it
  again before they return.
- **The merged thread list** (`Texts`, `ThreadPages`, `ThreadPaging`,
  `ThreadListing`, `ThreadRuntimes`, `ThreadRecord`, `ThreadHomes`). Pages of several
  machines become one list with a composite cursor, and each thread gets one machine.
- **Versioned state** (`ModelInstall`, `RecognizerCache`, `InputMarkWatch`). The
  speech model's install under generations and versions, the cache of one loaded
  recognizer, and the window with its one poller thread.
- **The login service** (`LoginService`, `LoginActivation`). One launch's activation,
  start request, recoveries and fallback against an arbitrary outside service.

`dafny verify dfyconfig.toml` checks the project. `Wrappers` holds the shared
`Option` and `Result`, and `Bytes` the byte type.

## What the proofs found

- The pack reader indexes the encoding byte after checking four bytes only. It
  panics on the input 5, 0, 0, 0 and on no other (`PanicsOnlyOnBareMagic`), so a
  written pack cut to four bytes panics and one cut to any other shorter length
  is refused (`PrefixOutcome`).
- A list answered by this computer's runtime before its fleet id is known moves a
  thread of this computer to the paired machine whose copy it lists.
  `AnEmptyOwnPageMovesACopy` shows such a list and `MovedExactly` says exactly
  which lists do so. The comment above `thread_runtimes` promises that such a
  thread still lives here.
- The Rust scanner is not idempotent: its first pass can make a literal that a
  second pass erases (`SecondPassErasesMore`). `SecondPassExactly` says for which
  inputs: those where two kept quotes stand around a comment or literal, or around
  a backslash and one. A second pass never fails.
- The Rust scanner's doc comment says that it removes literals. Its pattern takes
  one character after a backslash, so a character literal with a longer escape,
  such as a hexadecimal one, comes out whole (`AHexEscapeIsKept`), and its closing
  quote may begin a literal that hides code (`AHexEscapeHidesCode`).
  `CharacterScanned` says which character literals are removed and
  `LongCharacterKeptExactly` when the others come out whole.
- A launch reaches all its bounds together: two registrations, two start requests
  and three unregistrations (`BoundsAreReached`).

## Model

| member | source | states |
|---|---|---|
| `LanguagePack.Read` | src-tauri/src/cef_locale.rs:19-77 | The reader's loops answer, for every byte string, exactly the specified map, refusal or panic. |
| `LanguagePack.ReadEntries` | src-tauri/src/cef_locale.rs:58-65 | The entry loop inserts in table order, a later entry replacing an earlier one of the same id, and passes over bytes that are no text. |
| `LanguagePack.AliasFailureStays` | src-tauri/src/cef_locale.rs:67-71 | Once one alias row lies past the end no longer prefix of the alias table reads, so returning at the first failure is the same as failing. |
| `LanguagePack.Write` | src-tauri/src/browser_language.rs:304-324 | The writer's three loops with their running offset produce the layout whose offsets are the sums of the text lengths before them. |
| `LanguagePack.ReadsHeader` | src-tauri/src/cef_locale.rs:30-37 | In a written pack the reader finds the version, the encoding and both counts. |
| `LanguagePack.ReadsEntry` | src-tauri/src/cef_locale.rs:38 | Entry `i` of a written pack is string `i`'s id and the offset at which its text starts. |
| `LanguagePack.ReadsSentinel` | src-tauri/src/cef_locale.rs:55-57 | The entry after the last of a written pack ends at the pack's length, so the truncation check passes. |
| `LanguagePack.ReadsText` | src-tauri/src/cef_locale.rs:39-54 | The slice between two neighbouring offsets of a written pack is string `i` and decodes to it. |
| `LanguagePack.ReadsAlias` | src-tauri/src/cef_locale.rs:66-71 | Alias row `i` of a written pack reads back as it was given. |
| `LanguagePack.RoundTrip` | src-tauri/src/cef_locale.rs:19-77 | Reading a written pack gives the map made by inserting the strings in order and then each alias with its target's text, later inserts winning, for all packs whose counts, length and alias indices fit their fields. |
| `LanguagePack.PrefixOutcome` | src-tauri/src/cef_locale.rs:30-57 | Every proper prefix of a written pack is refused as unknown below four bytes, panics at four, and is refused as truncated from five on, wherever the cut falls. |
| `LanguagePack.PanicsOnlyOnBareMagic` | src-tauri/src/cef_locale.rs:30-33 | The reader indexes out of bounds on one input and on no other. |
| `Utf8.TextIsEncoded` | src-tauri/src/cef_locale.rs:43 | The byte patterns by which text is recognised admit exactly the encodings of sequences of scalar values. |
| `PackReading.OutcomeExactly` | src-tauri/src/cef_locale.rs:30-71 | For any bytes: refused as unknown, fatal, or read, by the first four bytes, the length, and whether both tables and the texts end inside. |
| `PackReading.ReadingExactly` | src-tauri/src/cef_locale.rs:38-76 | Of any input that is read, in its bytes: an id has a text exactly when some entry or alias of that id names a slice that is this text in the pack's encoding, and no later one of that id names a slice that is any text. |
| `PackReading.OtherEncodingsReadNothing` | src-tauri/src/cef_locale.rs:42-53 | With an encoding byte other than 1 and 2 nothing is read. |
| `PackReading.ACompressedResourceIsPassedOver` | src-tauri/src/cef_locale.rs:61-64 | A concrete pack whose one entry is no text reads as the empty map. |
| `RustEraser.CommentEnd` | core/scripts/check-core-boundary.py:73-85 | The depth-counting loop finds the end of the nested comment that the recursive definition gives, or none when it has no end. |
| `RustEraser.ScanConstruct` | core/scripts/check-core-boundary.py:69-92 | The branches, in their order, find the construct at the position, with its exact end, or its missing end, or that there is none. |
| `RustEraser.RustCode` | core/scripts/check-core-boundary.py:64-98 | The loop over positions answers the same text or failure as the recursion on what is left to read, and it terminates. |
| `RustEraser.OutputHoldsNoComment` | core/scripts/check-core-boundary.py:64-98 | No output holds two neighbouring characters that open a line or a block comment. |
| `RustEraser.FrontIsConstruct` | core/scripts/check-core-boundary.py:69-92 | What is blanked is by itself a complete comment or literal: scanning it alone ends exactly at its end. |
| `RustEraser.EveryCharacterAccounted` | core/scripts/check-core-boundary.py:64-98 | Every accepted input splits into kept characters in order and complete comments and literals, and the output is those characters with one space for each construct. |
| `RustEraser.OutputIsNoLonger` | core/scripts/check-core-boundary.py:64-98 | The output is never longer than the input. |
| `RustSecondPass.UnchangedExactly` | core/scripts/check-core-boundary.py:64-98 | A text comes out as it went in exactly when no position of it reads as a comment or a literal, closed or not. |
| `RustSecondPass.ConstructEndsClean` | core/scripts/check-core-boundary.py:70-92 | A removed construct ends in a backslash only as a line comment, so removing it never changes which later quote is escaped. |
| `RustSecondPass.UnclosedStays` | core/scripts/check-core-boundary.py:91 | Text in which no string closes has an output in which none closes: blanking constructs, even right behind a backslash, makes no closing quote. |
| `RustSecondPass.RawStays` | core/scripts/check-core-boundary.py:86 | An output begins a raw string only where the input did. |
| `RustSecondPass.CharacterNeedsGap` | core/scripts/check-core-boundary.py:91 | The only character literal that the first pass can make stands around the space of a construct. |
| `RustSecondPass.SecondPassNeverFails` | core/scripts/check-core-boundary.py:85-89 | The output holds no comment or raw string without its end, so a second pass always succeeds. |
| `RustSecondPass.SecondPassByOutput` | core/scripts/check-core-boundary.py:64-98 | A second pass changes nothing if and only if the output holds no two quotes around a space or around a backslash and a space. |
| `RustSecondPass.SecondPassExactly` | core/scripts/check-core-boundary.py:64-98 | For every accepted input, a second pass changes nothing if and only if nowhere in the input do two kept quotes stand around a comment or literal, or around a backslash and one. |
| `RustSecondPass.SecondPassErasesMore` | core/scripts/check-core-boundary.py:91-97 | One input that meets the condition: a quoted comment becomes a quoted space, which a second pass erases. |
| `RustPrinter.PrintedTextErases` | core/scripts/check-core-boundary.py:64-98 | For every list of code, line comments, comment trees, strings, characters and raw strings, the scanner of the printed text gives the code in order with one space for each other segment. Code may hold apostrophes at which no character literal reads, and a character literal with a long escape counts as such code; neither may join what follows it. |
| `RustPrinter.CommentScanned` | core/scripts/check-core-boundary.py:75-84 | A printed comment tree, at any depth, is consumed whole up to its closing and leaves the depth as it was; its text may hold lone stars and slashes. |
| `RustPrinter.BlockScanned` | core/scripts/check-core-boundary.py:73-85 | A printed block comment is one construct, whatever follows it. |
| `RustPrinter.LineScanned` | core/scripts/check-core-boundary.py:70-72 | A line comment ends before the newline that follows it, or at the end of the text. |
| `RustPrinter.QuotedScanned` | core/scripts/check-core-boundary.py:91-92 | A string of plain and escaped characters, long escapes included, with an optional `b` or `c` is one construct, whatever follows it. |
| `RustPrinter.CharacterScanned` | core/scripts/check-core-boundary.py:91-92 | Whatever follows it, a character literal with an optional `b` is one construct if and only if it holds one character or a backslash and one character; with a longer escape its first character is kept as code. |
| `RustPrinter.ClosingFound` | core/scripts/check-core-boundary.py:87-90 | The first closing of a raw string is its own when the content holds none, even where the content ends in a part of one. |
| `RustPrinter.RawScanned` | core/scripts/check-core-boundary.py:86-90 | A raw string with any letters and number of hashes is one construct, whatever follows it. |
| `RustPrinter.CodeScanned` | core/scripts/check-core-boundary.py:93-96 | Code, lifetimes included, is kept character by character when none of its apostrophes opens a literal and its end does not join what follows it. |
| `RustPrinter.LongIsCode` | core/scripts/check-core-boundary.py:91-96 | A character literal with a long escape opens no comment, string or raw string for the scanner. |
| `RustLongEscapes.LongCharacterKeptExactly` | core/scripts/check-core-boundary.py:91-96 | In an accepted text such a literal comes out whole, and what follows it as if alone, if and only if what follows does not end a literal that its closing quote begins; otherwise that literal is blanked. |
| `RustLongEscapes.AHexEscapeIsKept` | core/scripts/check-core-boundary.py:91 | A hexadecimal character literal comes out as it went in. |
| `RustLongEscapes.AHexEscapeHidesCode` | core/scripts/check-core-boundary.py:91 | After one, a comma and a quoted double quote, the code up to the next double quote is blanked. |
| `RustUnended.OpenCommentIsRefused` | core/scripts/check-core-boundary.py:85 | A block comment that nothing closes is refused as such. |
| `RustUnended.OpenRawStringIsRefused` | core/scripts/check-core-boundary.py:88-89 | A raw string whose own closing does not follow is refused as such. |
| `RustUnended.RefusedAfterCode` | core/scripts/check-core-boundary.py:64-98 | Code before either changes nothing of the refusal. |
| `PairingToken.EncodeToken` | browser-control/src/pairing.ts:135-140 | Padded base64, two character replacements and a stripped tail give the base64url letters of the bits, six at a time, without padding. |
| `PairingToken.StripsExactly` | browser-control/src/pairing.ts:139 | Removing the final run of `=` removes the padding and nothing of the token. |
| `PairingToken.ReplacedLetters` | browser-control/src/pairing.ts:139 | Replacing `+` and `/` turns the letters of one alphabet into those of the other. |
| `PairingToken.DecodingInvertsEncoding` | browser-control/src/pairing.ts:135-140 | A string decodes to a byte string exactly when it is that byte string's encoding, so the decoder undoes the encoder and accepts nothing else. |
| `PairingToken.EncodingIsInjective` | browser-control/src/pairing.ts:135-140 | Two byte strings with one encoding are equal. |
| `PairingToken.TokenMatches` | browser-control/src/pairing.ts:142-149 | The accumulated difference is zero exactly when the presented bytes equal the encoding's bytes, lengths included. |
| `PairingToken.OneByteStringPerToken` | browser-control/src/pairing.ts:142-149 | One presented token matches one byte string at most. |
| `PairingToken.AlphabetIsBase64Url` | browser-control/src/pairing.ts:139 | The 64 letters are those of section 5 of RFC 4648, in order. |
| `PairingToken.EncodesTheTestVectors` | browser-control/src/pairing.ts:135-140 | The test vectors of section 10 of RFC 4648, without padding. |
| `Pairing.PairingSession.constructor` | browser-control/src/pairing.ts:52-57 | A new session has no token, no terminal state and generation zero. |
| `Pairing.PairingSession.CreateHandoff` | browser-control/src/pairing.ts:59-70 | The handoff's token, expiry and new generation, or the refusal once closed; the token it replaces is overwritten with zeros. |
| `Pairing.PairingSession.Replace` | browser-control/src/pairing.ts:72-75 | The expected identity changes first, even when the handoff is then refused. |
| `Pairing.PairingSession.AuthorizeBegin` | browser-control/src/pairing.ts:77-97 | Up to the `await`: the token is consumed and overwritten before the outcome is known, and only an unexpired match waits for the verifier. |
| `Pairing.PairingSession.AuthorizeEnd` | browser-control/src/pairing.ts:97-105 | From the verifier's answer on: a changed generation is a replay whatever the answer. |
| `Pairing.PairingSession.Revoke` | browser-control/src/pairing.ts:108-114 | Revoking withdraws the token, overwrites it and makes waiting attempts stale, except after a close. |
| `Pairing.PairingSession.Close` | browser-control/src/pairing.ts:116-122 | Closing withdraws the token, overwrites it and is final. |
| `Pairing.PairingSession.InvalidateToken` | browser-control/src/pairing.ts:124-128 | The token's buffer is zeroed before it is dropped. |
| `Pairing.InvariantHolds` | browser-control/src/pairing.ts:59-122 | In every interleaving the session holds a token exactly while a handoff is unused, and an attempt is current exactly while nothing interrupted it. |
| `Pairing.IdentityHolds` | browser-control/src/pairing.ts:72-75 | The expected identity is the one last set by a replacement. |
| `Pairing.RevokedHolds` | browser-control/src/pairing.ts:108-114 | The session says revoked exactly when it was never closed and the last handoff or revocation is a revocation. |
| `Pairing.AuthorizedExactly` | browser-control/src/pairing.ts:59-122 | In every interleaving an event ends authorized if and only if it is the first, accepting answer to the first start with some handoff's token, made in time, with no handoff, revocation or close in between. |
| `Pairing.StartAnswers` | browser-control/src/pairing.ts:77-94 | What every start is answered, from the order of events alone: with an unused handoff, expiry counts before the token; without one, a close before a revocation and a revocation before a replay. |
| `Pairing.HandoffAnswers` | browser-control/src/pairing.ts:59-70 | Before a close every handoff answers a token that decodes to its own random bytes and the time two minutes later; after one it is refused. |
| `Pairing.HandedTokenWaits` | browser-control/src/pairing.ts:77-97 | The first use of the very token a handoff answered, in time and uninterrupted, waits for the verifier. |
| `Pairing.ResumeIsAnswered` | browser-control/src/pairing.ts:96-105 | A verifier's answer is taken exactly when its attempt waits and was not answered before. |
| `Pairing.ResumeAnswers` | browser-control/src/pairing.ts:97-105 | An answered attempt is a replay if and only if it was interrupted; otherwise it is authorized, rejected or a verifier error if and only if the verifier accepts, rejects or throws. |
| `Pairing.OneGrantPerHandoff` | browser-control/src/pairing.ts:84-90 | No handoff authorizes twice, however many attempts overlap. |
| `Pairing.VerifiesHandoffIdentity` | browser-control/src/pairing.ts:97 | The verifier that a start waits for is given the identity its handoff was made for and the start's own peer. |
| `Pairing.NothingAfterClose` | browser-control/src/pairing.ts:116-122 | After a close no event ends authorized, not even a verifier's answer under way, and every handoff is refused. |
| `RelayLedger.IssueKeepsOrder` | browser-control/src/index.ts:81-84 | Issuing the next id keeps the history orderly: ids counted from 1, each pending or settled once after its issue. |
| `RelayLedger.SettleKeepsOrder` | browser-control/src/index.ts:130-137 | Settling a pending id and dropping it keeps the history orderly. |
| `RelayLedger.IssuedIsPendingOrSettledOnce` | browser-control/src/index.ts:75-90 | In an orderly history the issued ids are 1 up to the last, each is pending or settled exactly once and not both, and none is left unsettled when nothing is pending. |
| `RelayLedger.KeepBalances` | browser-control/src/index.ts:164 | Keeping a newly returned unsubscribe function keeps each one either kept or called once. |
| `RelayLedger.CallNewBalances` | browser-control/src/index.ts:155-163 | Calling it at once, on a closed connection, does too. |
| `RelayLedger.CallKeptBalances` | browser-control/src/index.ts:188-194 | So does calling the next kept one during disposal. |
| `RelayLedger.NoneKeptMeansAllCalled` | browser-control/src/index.ts:176-200 | When none is kept, every unsubscribe function ever returned was called exactly once. |
| `RelayLedger.ClosingsMore` | browser-control/src/index.ts:196-198 | Rejecting one more pending request keeps the history a run of rejections, one for each request rejected. |
| `Relay.ResponseExactly` | browser-control/src/index.ts:127-137 | By the members of the record: a message resolves an id with a value exactly when it is within the limit, has that positive safe whole id, that result, no error and no method; it fails it exactly when it has an error and no result instead. |
| `Relay.OtherMessagesExactly` | browser-control/src/index.ts:118-152 | A message is an event, or closes the connection, exactly by its length and the members its record has. |
| `Relay.RelayConnection.constructor` | browser-control/src/index.ts:50-58 | A new connection is open with an empty, orderly history. |
| `Relay.RelayConnection.Open` | browser-control/src/index.ts:60-73 | Whatever the transport does while it subscribes, the connection is orderly afterwards, a thrown error leaves it closed, and a closed one has called every unsubscribe function exactly once. |
| `Relay.RelayConnection.Send` | browser-control/src/index.ts:75-90 | Refused when closed or without a method, otherwise the next id is issued; under any re-entry the history only grows and stays orderly. |
| `Relay.RelayConnection.OnEvent` | browser-control/src/index.ts:92-97 | A listener is added, except on a closed connection. |
| `Relay.RelayConnection.OnClose` | browser-control/src/index.ts:99-106 | A listener is added, or called at once on a closed connection, to no effect on the requests. |
| `Relay.RelayConnection.OffEvent` | browser-control/src/index.ts:96 | The function that `onEvent` answers removes its listener. |
| `Relay.RelayConnection.OffClose` | browser-control/src/index.ts:105 | The function that `onClose` answers removes its listener. |
| `Relay.RelayConnection.Close` | browser-control/src/index.ts:108-112 | The connection is closed afterwards with every unsubscribe function called exactly once, unless a disposal is still under way, and closing a closed one settles nothing. |
| `Relay.RelayConnection.OnMessage` | browser-control/src/index.ts:114-153 | A response settles exactly its own id, if pending, resolved with its result or failed by its error, told by the record's members; an event whose listeners make no call changes nothing; any other message rejects every pending request and closes the connection; after a close nothing changes. |
| `Relay.RelayConnection.RetainTransportListener` | browser-control/src/index.ts:155-165 | A returned unsubscribe function is kept on an open connection and called once on a closed one. |
| `Relay.RelayConnection.Terminate` | browser-control/src/index.ts:167-174 | The connection is disposed before the transport is closed; nothing is pending afterwards, and every unsubscribe function was called exactly once. |
| `Relay.RelayConnection.Dispose` | browser-control/src/index.ts:176-200 | Disposal runs once; when it returns nothing is pending or listening, each request pending before was rejected as of a closed connection and no other, and every unsubscribe function was called exactly once, through any re-entry by its callbacks. |
| `Relay.RelayConnection.NotifyCloseListeners` | browser-control/src/index.ts:180-186 | While close listeners run and re-enter, no request is issued or settled. |
| `Relay.RelayConnection.CallRemovers` | browser-control/src/index.ts:188-194 | Each kept unsubscribe function is called once, in order, and none is added meanwhile. |
| `Relay.RelayConnection.RejectPending` | browser-control/src/index.ts:195-199 | Every request still pending, and no other, is rejected as of a closed connection, and every collection emptied. |
| `Relay.RelayConnection.Callback` | browser-control/src/index.ts:60-200 | Foreign code that calls the connection any number of times, nested to any depth, and throws or not, keeps the invariant; on a closed connection it changes no request and no unsubscribe count, and without a call nothing at all. |
| `Relay.RelayConnection.AnyCall` | browser-control/src/index.ts:75-153 | Any one call from a callback keeps the invariant and only adds to the history. |
| `ThreadPages.MergeThreadPages` | src-tauri/src/chat_threads.rs:260-299 | The loops build the merged page: kept summaries naming their machine, sorted, the answering machines in order, and the next cursor. |
| `ThreadPages.SortedIsNewestFirst` | src-tauri/src/chat_threads.rs:296 | The sort puts newer summaries first. |
| `ThreadPages.SortedIsStable` | src-tauri/src/chat_threads.rs:296 | Summaries of one update time keep their order. |
| `ThreadPages.MergedPageIsSortedPermutation` | src-tauri/src/chat_threads.rs:264-296 | A merged page is a permutation of what it keeps, newest first, equal times in the order read. |
| `ThreadListing.OrderedByFirstDifference` | src-tauri/src/chat_threads.rs:296 | The order of times is that of texts: by the first difference, or by which ends. |
| `ThreadListing.MergedPageDescends` | src-tauri/src/chat_threads.rs:289-296 | A merged page is in descending order of the times its summaries give. |
| `ThreadListing.MergedPageShows` | src-tauri/src/chat_threads.rs:264-284 | A merged page shows every summary, with its machine's id, exactly as often as the pages list it, except a paired machine's copies of threads deleted here, of which it shows none. |
| `ThreadListing.WholeRunShows` | src-tauri/src/chat_threads.rs:430-454 | So does a whole run of pages, counted over every page of every machine. |
| `ThreadListing.ADeletedCopyIsLeftOut` | src-tauri/src/chat_threads.rs:275-277 | A concrete paired copy of a deleted thread is not listed. |
| `ThreadPaging.ReadPages` | src-tauri/src/chat_threads.rs:434-452 | A page loop answers the pages of the machines that answered, in order, or, when none did, this computer's last error or the general one. |
| `ThreadPaging.EveryMachineAnswered` | src-tauri/src/chat_threads.rs:434-449 | When every machine answers, the loop passes on every page. |
| `ThreadListing.AnsweredExactly` | src-tauri/src/chat_threads.rs:436-449 | The pages read are exactly those of the asked machines that answered. |
| `ThreadListing.AnsweredInOrder` | src-tauri/src/chat_threads.rs:437-449 | They stand in the order the machines were asked. |
| `ThreadListing.LocalErrorIsLast` | src-tauri/src/chat_threads.rs:446 | The error kept is that of the last failed reading of this computer's runtime, and none without one. |
| `ThreadListing.TargetsExactly` | src-tauri/src/chat_threads.rs:402-415 | A first request reads every machine from the start, in order; a cursor's request reads exactly its machines, each from its own cursor, in ascending order; garbled text is refused. |
| `ThreadPaging.InOrderIsTheCursors` | src-tauri/src/chat_threads.rs:409-414 | The next request's targets are exactly the cursor's entries, each once. |
| `ThreadPaging.CursorsOfContinuing` | src-tauri/src/chat_threads.rs:285-287 | The next cursor holds exactly the machines that have more, each with its own next cursor. |
| `ThreadPaging.OneByOneSplits` | src-tauri/src/chat_threads.rs:264-288 | What the machines contribute when each is read to its end alone is one merged page's worth and what those that have more contribute from their next cursors. |
| `ThreadPaging.AnyOrder` | src-tauri/src/chat_threads.rs:409-414 | Asking the machines in the cursor's order instead of the order before changes nothing of the total. |
| `ThreadPaging.NextTargets` | src-tauri/src/chat_threads.rs:402-415 | A request without a next cursor leaves no machine unread; any other brings every machine one page nearer its end. |
| `ThreadPaging.RunReturnsEachMachineOnce` | src-tauri/src/chat_threads.rs:434-454 | Following the next cursor from any targets ends, and the pages together return what each machine contributes alone, each summary as often. |
| `ThreadPaging.PagingReturnsEverySummaryOnce` | src-tauri/src/chat_threads.rs:432-454 | So from the first request on: paging ends with a null cursor and returns each machine's summaries exactly once, except paired copies of threads deleted here. |
| `ThreadRuntimes.FindThreadRuntimes` | src-tauri/src/chat_threads.rs:322-355 | One answer for each listed thread, in ascending order of thread, and it is the thread's home. |
| `ThreadRuntimes.BestIsTop` | src-tauri/src/chat_threads.rs:329-348 | The copy chosen is a listed one, none ranks higher and none of its rank is on a machine with a lower id; a thread has one exactly when it is listed. |
| `ThreadRuntimes.AnyListOrder` | src-tauri/src/chat_threads.rs:322-355 | Every permutation of the list gives each thread the same home, when copies of one thread from one machine with one replica mark name one owner. |
| `ThreadHomes.HomeByCases` | src-tauri/src/chat_threads.rs:322-355 | By the members of the summaries: a thread lives here when this computer lists it as its own, else on the lowest machine that does, else here when this computer lists a copy, else with the lowest machine that lists one, unless that copy names this computer. |
| `ThreadRecord.AttachState.RememberThreadRuntimes` | src-tauri/src/attach_service/state.rs:646-651 | Each named thread's machine is overwritten and no other changes. |
| `ThreadRecord.AttachState.KeepThreadRuntimes` | src-tauri/src/attach_service/state.rs:655-660 | Each named thread without a machine gets one; every known one stays. |
| `ThreadRecord.AttachState.RecordThreadList` | src-tauri/src/chat_threads.rs:361-397 | The new deleted set, fleet id and machines, and the merged page under the new deleted set. |
| `ThreadRecord.FilterTrusted` | src-tauri/src/chat_threads.rs:385-392 | Before the fleet id is known, only summaries of threads their machine runs are taken. |
| `ThreadHomes.DeletedExactly` | src-tauri/src/chat_threads.rs:237-251 | A list adds exactly the threads that this computer's first page names as deleted. |
| `ThreadHomes.FleetIdExactly` | src-tauri/src/chat_threads.rs:304-313 | The fleet id becomes the owner first named on that page by a summary that is no replica, and stays when none is. |
| `ThreadHomes.OwnThreadIsRecordedHere` | src-tauri/src/chat_threads.rs:382-383 | A thread that this computer lists as its own is recorded here, wherever it was recorded before. |
| `ThreadHomes.KnownThreadStays` | src-tauri/src/chat_threads.rs:384-394 | A list that this computer did not answer changes no thread recorded before. |
| `ThreadHomes.NewThreadIsRecorded` | src-tauri/src/chat_threads.rs:385-393 | Such a list records a new thread that some machine runs on the lowest machine that does. |
| `ThreadRecord.FleetIdIsRight` | src-tauri/src/chat_threads.rs:304-313 | A fleet id learnt from an honest list is this computer's. |
| `ThreadRecord.OursIsRankedFirst` | src-tauri/src/chat_threads.rs:336-348 | The chosen copy of a thread this computer runs is its own, or a paired copy that names this computer when its own is not listed. |
| `ThreadRecord.LivesElsewhere` | src-tauri/src/chat_threads.rs:349-354 | Such a thread is answered as living elsewhere exactly when the fleet id is unknown and only paired copies are listed. |
| `ThreadRecord.MovedExactly` | src-tauri/src/chat_threads.rs:361-397 | A list records a thread this computer runs as living elsewhere if and only if this computer answered, its fleet id is still unknown afterwards and the list keeps a copy of the thread. |
| `ThreadRecord.AnEmptyOwnPageMovesACopy` | src-tauri/src/chat_threads.rs:382-383 | A concrete such list, of honest pages each asked once, in a fleet where this computer runs the thread: an empty own page and a paired machine's copy. |
| `ThreadRecord.NotListedHere` | src-tauri/src/chat_threads.rs:304-313 | While the fleet id is unknown after a list that this computer answered, its page listed no thread it runs. |
| `ThreadRecord.OneListMovesNone` | src-tauri/src/chat_threads.rs:361-397 | A list with the fleet id known afterwards, or not answered by this computer, moves none of its threads. |
| `ThreadRecord.ListsMoveNone` | src-tauri/src/chat_threads.rs:361-397 | Over every sequence of such lists no thread this computer runs is ever recorded elsewhere, and the fleet id stays right. |
| `ModelInstall.ParakeetInstallState.constructor` | src-tauri/src/model_install.rs:140-157 | A new state is idle at generation and version zero. |
| `ModelInstall.ParakeetInstallState.Start` | src-tauri/src/model_install.rs:186-208 | An active install is answered and left alone; otherwise a new generation and version begin at zero bytes, and that generation is the one to run. |
| `ModelInstall.ParakeetInstallState.UpdateProgress` | src-tauri/src/model_install.rs:253-277 | Only the active generation's report counts, raised to what was reported before and capped by the total. |
| `ModelInstall.ParakeetInstallState.Finish` | src-tauri/src/model_install.rs:217-236 | Only the active generation's end counts; it becomes idle in a new version with the result, final unless it succeeded. |
| `ModelInstall.ParakeetInstallState.Cancel` | src-tauri/src/model_install.rs:244-250 | Cancelling asks the active install to stop and changes nothing else. |
| `ModelInstall.ParakeetInstallState.AskStatus` | src-tauri/src/model_install.rs:159-170 | Active, final and just-succeeded states answer at once, the last one only once; any other begins an inspection at the current version. |
| `ModelInstall.ParakeetInstallState.EndInspection` | src-tauri/src/model_install.rs:178-183 | A finding counts only while idle at the version its inspection began with. |
| `ModelInstall.AlwaysGood` | src-tauri/src/model_install.rs:159-277 | In every interleaving the runners are exactly the active generation, an active install shows progress within its total, and no inspection is ahead of the version. |
| `ModelInstall.OneInstallAtATime` | src-tauri/src/model_install.rs:186-208 | Two running installs are one, and it is the active one. |
| `ModelInstall.VersionsGrow` | src-tauri/src/model_install.rs:120-277 | Generations and versions never fall, and the version stays the same exactly while no install begins or ends and no finding counts. |
| `ModelInstall.ProgressNeverFalls` | src-tauri/src/model_install.rs:253-277 | Within one generation, completed and total bytes never fall and completed never exceeds total. |
| `ModelInstall.ProgressIsWhatWasReported` | src-tauri/src/model_install.rs:253-277 | While an install lasts its total is the largest reported, and what is done the most any report said up to the total known by then; both are 0 before a report. |
| `ModelInstall.EarlierInstallIsIgnored` | src-tauri/src/model_install.rs:217-277 | After a later install began, no report and no end of an earlier generation changes anything of the state. |
| `ModelInstall.FindingCountsExactly` | src-tauri/src/model_install.rs:159-184 | An inspection's finding becomes the status if and only if no install began or ended and no other finding counted since it began. |
| `ModelInstall.TicketIsKept` | src-tauri/src/model_install.rs:159-171 | An inspection under way carries the version of the idle state it was begun in. |
| `ModelInstall.ResultStays` | src-tauri/src/model_install.rs:159-242 | Once an install ends cancelled or failed, every answer until the next start is cancelled, or failed with its category and message, and every inspection under way is already stale. |
| `ModelInstall.SuccessIsAnsweredOnce` | src-tauri/src/model_install.rs:165-170 | A success is answered at once to the first status request after it and to no later one, whatever else is asked in between. |
| `ModelInstall.CancelReachesRunner` | src-tauri/src/model_install.rs:244-250 | While an install lasts its runner is asked to stop if and only if a cancel came since it began. |
| `RecognizerCache.Cache.LoadWithFallback` | src-tauri/src/dictation.rs:165-176 | Which decodings are loaded, in order: a second load only without custom words and only after one with them failed. |
| `RecognizerCache.Cache.Load` | src-tauri/src/dictation.rs:147-149 | No load begins while the slot holds a recognizer. |
| `RecognizerCache.Cache.Get` | src-tauri/src/dictation.rs:129-160 | The slot and the answer of one call, and nothing is loaded exactly when the revision does not resolve or the held recognizer fits. |
| `RecognizerCache.LoadedBy` | src-tauri/src/dictation.rs:140-157 | What the slot holds was loaded by one earlier call for its directory, stamp and decoding, and every call since reused it. |
| `RecognizerCache.EveryAnswerIsFresh` | src-tauri/src/dictation.rs:129-176 | When matching stamps mean equal files, every answer of every sequence of calls is what a fresh load would give, and the slot is empty exactly after an error. |
| `RecognizerCache.ReusesExactly` | src-tauri/src/dictation.rs:140-146 | A call loads nothing if and only if an earlier call loaded for its directory and decoding with a stamp that matches, and every call between reused it. |
| `InputMarkWatch.Watch.Request` | src-tauri/src/input_mark.rs:43-46 | The window reaches three seconds past the request, and a poller is to be started exactly when none polls. |
| `InputMarkWatch.Watch.Stop` | src-tauri/src/input_mark.rs:49-51 | The window ends and the poller is left to notice. |
| `InputMarkWatch.Watch.Tick` | src-tauri/src/input_mark.rs:55-62 | An open window is left alone; otherwise the poller is told to exit and its mark is cleared. |
| `InputMarkWatch.Watch.SpawnFailed` | src-tauri/src/input_mark.rs:91-93 | A thread that did not start clears the polling mark and not the window. |
| `InputMarkWatch.OnePoller` | src-tauri/src/input_mark.rs:77-94 | In every interleaving, failed thread starts included, at most one poller starts or lives, and the polling mark is set exactly while one does. |
| `InputMarkWatch.WindowFromLastCommand` | src-tauri/src/input_mark.rs:43-62 | While polling, the window is what the last request or stop left, whatever ticks came since. |
| `InputMarkWatch.PollerExitsExactly` | src-tauri/src/input_mark.rs:55-89 | A live poller exits at a tick if and only if the last command before it is a stop or a request three seconds or more before the tick; else the tick changes nothing. |
| `InputMarkWatch.RequestIsServed` | src-tauri/src/input_mark.rs:77-94 | After every request one poller serves it: the one that served before, or a new one. |
| `InputMarkWatch.OnePollerServesThemAll` | src-tauri/src/input_mark.rs:74-94 | Until a stop, a failed thread start or a tick past the window, the poller of a request serves on through all later requests and its window never shrinks. |
| `LoginService.Adapters.RegisterAndRecheck` | src-tauri/src/macos_runtime_service.rs:224-234 | The status is read again even after a failed registration, and a denial asks for approval. |
| `LoginService.Adapters.ActivateForSignature` | src-tauri/src/macos_runtime_service.rs:241-255 | What is asked, in order, and the activation with whether this launch registered. |
| `LoginService.Adapters.RequestEnabledRuntimeStart` | src-tauri/src/macos_runtime_service.rs:201-216 | A start request goes out only after a reading of no endpoint. |
| `LoginService.Adapters.StartEnabledRuntimeWithRecovery` | src-tauri/src/macos_runtime_service.rs:156-174 | A refused request is followed by an unregistration, a registration and a reading, each only after the one before succeeded, and one more request. |
| `LoginService.Adapters.ConfirmRequestedStart` | src-tauri/src/macos_runtime_service.rs:180-188 | Only an accepted request is confirmed, and only a reading of no running job revokes it. |
| `LoginService.Adapters.StartEnabled` | src-tauri/src/macos_runtime_service.rs:596-614 | A launch-constraint failure of an older registration is answered once by a new one, and by none after a recovery. |
| `LoginService.Adapters.StartLoginService` | src-tauri/src/macos_runtime_service.rs:576-646 | The whole launch asks and answers what the specification says, call for call. |
| `LoginService.ActivatedFacts` | src-tauri/src/macos_runtime_service.rs:241-255 | Activation registers once at most, only when it says so, makes no call of the start adapter, and answers enabled only right after reading so. |
| `LoginActivation.RegistersExactly` | src-tauri/src/macos_runtime_service.rs:241-255 | By the first reading: a launch registers at once exactly when it is not registered or not found, unregisters and registers exactly when it is enabled and the bundle's known signature is not the recorded one, and otherwise leaves the registration alone. |
| `LoginActivation.RegistrationDecides` | src-tauri/src/macos_runtime_service.rs:224-234 | What each registration and the reading after it answer; a start follows exactly a registration made and a reading of enabled. |
| `LoginActivation.ConstraintRegistersAgainExactly` | src-tauri/src/macos_runtime_service.rs:593-613 | After an accepted request whose job is not running, a launch registers again if and only if the launch constraint is violated and it has not registered before. |
| `LoginActivation.RefusalRegistersAgainExactly` | src-tauri/src/macos_runtime_service.rs:163-168 | After a refused first request it unregisters, and registers again if and only if that was done. |
| `LoginActivation.AFreshMachineIsStarted` | src-tauri/src/macos_runtime_service.rs:576-646 | On a machine where the service is not registered and everything asked succeeds, the launch registers and starts it, call for call. |
| `LoginService.RecoveredFacts` | src-tauri/src/macos_runtime_service.rs:163-173 | A recovery adds one registration, one request and one unregistration at most, and any outcome but a refused request ends on a service read as enabled. |
| `LoginService.AfterConstraintFacts` | src-tauri/src/macos_runtime_service.rs:340-346 | A registration this launch made is not made again for a launch constraint; an older one is, once. |
| `LoginService.StartedOrFellBackFacts` | src-tauri/src/macos_runtime_service.rs:593-645 | From an enabled service, a start adds one registration, two requests and two unregistrations at most, and no registration to a fresh one unless a request was refused. |
| `LoginService.LaunchIsBounded` | src-tauri/src/macos_runtime_service.rs:576-646 | Whatever the outside answers, one launch makes at most two registrations, two start requests and three unregistrations, and registers twice only after a refused start request. |
| `LoginService.BoundsAreReached` | src-tauri/src/macos_runtime_service.rs:576-646 | A newly signed runtime whose start requests are all refused reaches the three bounds together. |
| `LoginService.RequestsAreBacked` | src-tauri/src/macos_runtime_service.rs:201-216 | Every start request follows a reading of no endpoint on a service last read as enabled, so with an honest launchd on a registration it holds. |
| `LoginService.LaunchLeavesService` | src-tauri/src/macos_runtime_service.rs:626-645 | A start falls back exactly when its last service operation is an unregistration, after which nothing is held if it was carried out; any other ends on a service last read as enabled, held by an honest launchd. |
| `LoginService.OutcomeIsTold` | src-tauri/src/macos_runtime_service.rs:576-646 | The history of calls tells the answer: requested exactly when the last step is a job reading other than "not running", the endpoint outcomes exactly when it is that endpoint reading, and an inactive job exactly when the fallback follows a reading of "not running". |
| `LoginService.InactiveStartsNothing` | src-tauri/src/macos_runtime_service.rs:582-586 | A launch that finds the service not enabled never touches the start adapter, and answers its last status reading unless a registration just before was denied or refused. |

## Left out

- The UTF-16 branch of the pack reader (`cef_locale.rs:44-51`) is a parameter: every property of the reader holds whatever it answers. The writer only writes UTF-8.
- `from_args`, `load`, the bundle paths, downloads, hashes, archives and file writes around packs and models: input and output.
- LanguagePack.Write: the code truncates a count to 16 bits and an offset to 32 on the way in; the model writes the same low bits, and the round trip is stated for packs that fit, as the format cannot hold others.
- RustEraser.RustCode: the rest of the boundary check (manifests, crate and module names) is not part of the model.
- PairingToken.TokenMatches: stated for tokens below four gigabytes, since the code combines lengths with 32-bit operators; no JavaScript engine holds a longer string.
- Pairing.PairingSession.CreateHandoff: an injected `randomBytes` or `now` that throws is not modelled, and the generation counts without bound.
- Relay.RelayConnection.OnMessage: JSON text and UTF-8 decoding are one step that gives a record or fails; which listeners hear an event, in what order, and what they are given is not modelled, as each only calls back.
- Relay.RelayConnection.Callback: callbacks nest to an arbitrary but finite depth, and listeners are visited in any order; the code visits them in the order they were added.
- Relay.RelayConnection.Send: how a value is written as JSON, and the codes and reasons given to the transport's `close`.
- Pages are records: a page without a list of summaries is one with an empty list, and JSON text, sessions, wait times and the wording of errors other than those of the page loop are left out.
- ThreadRecord.AttachState.RecordThreadList: the sorted `deletedThreadIds` of the answer, which names the deleted set; threads deleted by other actions than a list.
- ThreadPaging.PagingReturnsEverySummaryOnce: machines whose paging never ends, answers that change between requests, and a paired machine that goes away in the middle of a run.
- ModelInstall: what an install's runner and an inspection do on disk; an inspection that fails to run finds a failure, like any other finding. Counters do not wrap around.
- ModelInstall.ParakeetInstallState.Cancel: the cancelled installer's own reaction is the ending its runner reports.
- RecognizerCache.EveryAnswerIsFresh: a load depends on the directory, its files and the decoding only; a load that fails for a passing reason is not modelled. A poisoned lock is not modelled.
- InputMarkWatch: clock readings are arbitrary, except that later requests of `OnePollerServesThemAll` read no earlier clock; what dismissing the mark does is foreign code.
- LoginService.Adapters.StartLoginService: log records, diagnostics and the text of a failed request are left out, with the adapter readings that only feed them, except the last reading of the launch constraint.
- `activate_runtime_service` and the skipped activation outcome, which only tests and inactive services reach; `launchctl` and `codesign` output parsing.
- The swarm records, clocks, run queue, permission gate and encryption described by `core/README.md`: their source is not part of this model.
- Tauri command wrappers, windows, audio, tones, transcripts, icons and build scripts: no property that a reader would not see in one body.
