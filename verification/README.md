# Verified models of the email package

Dafny models of the parts of the repository where a wrong step is easiest to make and hardest to see:
the RFC 5322 address parser and its two printers, the concurrent batcher, the adaptive delivery
subscription, and the writer that folds headers, breaks base64 lines and nests MIME parts.

`dafny verify dfyconfig.toml` checks everything.

How the files fit together:

| part | code on fields and loops | specification | theorems |
|---|---|---|---|
| address parser | `AddrParser.dfy` | `Grammar.dfy`, `Text.dfy` | `Language.dfy`, `Consequences.dfy`, `QuotedStrings.dfy`, `Comments.dfy`, `Syntax.dfy`, `RoundTrip.dfy`, `Totality.dfy`, `GrammarSteps.dfy` |
| address printers | `Printer.dfy`, `Headers.dfy` | same files | `RoundTrip.dfy`, `Headers.dfy` |
| batcher | `Batches.dfy`, `Batcher.dfy` | same files | `Batches.dfy`, `BatcherSystem.dfy`, `BatcherOutcomes.dfy` |
| delivery subscription | `Subscription.dfy` | `Controller.dfy`, `Subscription.dfy` | `Controller.dfy`, `SubscriptionSystem.dfy` |
| address fields, end to end | | `HeaderFields.dfy` | `HeaderFields.dfy` |
| message writer | `Folding.dfy`, `LineWriter.dfy`, `Mime.dfy` | same files | same files, `FieldLines.dfy` |

Code that updates fields or loops is a class or a method, proved to compute a function of the old
state; the theorems are lemmas about those functions. The batcher and the subscription are guarded by
one mutex each: every critical section is a method of the class, its effect is a function on the
guarded fields, and the transition systems (`BatcherSystem`, `SubscriptionSystem`) run those functions
in every interleaving of any number of goroutines. Runs are finite sequences of actions; the history
fields of the system states (accepted items, calls, deliveries, closes) only record what happened.

The parser is specified twice. `Grammar` computes, as functions of the remaining input, what the code
computes; `Language` describes texts as trees (addr-specs, mailboxes, groups, lists) with what they are
written as and what they mean, and proves that a text is accepted exactly when some tree is written that
way, with the meaning of the tree as the result.

Text in the parser is a sequence of code points, with every byte that is not part of valid UTF-8 as an
element of its own; byte limits are sums of UTF-8 sizes. Floats are reals and the clock is an arbitrary
input. The RFC 2047 decoder and encoders, media types of file names, boundaries and content encoders
are arbitrary functions or numbered events.

Where the code does not do what its documentation or an obvious reading suggests, the model follows the
code and states exactly when the property holds:

- `Address.String` is undone by `ParseAddress` if and only if the addr-spec is well-formed
  (`RoundTrip.PrintParse`); `formatAddress` only if, in addition, the local part needs no quotes, because
  it never quotes it (`Headers.FormatParse`, counterexample `Headers.QuotedLocalIsLost`).
- A list of empty groups is accepted as a list of no addresses, which prints as text that is rejected
  (`RoundTrip.ParsePrintParseList`, for example `g:;`: `Consequences.EmptyGroupAccepted`).
- An unclosed comment after an address is an error; after a group it is not, because the result of
  `skipCFWS` is ignored there (`Consequences.UnclosedCommentAfter`).
- The limit of 320 bytes on a whole address never rejects anything the other two limits accept
  (`RoundTrip.AddrSpecSound`).
- `New` drops its byte-size function, so `MaxBatchByteSize` has no effect on batches it makes
  (`Batches.ByteLimitNeedsSizes`, `Batcher.Batcher.New`, an oversized batch: `Batches.ByteLimitIgnored`).
- `MinBatchSize` is documented as the minimum size of a batch. A batch taken from enough pending items has
  that many if and only if that many are within the two limits (`Batches.MinimumHolds`).
- `Receive` is documented to return the same error from then on. From a state with an error, that holds
  until the next `Shutdown` if and only if no driver call is outstanding, and it holds whatever is called
  if and only if, besides, the error is that of `Shutdown` (`SubscriptionSystem.ErrorIsFinal`). So it
  always holds when `Shutdown` is never called (`SubscriptionSystem.ErrorIsPermanent`), and a fetch that
  `Shutdown` overtakes can break it (`SubscriptionSystem.ShutdownErrorIsReplaced`).
- A word in an unknown charset is an error as the first word of a display name and is dropped, together
  with the error, as a later one (`Syntax.UnknownCharsetFirst`, `Syntax.UnknownCharsetDropped`).
- With `MinBatchSize` of two or more a subscription never makes a driver call and never delivers
  anything (`SubscriptionSystem.FetchesNeedMinimumOne`).
- A field name longer than 73 characters gets a space too many (`Folding.HeaderUnfolds`).
- Continuation lines hold 76 characters, so runs of 75 without a space still fit
  (`FieldLines.HeaderLinesFit`). With several values the comma is not counted in time, so a line can
  get 77 characters even if every value fits (`FieldLines.FieldLinesFit`).
- Some messages without a body part are not one MIME entity, such as one embedded file and one
  attachment (`Mime.OneEntity`).

## Model

| member | source | states |
|---|---|---|
| `Language.SingleAccepts` | email/address.go:271-291 | A single address is accepted, with result a, if and only if the whole input is written as an entry (mailbox or group) of the one value a, followed by white space and comments only, or, after a group, by an unclosed comment |
| `Language.ListAccepts` | email/address.go:202-235 | A list is accepted, with result l, if and only if the whole input is commas and white space, then entries, each followed by white space and comments and, before the next one, at least one comma, whose values in order are l |
| `Language.SpecAccepts` | email/address.go:444-502 | An addr-spec is accepted, with that value and rest, if and only if it is written as white space, a dot-atom or a nonempty quoted string, an @, white space and a dot-atom up to a character no atom contains, within the length limits |
| `Language.EntryRead` | email/address.go:327-441 | Every mailbox and every group is parsed as its values, their number as the count; a group takes the white space and comments after it along |
| `Language.EntryFound` | email/address.go:327-441 | Every text that is parsed is written as a mailbox or group, with exactly those values and that rest |
| `Language.MailboxRead` | email/address.go:340-408 | A bare addr-spec, with or without a comment that names it, and a name with an angle-addr are parsed as their value, leaving exactly what follows |
| `Language.MembersRead` | email/address.go:411-441 | The members of a group, with white space and comments after each, are found in order and counted |
| `Language.SpecRead` | email/address.go:444-502 | On text written as an addr-spec only the two length limits can fail, in this order, and otherwise the value is the local part with its escapes removed, @ and the domain |
| `Language.SingleSteps` | email/address.go:275-290 | The errors of the single parser in their order; what is accepted has been read to its end |
| `RoundTrip.PrintParse` | email/address.go:77-138 | For a name of printable ASCII, space and tab, parsing the printed form of an address gives it back if and only if the part before its last '@' is nonempty, quotable and at most 64 bytes and the part after it a dot-atom of at most 255 bytes |
| `RoundTrip.PrintParseList` | email/address.go:202-235 | A list printed with ", " between its entries is parsed back to exactly that list if and only if it is nonempty and every address in it is well-formed |
| `RoundTrip.EmptyEntriesIgnored` | email/address.go:205-233 | Any commas and white space before, between and after printed addresses (obsolete empty entries) change nothing: the list parser returns exactly the addresses, in order |
| `RoundTrip.ParsePrintParse` | email/address.go:271-291 | Parsing reaches a normal form: an accepted address with a plain name is printed and read back unchanged |
| `RoundTrip.ParsePrintParseList` | email/address.go:202-235 | The same for an accepted list with plain names, if and only if it has an address in it |
| `RoundTrip.AddrSpecSound` | email/address.go:444-502 | Every accepted addr-spec splits at its last '@' into a quotable local part and a dot-atom domain, each within its limit; the limit on the whole never rejects |
| `RoundTrip.AddrSpecLimits` | email/address.go:488-501 | On well-formed text the two byte lengths alone decide: domain too long, else local part too long, else exactly local@domain |
| `RoundTrip.AddrSpecExact` | email/address.go:444-502 | The printed addr-spec is read back up to a character no atom contains, leaving exactly what follows |
| `RoundTrip.ParsePrinted` | email/address.go:327-409 | A printed address followed by any text, in group mode or not, is parsed as that one address and leaves exactly that text |
| `Consequences.PrintedAlone` | email/address.go:278-283 | A printed address followed by any text is accepted as a single address, with that value, if and only if the text is white space and comments |
| `Consequences.PaddedEntriesParse` | email/address.go:205-233 | Comments, white space and empty entries between printed addresses change nothing: the list parser returns exactly the addresses, in order |
| `Consequences.PrintParseEncoded` | email/address.go:131-137 | A name that is not plain survives printing and parsing whenever the decoder undoes the encoding chosen for it, base64 exactly when it has a character encoded words may not show |
| `Consequences.PrintWithoutAt` | email/address.go:79-87 | An address without an @ is printed as if it were only a local part |
| `Consequences.LocalKeeps` | email/address.go:822-835 | Printing any local part in quotes and reading it back gives it without the characters that cannot be quoted |
| `RoundTrip.QuotedExact` | email/address.go:557-600 | Scanning undoes quoteString for every quotable text and stops just after the closing quote |
| `QuotedStrings.QuotedAccepts` | email/address.go:557-600 | After an open quote, exactly the texts are accepted that start with plain characters and escaped ones, of any visible character or white space, and a closing quote |
| `QuotedStrings.QuotedRead` | email/address.go:557-600 | The value of such a text is its characters with the escapes removed, and exactly the text after the closing quote is left |
| `QuotedStrings.QuoteKeeps` | email/address.go:822-835 | Quoting any text at all and reading it back gives the text without the characters that cannot be quoted |
| `RoundTrip.UnquotedIsDotAtom` | email/address.go:89-104 | The loop that decides about quotes leaves a nonempty local part unquoted exactly when it is a dot-atom of RFC 5322 |
| `RoundTrip.FoundSound` | email/address.go:327-441 | Every address appended, even by a parse that fails later, within groups or not, is well-formed |
| `RoundTrip.SingleSound` | email/address.go:271-291 | An accepted single address is well-formed |
| `RoundTrip.ListSound` | email/address.go:202-235 | Every address of an accepted list is well-formed |
| `Text.AtextOfRfc5322` | email/address.go:797-810 | Among ASCII, the atom characters are those RFC 5322 lists, plus the specials in the permissive form and the dot in the dot form |
| `Text.QtextOfRfc5322` | email/address.go:812-819 | Among ASCII, quoted text is what RFC 5322 lists, and white space is space and tab |
| `Text.NonAsciiText` | email/address.go:837-847 | Every character beyond ASCII may stand in atoms and quoted strings |
| `Printer.NeedsQuotes` | email/address.go:89-105 | The first loop of String decides whether every character is atext or a dot between non-dots |
| `Printer.AllPrintable` | email/address.go:117-126 | The second loop of String decides whether the name is printable ASCII, space and tab |
| `Printer.PlainIs` | email/address.go:117-126 | The names that are printed in quotes are those of the characters from space to tilde, and tab |
| `Printer.QuoteString` | email/address.go:822-835 | The result is the text in quotes with '"' and '\' escaped and unprintable characters dropped |
| `Printer.String` | email/address.go:77-138 | The method computes the printed form the round-trip results are about |
| `Comments.CommentExact` | email/address.go:712-736 | For every tree of text, escaped characters and nested comments, consuming its rendering succeeds, returns the content without escapes and leaves exactly the rest |
| `Comments.CommentAccepts` | email/address.go:712-736 | After an open parenthesis scanning succeeds if and only if the input starts with such a tree and its close parenthesis |
| `Consequences.EntryAlone` | email/address.go:282-290 | One entry and what may follow it is a whole list; as a single address it must have exactly one value, and having none or several is the respective error |
| `Consequences.UnclosedCommentAfter` | email/address.go:432-434 | A comment that is never closed is an error after any mailbox and is overlooked after any group |
| `Consequences.EmptyGroupAccepted` | email/address.go:413-417 | A concrete input with an empty group that the list parser accepts as no addresses |
| `Consequences.AfterEntryFails` | email/address.go:216-224 | After any entry an unclosed comment is an error; otherwise a single address must be at its end and a list at its end or at a comma, each with its own error |
| `Consequences.LaterEntryFails` | email/address.go:212-215 | The result of a list is that of its later entries, errors included |
| `Consequences.MemberFails` | email/address.go:423-438 | After any member of a group: an unclosed comment, a missing comma or semicolon, and every error of the members after a comma, are the error |
| `Consequences.AngleFails` | email/address.go:395-401 | In angle brackets the error of the addr-spec counts, and the bracket must close right after it |
| `Consequences.NoInput` | email/address.go:328-331 | White space alone is no address |
| `Consequences.NoSpec` | email/address.go:454-457 | White space alone is no addr-spec |
| `Consequences.LocalFails` | email/address.go:458-470 | A local part that is not read is the error: as an atom its own, as a quoted string always the same, also when it is empty |
| `Consequences.AfterLocalFails` | email/address.go:472-486 | After the local part the errors are in order: no @, no domain, the error of the domain |
| `Consequences.AtomIs` | email/address.go:607-642 | A run of atom characters is an atom unless a stray byte follows, it is empty, or a dot is first, doubled or last, with the error of the first of these |
| `Syntax.WordsAreAName` | email/address.go:361-374 | Words, atoms or quoted strings, that are no addr-spec are the name of the angle-addr or group that follows: encoded words decoded, one space between words, none between two encoded words, whatever the white space between them |
| `Syntax.NameAlone` | email/address.go:377-394 | Such words with nothing after them fail, with the error that depends on whether the name they spell could be an atom |
| `Syntax.UnknownCharsetFirst` | email/address.go:548-551 | A first word in an unknown charset is an error |
| `Syntax.UnknownCharsetDropped` | email/address.go:532-534 | A later one ends the name, is dropped without an error, and parsing goes on after it |
| `Syntax.BadWordDropped` | email/address.go:532-551 | Any word that cannot be read, after other words, ends the name without an error |
| `Syntax.BadWordFirst` | email/address.go:548-551 | As the first word it is an error |
| `Syntax.WordsAreNoAddrSpec` | email/address.go:444-502 | Words are no addr-spec when their first atom has no '@' and no '@' directly follows a first quoted string |
| `Syntax.PaddingAccepts` | email/address.go:694-710 | White space and comments, in any sequence, are skipped, with that rest, exactly up to the first other character; failure means a comment that is never closed |
| `Syntax.CommentIsTheName` | email/address.go:340-366 | For any text that is an addr-spec up to white space and a comment tree: the fields of its content, escapes removed and encoded words decoded, joined by spaces, are the display name, or the first unknown charset is the error; exactly the rest is left |
| `Syntax.FieldsExact` | email/address.go:654 | Splitting finds exactly the fields, whatever runs of spaces and tabs are before, between and after them |
| `Syntax.DecodeWordsIs` | email/address.go:655-663 | Decoding fails exactly when some field is in an unknown charset; otherwise encoded words are decoded and all other fields kept |
| `GrammarSteps.CountIsFound` | email/address.go:327-441 | On success the count returned equals the number of addresses appended, so that counting (verify) and appending (parse) agree |
| `GrammarSteps.GroupCountIsFound` | email/address.go:411-441 | The same through any number of group members |
| `AddrParser.Parser.ConsumeQuotedString` | email/address.go:557-600 | On every nonempty input the loop ends with the value and the remaining input of the specification; errors leave the input alone |
| `AddrParser.Parser.ConsumeAtom` | email/address.go:607-642 | The atom, or the error for invalid bytes and misplaced dots, and the remaining input |
| `AddrParser.Parser.ConsumeComment` | email/address.go:712-736 | The comment text, whether it was closed, and the remaining input; a lone final backslash is taken literally |
| `AddrParser.Parser.SkipComments` | email/address.go:694-710 | Skips all white space and comments, or reports an unclosed one |
| `AddrParser.Parser.ConsumeDisplayNameComment` | email/address.go:644-666 | The decoded words of the comment joined by spaces, or the error, and the remaining input |
| `AddrParser.Parser.ConsumePhrase` | email/address.go:505-554 | The phrase, tolerating an error after its first word, and the remaining input |
| `AddrParser.Parser.ConsumeAddrSpec` | email/address.go:444-502 | The addr-spec and the remaining input; a failure restores the input exactly |
| `AddrParser.Parser.ParseAddress` | email/address.go:327-409 | Count, error, appended addresses and remaining input, the same whether it appends or only verifies |
| `AddrParser.Parser.ConsumeGroupList` | email/address.go:411-441 | The same for the members of a group |
| `AddrParser.Parser.ParseAddressList` | email/address.go:202-235 | The list or the error, and the remaining input |
| `AddrParser.Parser.VerifyAddressList` | email/address.go:237-269 | Exactly the error and the remaining input of ParseAddressList |
| `AddrParser.Parser.ParseSingleAddress` | email/address.go:271-291 | The address or the error, and the remaining input |
| `AddrParser.Parser.VerifySingleAddress` | email/address.go:303-324 | Exactly the error and the remaining input of ParseSingleAddress, though it only sees the count |
| `AddrParser.Parse` | email/address.go:147-152 | The exported single parser returns what the specification gives for the whole input |
| `AddrParser.VerifyFormat` | email/address.go:155-160 | It accepts exactly what Parse accepts, with the same error |
| `AddrParser.ParseAddresses` | email/address.go:172-177 | The exported list parser returns what the specification gives for the whole input |
| `AddrParser.VerifyListFormat` | email/address.go:180-185 | It accepts exactly what ParseAddresses accepts, with the same error |
| `Totality.AddrSpecSuffix` | email/address.go:444-502 | Whatever the input, what an addr-spec leaves is a suffix of it |
| `Totality.ParseAddressSuffix` | email/address.go:327-409 | The same for an address or group, in both modes and for every outcome |
| `Totality.ListSuffix` | email/address.go:202-235 | The same for the list parser, and an accepted list has been read to its end |
| `Totality.PhraseSuffix` | email/address.go:505-554 | The same for a phrase |
| `Totality.SkipCFWSSuffix` | email/address.go:694-710 | The same for white space and comments |
| `Headers.FormatParse` | email/smtpemail/message.go:123-151 | For a plain name, parsing what formatAddress builds gives address and name back if and only if the address is well-formed and its local part is a dot-atom |
| `Headers.FormatParseEncoded` | email/smtpemail/message.go:138-151 | For a name the header encoder changes: if the decoder undoes the encoding chosen for it, base64 exactly when it has a special character, parsing gives address and name back if and only if the local part needs no quotes |
| `Headers.HeaderParsesBack` | email/smtpemail/message.go:109-120 | When every input is accepted, each value setAddressHeader stores for one with a plain name reads back as the same address exactly when its local part is a dot-atom |
| `Headers.ReformatFails` | email/smtpemail/message.go:109-120 | A header is refused exactly when some input is, with the error of the first one |
| `Headers.QuotedLocalIsLost` | email/smtpemail/message.go:124-126 | A concrete accepted address whose header value does not read back |
| `Headers.JoinedParses` | email/smtpemail/message.go:109-120 | Formatted addresses without quoted local parts, joined as the writer joins them, are read back by the list parser as exactly that list |
| `HeaderFields.FieldReadsBack` | email/smtpemail/message.go:109-120 | End to end: accepted inputs give values without line breaks; unfolding the written field gives the joined values if and only if the field name has at most 73 characters; and if no local part needs quotes, the list parser reads exactly the addresses of the inputs from them |
| `HeaderFields.BytesLength` | email/address.go:488-497 | The sizes that length limits are checked against are the lengths of the UTF-8 encoding |
| `Headers.FoundTight` | email/address.go:327-441 | No parsed address is longer than the input it was read from, and one as long is unquoted |
| `Headers.Message.FormatAddress` | email/smtpemail/message.go:123-151 | The text built byte by byte in the scratch buffer, which is empty again afterwards |
| `Headers.Message.SetAddressHeader` | email/smtpemail/message.go:109-120 | The field is set to all reformatted addresses in order, or the first parse error is returned and the header is unchanged |
| `Batches.SplitClosedForm` | email/batcher/batcher.go:37-61 | Below the minimum nothing; without an item limit one batch; otherwise min(handlers, ceil((n-min+1)/max)) batches, all but the last full, that sum to min(n, count*max) |
| `Batches.SplitBound` | email/batcher/batcher.go:33-36 | Batches never sum to more than n, each is at least 1, and there is none exactly when n is below the minimum |
| `Batches.Split` | email/batcher/batcher.go:37-61 | The loop computes the sizes the closed form describes |
| `Batches.BatchIsLongest` | email/batcher/batcher.go:230-248 | A prefix of the pending items is within both limits if and only if it is no longer than the batch taken |
| `Batches.NextIs` | email/batcher/batcher.go:218-249 | There is a batch exactly when the minimum number of items is pending; it is a prefix, and a prefix is within the limits if and only if it is no longer |
| `Batches.AllowedIs` | email/batcher/batcher.go:237-242 | The limits are on the number of items and on the sum of their sizes, zero meaning none |
| `Batches.MinimumHolds` | email/batcher/batcher.go:92-93 | A batch taken from enough items has the minimum size if and only if that many items are within both limits |
| `Batches.BatchNonempty` | email/batcher/batcher.go:187-194 | A batch is empty exactly when its first item alone is over the byte limit, which is what AddNoWait refuses |
| `Batches.SendItAll` | email/batcher/batcher.go:223-228 | The shortcut takes what the loop would take |
| `Batches.ByteLimitNeedsSizes` | email/batcher/batcher.go:152-157 | Without a byte-size function only the item limit has an effect |
| `Batches.ByteLimitIgnored` | email/batcher/batcher.go:152-157 | A concrete batch over the byte limit that a batcher without a size function takes |
| `Batches.WithDefaults` | email/batcher/batcher.go:102-114 | Zero handlers and minimum become 1, everything else is kept, and no options at all means one handler, a minimum of one and no limits |
| `Batcher.Batcher.New` | email/batcher/batcher.go:152-157 | An empty batcher with defaults applied and no byte-size function, whatever was passed |
| `Batcher.Batcher.NextBatch` | email/batcher/batcher.go:218-249 | Takes exactly the longest allowed prefix off the pending items, or nothing below the minimum |
| `Batcher.Batcher.AddNoWait` | email/batcher/batcher.go:176-213 | Refuses with one reply, or queues at the end and starts a handler when one is allowed and a batch is ready |
| `Batcher.Batcher.FinishBatch` | email/batcher/batcher.go:261-273 | Every waiter of the batch gets exactly its call's error; then the next batch is taken or the handler count drops, atomically |
| `Batcher.Batcher.Shutdown` | email/batcher/batcher.go:280-285 | Only the flag changes |
| `BatcherSystem.StepKeeps` | email/batcher/batcher.go:176-285 | Every atomic step of every goroutine keeps the invariant: queue order, ownership of calls, replies, handler count, sizes |
| `BatcherSystem.RunKeeps` | email/batcher/batcher.go:176-285 | So does every run |
| `BatcherOutcomes.AddIs` | email/batcher/batcher.go:176-213 | Every add is refused because of the shutdown, refused because the item alone is too large, or queued last; it starts a handler, with the longest allowed batch, exactly when one more is allowed and enough items are pending |
| `BatcherOutcomes.TakeIs` | email/batcher/batcher.go:265-273 | A handler that has sent its results takes the longest allowed batch when enough items are pending, and stops being counted otherwise |
| `BatcherOutcomes.ReturnIs` | email/batcher/batcher.go:261 | What a handler call returns is recorded as its result, and nothing else changes |
| `BatcherOutcomes.SendIs` | email/batcher/batcher.go:262-264 | The next waiter of the batch gets exactly the result of its own call, and no other channel changes |
| `BatcherOutcomes.EveryAddAccounted` | email/batcher/batcher.go:176-213 | In every reachable state each channel is that of exactly one accepted item or was sent exactly its refusal, never both |
| `BatcherSystem.FirstInFirstOut` | email/batcher/batcher.go:176-249 | In every reachable state the dispatched batches in dispatch order followed by the pending items are the accepted items in order: none lost, repeated or reordered |
| `BatcherSystem.RepliedOnce` | email/batcher/batcher.go:251-264 | On a dispatched waiter's channel there is nothing before its turn and exactly its own call's error afterwards; on a pending waiter's nothing |
| `BatcherSystem.SendNeverBlocks` | email/batcher/batcher.go:181-191 | A handler with results left to send always finds room in the capacity-1 channel |
| `BatcherSystem.NoStalledWork` | email/batcher/batcher.go:196-212 | Handlers never exceed the limit, and while one more is allowed fewer than the minimum are pending |
| `BatcherSystem.BatchesWithinLimits` | email/batcher/batcher.go:218-249 | Every handler call of every run gets a nonempty batch within both limits |
| `BatcherSystem.ShutdownReturns` | email/batcher/batcher.go:280-285 | Once all handlers are gone every dispatched item has its answer and fewer than the minimum were never handled: none under the default |
| `BatcherSystem.WorkDecreases` | email/batcher/batcher.go:251-275 | Each handler step uses up some of a measure over pending items and goroutines |
| `BatcherSystem.DrainBound` | email/batcher/batcher.go:280-285 | After shutdown the handlers take at most that many steps in any continuation |
| `BatcherSystem.HandlerProgress` | email/batcher/batcher.go:251-275 | In every reachable state every handler that is not gone has a step it can take |
| `BatcherSystem.StuckIsGone` | email/batcher/batcher.go:251-285 | In every reachable state no handler can move if and only if all handlers are gone |
| `BatcherSystem.DrainFinishes` | email/batcher/batcher.go:280-285 | From every reachable state after shutdown, handler steps alone, at most as many as the measure, lead to all handlers gone |
| `Controller.NoOvershoot` | email/delivery_subscription.go:404-414 | An update moves strictly towards the ideal size and never past it |
| `Controller.HalvesInBand` | email/delivery_subscription.go:404-414 | An update exactly halves the distance if and only if the size is between a third of the ideal and twice it, and then stays there |
| `Controller.Converges` | email/delivery_subscription.go:381-423 | From any size a steady measurement leads into that band after finitely many updates, and from then on each update halves the distance |
| `Controller.RequestsSettle` | email/delivery_subscription.go:421-422 | With a steady measurement the requests settle at the ideal size, at most 3000, rounded up, or next to it |
| `Controller.RequestIsCeiling` | email/delivery_subscription.go:422 | The request is the size, at most 3000, rounded up |
| `Controller.IdealIsTwoSeconds` | email/delivery_subscription.go:393-402 | The ideal size is what two seconds take at the rate measured over at least a tenth of a second |
| `Controller.Decays` | email/delivery_subscription.go:404-414 | With nothing handed out the size after k updates is 0.75^k of the start |
| `Controller.IdlesAtOne` | email/delivery_subscription.go:421-422 | From some update on every request of an idle subscription is for one message |
| `Controller.PotentialStep` | email/delivery_subscription.go:270-299 | Size plus twenty times the queue does not grow at an update of a size of at least 240000, and is at most 2880000 otherwise |
| `Subscription.DeliverySubscription.UpdateBatchSize` | email/delivery_subscription.go:381-423 | New size, request and measurement markers, as the convergence results describe them |
| `Subscription.UpdateIs` | email/delivery_subscription.go:381-423 | An update goes half way to the ideal, at most doubling and at least keeping three quarters, starts the measurement anew and requests the new size, at most 3000, rounded up; one by one nothing changes and one is requested |
| `Subscription.DeliverySubscription.ReceivePass` | email/delivery_subscription.go:255-325 | One pass of the loop: error, cancelled, next event of the queue or a wait, and a fetch with a fresh open channel exactly when the queue is low and none is running |
| `Subscription.DeliverySubscription.CompleteFetch` | email/delivery_subscription.go:283-292 | The queue or the error is updated, the open channel is closed, once, and forgotten |
| `Subscription.DeliverySubscription.Shutdown` | email/delivery_subscription.go:428-436 | The error becomes the shutdown error, and a repeated call is recognised |
| `Subscription.DeliverySubscription.GetNextBatch` | email/delivery_subscription.go:339-372 | Makes one driver call for each size Split gives; whatever the order they complete in, the result is what the next row says of those calls |
| `Subscription.GatherIs` | email/delivery_subscription.go:359-371 | A fetch succeeds if and only if all its calls do, with all their messages in completion order; otherwise it fails with the error of the first that failed |
| `Subscription.FetchBound` | email/delivery_subscription.go:346-371 | If no driver call returns more than it was asked for, a fetch brings in at most what was requested |
| `SubscriptionSystem.StepKeeps` | email/delivery_subscription.go:252-336 | Every step of every receiver, of the fetch and of Shutdown keeps the queue protocol |
| `SubscriptionSystem.ReceiveIs` | email/delivery_subscription.go:255-334 | Every pass of every Receive in every run: an error first, then the context; otherwise a fetch starts exactly when none is running and the queue is at most half the size, for the new size rounded up; then the head of the queue is returned or the receiver waits for the running fetch |
| `SubscriptionSystem.FetchEndIs` | email/delivery_subscription.go:282-293 | The end of every fetch in every run: the messages go to the end of the queue or the error is set, and everyone who waited can wake |
| `SubscriptionSystem.FirstFetch` | email/delivery_subscription.go:201-202 | The first fetch of a subscription is for one message |
| `SubscriptionSystem.Protocol` | email/delivery_subscription.go:270-299 | In every reachable state a fetch runs exactly while there is a wait channel; every other channel was closed exactly once; events delivered followed by the queue are the events fetched, in order |
| `SubscriptionSystem.NeverStranded` | email/delivery_subscription.go:324-334 | A receiver that waits has a channel, and that channel is already closed or the running fetch will close it |
| `SubscriptionSystem.AfterError` | email/delivery_subscription.go:257-260 | Once there is an error nothing more is delivered, no fetch starts, and every Receive that gets its turn returns the error |
| `SubscriptionSystem.ErrorIsFinal` | email/delivery_subscription.go:233-241 | Exactly when Receive returns the same error from then on, over all continuations of all runs: until the next Shutdown, if and only if no driver call is outstanding; unconditionally, if and only if in addition the error is that of Shutdown |
| `SubscriptionSystem.ErrorIsPermanent` | email/delivery_subscription.go:233-241 | If Shutdown has not been called, an error, once set, is the same in every continuation until it is |
| `SubscriptionSystem.ShutdownErrorIsReplaced` | email/delivery_subscription.go:285-287 | A concrete run in which a fetch that was running replaces the shutdown error |
| `SubscriptionSystem.MemoryBound` | email/delivery_subscription.go:270-299 | If no driver call returns more than it is asked for, the queue never exceeds 147000 events nor the size 2880000, however long the run |
| `SubscriptionSystem.PotentialDoesNotGrow` | email/delivery_subscription.go:381-423 | The amortised form at every measurement of every run |
| `SubscriptionSystem.FetchesNeedMinimumOne` | email/delivery_subscription.go:346 | Whatever drivers return: a fetch makes a driver call exactly when the minimum batch size is 1; with more nothing is ever delivered |
| `Folding.HeaderUnfolds` | email/smtpemail/writer.go:198-238 | For values without line breaks, unfolding the field gives name, colon, values joined by ", " and CRLF if and only if the name has at most 73 characters |
| `FieldLines.HeaderLinesFit` | email/smtpemail/writer.go:206-272 | For one value, every line has at most 76 characters if and only if the value fits after the name, or has a space early enough and no run of more than 75 characters without one; with the cases of longer names |
| `FieldLines.FieldLinesFit` | email/smtpemail/writer.go:211-237 | For any number of values, every line has at most 76 characters if and only if each value, with the comma before it, fits into the room the earlier ones leave |
| `FieldLines.FoldFits` | email/smtpemail/writer.go:225-235 | For one value at any point of a line: the exact condition, and the room left after it is exactly what remains of its last line |
| `FieldLines.FieldBreaksLate` | email/smtpemail/writer.go:225-272 | No line of a field is broken although the next word would have fitted |
| `Folding.HeaderFolds` | email/smtpemail/writer.go:198-272 | For any values, line breaks in them or not, the written field is the one-line field with some of its spaces replaced by CRLF and a space |
| `Folding.HeaderWriter.WriteHeader` | email/smtpemail/writer.go:198-238 | Writes the field the two results are about, for any values, and counts its characters; the folding loop ends even with no or negative room |
| `Folding.HeaderWriter.WriteLine` | email/smtpemail/writer.go:240-272 | Writes up to the last break that fits, or else the first after the limit, and returns what is left |
| `LineWriter.Base64LineWriter.Write` | email/smtpemail/writer.go:327-341 | Reports the length of its input; adds exactly the text and line position the chunk result is about |
| `LineWriter.ChunksDoNotMatter` | email/smtpemail/writer.go:327-341 | After any sequence of writes output and line position depend only on the concatenated input |
| `LineWriter.WriteChunks` | email/smtpemail/writer.go:295-298 | Performing the writes on a new writer leaves exactly the concatenated input broken into lines |
| `LineWriter.LinesAreFull` | email/smtpemail/writer.go:313-341 | The output is lines that hold the input in order, all but the last of exactly 76 characters, the last nonempty for nonempty input |
| `LineWriter.WrapStrips` | email/smtpemail/writer.go:327-341 | Removing the line breaks gives back the input |
| `Mime.MessageWriter.OpenMultipart` | email/smtpemail/writer.go:163-177 | A fresh boundary, announced at the enclosing place, becomes the innermost |
| `Mime.MessageWriter.CloseMultipart` | email/smtpemail/writer.go:183-188 | Closes the innermost boundary, if any |
| `Mime.MessageWriter.AddFiles` | email/smtpemail/writer.go:129-161 | Writes each file as one part and returns the files with their headers filled in |
| `Mime.MessageWriter.WriteMessage` | email/smtpemail/writer.go:73-110 | The output is the serialised forest mixed(related(alternative(parts), embedded), attachments), layers only where wanted, a MIME reader of that output recovers exactly the forest, and the depth is 0 again |
| `Mime.ReadSerialisedAll` | email/smtpemail/writer.go:163-188 | Output is balanced: a MIME reader recovers exactly the trees that were serialised and leaves the rest |
| `Mime.MessageReadsBack` | email/smtpemail/writer.go:73-110 | A MIME reader of the serialised forest of any message recovers exactly that forest |
| `Mime.ForestShape` | email/smtpemail/writer.go:112-122 | Layers are at most three deep and none has fewer than two children |
| `Mime.MessageHolds` | email/smtpemail/writer.go:73-161 | The entities of a message are its body parts, then the embedded files, then the attachments, each once and in order with its own content, encoding and header, in exactly the layers that the numbers of parts and files call for |
| `Mime.OneEntity` | email/smtpemail/writer.go:112-122 | The message is a single MIME entity if and only if it has a body part, or some file but not a lone attachment beside embedded files |
| `Mime.FilledHeadKeeps` | email/smtpemail/writer.go:129-157 | Filling in a file's header overwrites nothing and adds exactly the missing MIME fields |
| `Mime.FilledHeadAdds` | email/smtpemail/writer.go:131-157 | The values it adds: the type for the name, base64, attachment or inline with the name, and the name as identifier |
| `Mime.EveryFileOnce` | email/smtpemail/message.go:308-314 | Every attachment ends up in exactly one of the embedded and attached lists |
| `Mime.FilesInOrder` | email/smtpemail/message.go:308-314 | Inline attachments are embedded and the others attached, each list in the order given |
| `Mime.NewFileIs` | email/smtpemail/message.go:243-262 | A file has the name and content of its attachment, and a type and identifier exactly when they are given |
| `Mime.BodyPartsAre` | email/smtpemail/message.go:298-306 | The body parts in the four cases of a missing or present HTML and text body |
| `Mime.Message.Prepare` | email/smtpemail/message.go:298-314 | HTML body first, then plain text, each only if present; files sorted into the two lists in order |

## Left out

- RFC 2047 encoding and decoding: an arbitrary function each; names printed as encoded words survive if the decoder undoes the encoder, which is assumed of Go's. The bytes left by removing a backslash before a character of several bytes are not decoded again.
- `Headers.FormatParse`: assumes that the header encoder returns printable ASCII, space and tab unchanged, which is what Go's encoder does.
- `HeaderFields.FieldReadsBack`: says nothing of the list that is read when some local part needs quotes; for single values see `Headers.HeaderParsesBack`.
- `AddrParser.Parser.ConsumeQuotedString`, `AddrParser.Parser.ConsumeAtom`: error kinds, not error texts.
- Pools of parsers, lists, messages and buffers: every call works on fresh objects.
- `Batches.WithDefaults`: options are not negative, and byte sizes are not negative and do not change.
- `Batcher.Batcher.AddNoWait`: the goroutine it starts is represented by the batch it returns; in `BatcherSystem` it is a goroutine.
- Add's wait for a result or its context: the result side is the Receive action of `BatcherSystem`.
- `Batcher.Batcher.Shutdown`: leftovers below the minimum are not flushed; waiting for the wait group is the condition `AllGone` of `BatcherSystem`. Handler errors are integers, and a handler is assumed to return for `HandlerProgress`.
- NewMergedOptions: a field by field minimum or maximum.
- `Controller.Converges`: floats are reals, so rounding and overflow are not modelled.
- `SubscriptionSystem.MemoryBound`: assumes that no driver call returns more messages than it was asked for; the SMTP driver ignores that argument (email/smtpemail/delivery_subscription.go:38).
- `Subscription.DeliverySubscription.GetNextBatch`: the driver is a function from the call to its outcome after retries, and the order of completion is a parameter; the goroutines and the cancelling of calls after a first error are not modelled.
- `Subscription.DeliverySubscription.Shutdown`: its first critical section; cancelling the background context, closing the driver and the error returned for that are left out.
- Receive's conversion of a driver event to an event, field by field.
- `Folding.HeaderUnfolds`: values with line breaks in them; for those `Folding.HeaderFolds` says what is written, and their line lengths are not claimed.
- `LineWriter.Base64LineWriter.Write`: the underlying writer is assumed not to fail; the code ignores its errors.
- `Mime.MessageWriter.WriteMessage`: the message header (version, date, field order, leaving out Bcc) is one event; content and boundary text are not encoded; the three layers are one method each where the code has one body; write errors are not modelled.
- `Mime.MessageWriter.AddFiles`: files are values, so filling in headers returns new files that the message then holds, and aliasing between files is not captured.
- The message and its writer are each split in two classes by concern (`Headers.Message` and `Mime.Message`; `Folding.HeaderWriter` and `Mime.MessageWriter`), which share no fields.
- setBody and addAlternative take part settings; prepare passes none, so parts here have the encoding of the message.
- `Mime.Message.Prepare`: sets bodies and files only; the address headers are `Headers.Message.SetAddressHeader`, called once per address, so that the last To wins.
- Message senders, network clients, the bounce table, templates, and URL and option parsing: wrappers and tables.
