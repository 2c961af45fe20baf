/**
  What follows from the language of the parser: which error each rejected text gets, what may stand
  around printed addresses, and names printed as encoded words.
 */
module Consequences {
  import opened Wrappers
  import opened Text
  import opened Grammar
  import opened GrammarSteps
  import opened Printer
  import opened RoundTrip
  import opened QuotedStrings
  import opened Syntax
  import opened Language

  // ---- errors of an addr-spec ----------------------------------------------------------------

  /** The characters of a dot-atom, with the dots anywhere. */
  predicate IsDotted(a: Text) {
    forall i :: 0 <= i < |a| ==> Valid(a[i]) && IsAtext(a[i], true, false)
  }

  /** A run of atom characters up to something else: a stray byte there, an empty run, or a misplaced dot
      is an error, in this order; otherwise it is the atom. */
  lemma AtomIs(a: Text, tail: Text)
    requires IsDotted(a) && (StopsDotAtom(tail) || !Valid(tail[0]))
    ensures Atom(a + tail, true, false).value ==
            if tail != [] && !Valid(tail[0]) then Err(InvalidUtf8)
            else if a == [] then Err(InvalidString)
            else if a[0] == DOT then Err(LeadingDot)
            else if HasDoubleDot(a) then Err(DoubleDot)
            else if a[|a|-1] == DOT then Err(TrailingDot)
            else Ok(a)
  {
    var s := a + tail;
    assert AtomLen(s, true, false) == |a| by {
      assert forall i :: 0 <= i < |a| ==> s[i] == a[i];
      assert tail != [] ==> s[|a|] == tail[0];
    }
    assert s[..|a|] == a;
  }

  /** White space alone has no addr-spec. */
  lemma NoSpec(lead: Text)
    requires IsWhite(lead)
    ensures AddrSpec(lead).value == Err(NoAddrSpec)
  {
    SkipsWhite(lead, []);
    assert lead + [] == lead;
    hide LocalPart, Atom;
  }

  /** A local part that is not read is the error: as an atom its own, as a quoted string always the same,
      also when it is empty. */
  lemma LocalFails(lead: Text, u: Text)
    requires IsWhite(lead) && u != [] && !IsWSP(u[0])
    ensures u[0] != QUOTE && Atom(u, true, false).value.Err? ==>
              AddrSpec(lead + u).value == Err(Atom(u, true, false).value.error)
    ensures u[0] == QUOTE && (forall qs, rest :: qs != [] ==> !QuotedAs(u[1..], qs, rest)) ==>
              AddrSpec(lead + u).value == Err(EmptyQuotedLocal)
  {
    SkipsWhite(lead, u);
    SkipsNothing(u);
    if u[0] == QUOTE && QuotedBody(u[1..], false).Ok? {
      var qs := QuotedFound(u[1..]);
      assert QuotedAs(u[1..], qs, QuotedBody(u[1..], false).value.1);
    }
    hide Atom, QuotedBody, SkipSpace;
  }

  /** After a local part that is read, the errors of the rest in their order. */
  lemma AfterLocalFails(lead: Text, local: Local, tail: Text)
    requires IsWhite(lead) && IsLocal(local) && StopsDotAtom(tail)
    ensures var e := AddrSpec(lead + (LocalText(local) + tail)).value;
            && (!Starts(tail, AT) ==> e == Err(MissingAt))
            && (Starts(tail, AT) ==>
                  var v := SkipSpace(tail[1..]);
                  && (v == [] ==> e == Err(NoDomain))
                  && (v != [] && Atom(v, true, false).value.Err? ==> e == Err(Atom(v, true, false).value.error)))
  {
    var u := LocalText(local) + tail;
    LocalRead(local, tail);
    SkipsWhite(lead, u);
    SkipsNothing(u);
    hide Atom, LocalPart, SkipSpace;
  }

  // ---- errors of an address --------------------------------------------------------------------

  lemma NoInput(lead: Text, handleGroup: bool, dec: Decoder)
    requires IsWhite(lead)
    ensures ParseAddress(lead, handleGroup, dec) == Failed(NoAddress, [])
  {
    SkipsWhite(lead, []);
    assert lead + [] == lead;
    hide AddrSpec, PhraseFrom, AngleAddr, GroupList;
  }

  /** In angle brackets the error of the addr-spec counts; after an addr-spec the bracket must close right
      away. */
  lemma AngleFails(h: Head, body: Text, handleGroup: bool, dec: Decoder)
    requires IsHead(h, [LT] + body, dec)
    ensures var p := ParseAddress(HeadText(h, [LT] + body), handleGroup, dec);
            && (AddrSpec(body).value.Err? ==> p == Failed(AddrSpec(body).value.error, body))
            && (AddrSpec(body).value.Ok? && !Starts(AddrSpec(body).rest, GT) ==>
                  p == Failed(UnclosedAngle, AddrSpec(body).rest))
  {
    hide ParseAddress, AddrSpec, IsHead;
    HeadRead(h, [LT] + body, handleGroup, dec);
    assert ([LT] + body)[1..] == body;
  }

  /** After a member of a group: an unclosed comment, anything but a comma or semicolon, and every error
      of the members after a comma, are the error. */
  lemma MemberFails(m: Mailbox, rest: Text, dec: Decoder, total: nat)
    requires IsMailboxAt(m, rest, dec)
    ensures var c := SkipCFWS(rest);
            var err := GroupFrom(MailboxText(m, rest), dec, total).err;
            && (!c.ok ==> err == Some(BadComment))
            && (c.ok && !Starts(c.rest, SEMI) && !Starts(c.rest, COMMA) ==> err == Some(ExpectedComma))
            && (c.ok && Starts(c.rest, COMMA) ==> err == GroupFrom(c.rest[1..], dec, total + 1).err)
  {
    hide ParseAddress, GroupAfter, GroupFrom, SkipCFWS, MailboxText, IsMailboxAt, MailboxValue;
    var p := Parsed(None, 1, [MailboxValue(m, dec)], rest);
    MailboxRead(m, rest, false, dec);
    GroupFromIs(MailboxText(m, rest), dec, total);
    GroupAfterTurn([], p, dec, total);
    FoundNothing(GroupAfter(p, dec, total));
  }

  /** After an entry: an unclosed comment is an error; then a single address must be at its end, and a
      list at its end or at a comma. */
  lemma AfterEntryFails(e: Entry, rest: Text, dec: Decoder, acc: seq<Address>)
    requires IsEntryAt(e, rest, dec)
    ensures var s, c := EntryText(e, rest), SkipCFWS(AfterEntry(e, rest));
            && (!c.ok ==> ParseSingle(s, dec).value == Err(BadComment))
            && (c.ok && c.rest != [] ==> ParseSingle(s, dec).value == Err(ExpectedSingle))
            && (s != [] && EndsGap(s) && !c.ok ==> ListFrom(s, dec, acc).value == Err(BadComment))
            && (s != [] && EndsGap(s) && c.ok && c.rest != [] && c.rest[0] != COMMA ==>
                  ListFrom(s, dec, acc).value == Err(ExpectedComma))
  {
    hide ParseAddress, SkipCFWS, SkipCommas, ListFrom, ParseSingle, IsEntryAt, EntryText, EntryValues, AfterEntry;
    var s := EntryText(e, rest);
    EntryRead(e, rest, dec);
    SingleSteps(s, dec);
    if s != [] && EndsGap(s) {
      ListTurn(s, dec, acc);
    }
  }

  /** The error of a later entry is the error of the list. */
  lemma LaterEntryFails(e: Entry, t: Tail, gap: Text, next: Text, dec: Decoder, acc: seq<Address>)
    requires IsTail(t, e, gap + next) && IsEntryAt(e, TailText(t, gap + next), dec)
    requires IsGap(gap) && Starts(gap, COMMA) && next != [] && EndsGap(next)
    requires var s := EntryText(e, TailText(t, gap + next)); s != [] && EndsGap(s)
    ensures ListFrom(EntryText(e, TailText(t, gap + next)), dec, acc) ==
            ListFrom(next, dec, acc + EntryValues(e, dec))
  {
    hide ParseAddress, SkipCFWS, SkipCommas, ListFrom, IsEntryAt, EntryText, EntryValues, AfterEntry, TailText, IsTail;
    EntryRead(e, TailText(t, gap + next), dec);
    TailRead(t, e, gap + next);
    ListTurn(EntryText(e, TailText(t, gap + next)), dec, acc);
    SkipCommasInGap(gap, next);
  }

  // ---- one entry -------------------------------------------------------------------------------

  /** One entry and what may follow it is the whole of a list; as a single address it must have exactly
      one value. */
  lemma EntryAlone(e: Entry, t: Tail, dec: Decoder)
    requires IsEntryAt(e, TailText(t, []), dec) && IsTail(t, e, [])
    ensures var s, l := EntryText(e, TailText(t, [])), EntryValues(e, dec);
            && ParseSingle(s, dec).value ==
               (if l == [] then Err(EmptyGroup) else if |l| == 1 then Ok(l[0]) else Err(MultipleInGroup))
            && (s != [] && EndsGap(s) ==> ParseList(s, dec).value == Ok(l))
  {
    hide ParseAddress, SkipCFWS, SkipCommas, ListFrom, ParseSingle, IsEntryAt, EntryText, EntryValues, AfterEntry,
         TailText, IsTail;
    var s := EntryText(e, TailText(t, []));
    EntryRead(e, TailText(t, []), dec);
    TailRead(t, e, []);
    SingleSteps(s, dec);
    if s != [] && EndsGap(s) {
      ListTurn(s, dec, []);
      assert [] + EntryValues(e, dec) == EntryValues(e, dec);
    }
  }

  /** A comment that is never closed is an error after a mailbox; after a group it is overlooked. */
  lemma UnclosedCommentAfter(e: Entry, text: Text, dec: Decoder)
    requires IsEntryAt(e, text, dec) && NeverCloses(text)
    ensures var s, l := EntryText(e, text), EntryValues(e, dec);
            ParseSingle(s, dec).value ==
            if e.One? then Err(BadComment)
            else if l == [] then Err(EmptyGroup) else if |l| == 1 then Ok(l[0]) else Err(MultipleInGroup)
  {
    hide SkipCFWS, ParseSingle, ListFrom, IsEntryAt, EntryText, EntryValues, NeverCloses, ParseAddress;
    NeverClosesIs(text);
    if e.One? {
      AfterEntryFails(e, text, dec, []);
    } else {
      assert text + [] == text;
      EntryAlone(e, Unclosed(text), dec);
    }
  }

  function OneLetterGroup(): Entry {
    Group(Head([], [Spaced(Bare([103]), [])], [], []), [], [])
  }

  lemma OneLetterGroupIs(dec: Decoder)
    requires dec([103]) == NotEncoded
    ensures EntryText(OneLetterGroup(), []) == [103, COLON, SEMI] && IsEntryAt(OneLetterGroup(), [], dec)
  {
    var t := [COLON] + GroupBody([], [], []);
    var words := [Spaced(Bare([103]), [])];
    assert t == [COLON, SEMI];
    assert words[1..] == [] && [] + t == t && [] + ([] + t) == t;
    assert WordsText(words, t) == [103, COLON, SEMI];
    assert Readable([], t, dec);
    WordsAreNoAddrSpec(words, t, dec);
    hide AddrSpec;
  }

  /** A list of empty groups is accepted as no addresses: for example `g:;`. */
  lemma EmptyGroupAccepted(dec: Decoder)
    requires dec([103]) == NotEncoded
    ensures ParseList([103, COLON, SEMI], dec).value == Ok([])
  {
    assert TailText(Padded([]), []) == [];
    OneLetterGroupIs(dec);
    hide EntryText, IsEntryAt, ListFrom, ParseSingle;
    EntryAlone(OneLetterGroup(), Padded([]), dec);
  }

  // ---- printed addresses, with anything around them ------------------------------------------------

  /** A printed address, and whatever follows, is accepted as a single address if and only if what follows
      is white space and comments. */
  lemma PrintedAlone(a: Address, enc: Encoders, rest: Text, dec: Decoder)
    requires IsMailbox(a.address) && IsPlain(a.name)
    ensures ParseSingle(Print(a, enc) + rest, dec).value.Ok? <==> exists pads :: PaddedAs(rest, pads, [])
    ensures ParseSingle(Print(a, enc) + rest, dec).value.Ok? ==> ParseSingle(Print(a, enc) + rest, dec).value == Ok(a)
  {
    hide ParseAddress, SkipCFWS, Print, ParseSingle, IsMailbox, IsPlain, PaddedAs;
    ParsePrinted(a, enc, rest, true, dec);
    SingleSteps(Print(a, enc) + rest, dec);
    PaddingAccepts(rest, []);
  }

  /** A printed entry of a list, the white space and comments after it, and the commas up to the next. */
  datatype PrintedEntry = PrintedEntry(address: Address, pads: seq<Pad>, gap: Text)

  function PrintedText(es: seq<PrintedEntry>, enc: Encoders): Text {
    if es == [] then []
    else Print(es[0].address, enc) + (PadText(es[0].pads) + (es[0].gap + PrintedText(es[1..], enc)))
  }

  ghost predicate ArePrinted(es: seq<PrintedEntry>) {
    es == [] ||
    (&& IsMailbox(es[0].address.address) && IsPlain(es[0].address.name) && IsPadding(es[0].pads)
     && IsGap(es[0].gap) && (es[0].gap != [] ==> es[0].gap[0] == COMMA) && (|es| > 1 ==> es[0].gap != [])
     && ArePrinted(es[1..]))
  }

  function PrintedAddresses(es: seq<PrintedEntry>): seq<Address> {
    if es == [] then [] else [es[0].address] + PrintedAddresses(es[1..])
  }

  lemma PrintedStart(es: seq<PrintedEntry>, enc: Encoders)
    requires ArePrinted(es)
    ensures EndsGap(PrintedText(es, enc)) && (es != [] ==> PrintedText(es, enc) != [])
  {
    hide Print, IsPlain, IsMailbox;
    if es != [] {
      PrintStart(es[0].address, enc);
    }
  }

  /** Comments, white space and empty entries between printed addresses change nothing. */
  lemma {:induction false} PaddedEntriesParse(lead: Text, es: seq<PrintedEntry>, enc: Encoders, dec: Decoder)
    requires IsGap(lead) && es != [] && ArePrinted(es)
    ensures ParseList(lead + PrintedText(es, enc), dec).value == Ok(PrintedAddresses(es))
  {
    hide ListFrom, PrintedText, ArePrinted, PrintedAddresses;
    PrintedStart(es, enc);
    LeadSkipped(lead, PrintedText(es, enc), dec);
    PrintedParse(es, enc, dec, []);
    assert [] + PrintedAddresses(es) == PrintedAddresses(es);
  }

  lemma {:induction false} PrintedParse(es: seq<PrintedEntry>, enc: Encoders, dec: Decoder, acc: seq<Address>)
    requires es != [] && ArePrinted(es)
    ensures ListFrom(PrintedText(es, enc), dec, acc).value == Ok(acc + PrintedAddresses(es))
  {
    hide ListFrom, ParseAddress, SkipCFWS, SkipCommas, Print, IsPlain, IsMailbox, PadText;
    var e, next := es[0], PrintedText(es[1..], enc);
    var rest := e.gap + next;
    PrintedStart(es, enc);
    PrintedStart(es[1..], enc);
    ParsePrinted(e.address, enc, PadText(e.pads) + rest, true, dec);
    GapStops(e.gap, next, |es| == 1);
    PaddingSkipped(e.pads, rest);
    ListTurn(PrintedText(es, enc), dec, acc);
    SkipCommasInGap(e.gap, next);
    if |es| == 1 {
      assert PrintedAddresses(es[1..]) == [] && [e.address] + [] == [e.address];
      assert e.gap + [] == e.gap;
    } else {
      PrintedParse(es[1..], enc, dec, acc + [e.address]);
      assert acc + [e.address] + PrintedAddresses(es[1..]) == acc + ([e.address] + PrintedAddresses(es[1..]));
    }
  }

  lemma GapStops(gap: Text, next: Text, last: bool)
    requires (gap != [] ==> gap[0] == COMMA) && (last ==> next == []) && (!last ==> gap != [])
    ensures StopsPadding(gap + next)
    ensures gap + next != [] ==> (gap + next)[0] == COMMA
    ensures gap + next == [] <==> gap == []
  {
  }

  // ---- names printed as encoded words -----------------------------------------------------------------

  /** An encoded name: words that stand for the name once decoded, and cannot be taken for an addr-spec. */
  ghost predicate Undone(w: Text, name: Text, dec: Decoder) {
    exists words :: WrittenAs(words, w, name, dec)
  }

  ghost predicate WrittenAs(words: seq<Spaced>, w: Text, name: Text, dec: Decoder) {
    && words != [] && Readable(words, [LT], dec) && StopsPhrase([LT])
    && WordsText(words, []) == w + [SP] && SpellAll(words, dec) == name
    && words[0].word.Bare? && AT !in words[0].word.w
  }

  lemma {:induction false} WordsTextTail(words: seq<Spaced>, rest: Text)
    ensures WordsText(words, rest) == WordsText(words, []) + rest
  {
    if words == [] {
      assert [] + rest == rest;
    } else {
      WordsTextTail(words[1..], rest);
      var w, gap, more := Written(words[0].word), words[0].gap, WordsText(words[1..], []);
      assert w + (gap + (more + rest)) == w + (gap + more) + rest;
    }
  }

  lemma {:induction false} ReadableTail(words: seq<Spaced>, t: Text, dec: Decoder)
    requires Readable(words, [LT], dec)
    ensures Readable(words, [LT] + t, dec)
  {
    hide IsNameWord, IsWhite, StopsAtom, Written;
    if words != [] {
      ReadableTail(words[1..], t, dec);
      WordsTextTail(words[1..], [LT]);
      WordsTextTail(words[1..], [LT] + t);
      SameStart(words[0].gap, WordsText(words[1..], []), t);
    }
  }

  lemma SameStart(gap: Text, more: Text, t: Text)
    ensures StopsAtom(gap + (more + [LT])) <==> StopsAtom(gap + (more + ([LT] + t)))
  {
    assert (gap + (more + ([LT] + t)))[..|gap + more| + 1] == gap + (more + [LT]);
  }

  /** An encoded name before an angle-addr is read as the name. */
  lemma EncodedName(w: Text, name: Text, t: Text, handleGroup: bool, dec: Decoder)
    requires Undone(w, name, dec)
    ensures ParseAddress(w + [SP, LT] + t, handleGroup, dec) == AngleAddr([LT] + t, name)
  {
    hide Readable, ParseAddress, AngleAddr, AddrSpec;
    var words :| WrittenAs(words, w, name, dec);
    WordsTextTail(words, [LT] + t);
    assert w + [SP] + ([LT] + t) == w + [SP, LT] + t;
    ReadableTail(words, t, dec);
    WordsAreNoAddrSpec(words, [LT] + t, dec);
    WordsAreAName(words, [LT] + t, handleGroup, dec);
  }

  /** The encoder that String chooses for a name that is not plain: base64 when the name has one of the
      characters an encoded word may not show. */
  predicate NeedsBase64(name: Text) {
    exists c :: c in name && c in
      {'"' as int, '#' as int, '$' as int, '%' as int, '&' as int, '\'' as int, '(' as int, ')' as int, ',' as int,
       '.' as int, ':' as int, ';' as int, '<' as int, '>' as int, '@' as int, '[' as int, ']' as int, '^' as int,
       '`' as int, '{' as int, '|' as int, '}' as int, '~' as int}
  }

  lemma SpecialsAre(name: Text)
    ensures NeedsBase64(name) <==> exists i :: 0 <= i < |name| && name[i] in NAME_SPECIALS
  {
    if NeedsBase64(name) {
      var c :| c in name && c in NAME_SPECIALS;
      var i :| 0 <= i < |name| && name[i] == c;
    }
    forall i | 0 <= i < |name| && name[i] in NAME_SPECIALS ensures NeedsBase64(name) {
      assert name[i] in name;
    }
  }

  /** A name that is not plain survives whenever the decoder undoes the encoding String chooses for it;
      the other encoding does not matter. */
  lemma PrintParseEncoded(a: Address, enc: Encoders, rest: Text, handleGroup: bool, dec: Decoder)
    requires IsMailbox(a.address) && !IsPlain(a.name)
    requires Undone(if NeedsBase64(a.name) then enc.b(a.name) else enc.q(a.name), a.name, dec)
    ensures ParseAddress(Print(a, enc) + rest, handleGroup, dec) == Parsed(None, 1, [a], rest)
  {
    hide Undone, NeedsBase64, IsMailbox, AddrSpec, ParseAddress;
    var t := SpecText(a.address, [GT] + rest);
    var w := if NeedsBase64(a.name) then enc.b(a.name) else enc.q(a.name);
    SpecialsAre(a.name);
    EncodedShape(a, enc, rest, w);
    AddrSpecExact(a.address, [GT] + rest);
    AngleSteps(t, a, rest);
    EncodedName(w, a.name, t, handleGroup, dec);
  }

  lemma EncodedShape(a: Address, enc: Encoders, rest: Text, w: Text)
    requires !IsPlain(a.name)
    requires w == if exists i :: 0 <= i < |a.name| && a.name[i] in NAME_SPECIALS then enc.b(a.name) else enc.q(a.name)
    ensures Print(a, enc) + rest == w + [SP, LT] + SpecText(a.address, [GT] + rest)
  {
    hide LastAt, IsDotAtomText, Quote, LocalOf, DomainOf;
    var local, domain := PrintLocal(LocalOf(a.address)), DomainOf(a.address);
    SpecMoves(local, domain, rest);
    QuotedMoves(w, [LT] + local + [AT] + domain + [GT], rest, local + ([AT] + (domain + ([GT] + rest))));
  }

  // ---- addresses that are not addr-specs ---------------------------------------------------------------

  /** Without an '@' the whole address is printed as the local part, with nothing after the '@'. */
  lemma PrintWithoutAt(name: Text, x: Text, enc: Encoders)
    requires AT !in x
    ensures Print(Address(name, x), enc) == Print(Address(name, x + [AT]), enc)
  {
    assert LocalOf(x) == x && DomainOf(x) == [];
    assert x + [AT] + [] == x + [AT];
    SplitAtLast(x, []);
  }

  /** Whatever the local part, printing and reading it back gives it without the characters that cannot be
      quoted. */
  lemma LocalKeeps(local: Text, tail: Text)
    requires local != [] && !IsDotAtomText(local) && Quotable(local) != []
    ensures LocalPart(PrintLocal(local) + tail) == Scan(Ok(Quotable(local)), tail)
  {
    QuoteKeeps(local, tail);
    assert (Quote(local) + tail)[1..] == Escape(local) + ([QUOTE] + tail);
    hide QuotedBody;
  }
}
