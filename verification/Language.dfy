/**
  The language of the parser: addr-specs, mailboxes, groups and lists as trees, what texts they are
  written as and what they mean.  A text is accepted exactly when a tree is written that way, with the
  meaning of the tree as the result.
 */
module Language {
  import opened Wrappers
  import opened Text
  import opened Grammar
  import opened GrammarSteps
  import opened RoundTrip
  import opened Comments
  import opened QuotedStrings
  import opened Syntax

  // ---- addr-specs --------------------------------------------------------------------------

  datatype Local = Dotted(atom: Text) | InString(qs: seq<QChar>)

  /** `lead local@gap domain`. */
  datatype Spec = Spec(lead: Text, local: Local, gap: Text, domain: Text)

  predicate IsLocal(l: Local) {
    match l
    case Dotted(a) => IsDotAtom(a)
    case InString(qs) => AllQChars(qs) && qs != []
  }

  function LocalText(l: Local): Text {
    match l
    case Dotted(a) => a
    case InString(qs) => InQuotes(qs)
  }

  function LocalValue(l: Local): Text {
    match l
    case Dotted(a) => a
    case InString(qs) => QContent(qs)
  }

  predicate IsSpecShape(t: Spec) {
    IsWhite(t.lead) && IsLocal(t.local) && IsWhite(t.gap) && IsDotAtom(t.domain)
  }

  predicate IsSpec(t: Spec) {
    IsSpecShape(t) && ByteLen(t.domain) <= 255 && ByteLen(LocalValue(t.local)) <= 64
  }

  function SpecWritten(t: Spec, rest: Text): Text {
    t.lead + (LocalText(t.local) + ([AT] + (t.gap + (t.domain + rest))))
  }

  function SpecValue(t: Spec): Text {
    LocalValue(t.local) + [AT] + t.domain
  }

  /** What a dot-atom stops at. */
  predicate StopsDotAtom(s: Text) {
    s == [] || (Valid(s[0]) && !IsAtext(s[0], true, false))
  }

  lemma LocalRead(l: Local, tail: Text)
    requires IsLocal(l) && StopsDotAtom(tail)
    ensures var s := LocalText(l) + tail;
            s != [] && !IsWSP(s[0]) && LocalPart(s) == Scan(Ok(LocalValue(l)), tail)
  {
    match l
    case Dotted(a) =>
      AtomExact(a, tail);
      assert IsAtext(a[0], true, false);
    case InString(qs) => InQuotesRead(qs, tail);
  }

  lemma LocalFound(s: Text) returns (l: Local)
    requires s != [] && LocalPart(s).value.Ok?
    ensures IsLocal(l) && LocalPart(s).value == Ok(LocalValue(l)) && s == LocalText(l) + LocalPart(s).rest
  {
    if s[0] == QUOTE {
      var qs := InQuotesFound(s);
      l := InString(qs);
    } else {
      AtomSound(s);
      l := Dotted(Atom(s, true, false).value.value);
    }
  }

  lemma {:induction false} LeadOf(s: Text) returns (lead: Text)
    ensures IsWhite(lead) && s == lead + SkipSpace(s)
  {
    lead := [];
    if s != [] && IsWSP(s[0]) {
      lead := LeadOf(s[1..]);
      lead := [s[0]] + lead;
    }
  }

  /** The steps of reading an addr-spec up to its length checks. */
  lemma SpecSteps(s: Text, u: Text, local: Text, after: Text, v: Text, domain: Text, rest: Text)
    requires SkipSpace(s) == u && u != [] && LocalPart(u) == Scan(Ok(local), [AT] + after)
    requires SkipSpace(after) == v && v != [] && Atom(v, true, false) == Scan(Ok(domain), rest)
    ensures AddrSpec(s).value ==
            if ByteLen(domain) > 255 then Err(DomainTooLong)
            else if ByteLen(local) > 64 then Err(LocalTooLong)
            else Ok(local + [AT] + domain)
    ensures AddrSpec(s).value.Ok? ==> AddrSpec(s).rest == rest
  {
    hide LocalPart, Atom, SkipSpace;
    assert ([AT] + after)[1..] == after;
    ByteLenConcat(local, [AT]);
    ByteLenConcat(local + [AT], domain);
  }

  /** An addr-spec is read as its value, up to the end of its domain; only its lengths can fail it. */
  lemma SpecRead(t: Spec, rest: Text)
    requires IsSpecShape(t) && StopsDotAtom(rest)
    ensures AddrSpec(SpecWritten(t, rest)).value ==
            if ByteLen(t.domain) > 255 then Err(DomainTooLong)
            else if ByteLen(LocalValue(t.local)) > 64 then Err(LocalTooLong)
            else Ok(SpecValue(t))
    ensures IsSpec(t) ==> AddrSpec(SpecWritten(t, rest)) == Scan(Ok(SpecValue(t)), rest)
  {
    var v := t.domain + rest;
    var after := t.gap + v;
    var u := LocalText(t.local) + ([AT] + after);
    LocalRead(t.local, [AT] + after);
    SkipsWhite(t.lead, u);
    SkipsNothing(u);
    DomainExact(t.domain, rest);
    SkipsWhite(t.gap, v);
    SpecSteps(t.lead + u, u, LocalValue(t.local), after, v, t.domain, rest);
  }

  /** What is accepted as an addr-spec is written like one. */
  lemma SpecFound(s: Text) returns (t: Spec)
    requires AddrSpec(s).value.Ok?
    ensures IsSpec(t) && StopsDotAtom(AddrSpec(s).rest)
    ensures s == SpecWritten(t, AddrSpec(s).rest) && AddrSpec(s).value == Ok(SpecValue(t))
  {
    SpecParts(s);
    hide LocalPart, Atom, SkipSpace, AddrSpec, IsLocal, IsDotAtom, LocalText, LocalValue, ByteLen;
    var u := SkipSpace(s);
    var lead := LeadOf(s);
    var l := LocalPart(u);
    var local := LocalFound(u);
    var after := l.rest[1..];
    var gap := LeadOf(after);
    var v := SkipSpace(after);
    var d := Atom(v, true, false);
    AtomSound(v);
    AtomEnds(v);
    t := Spec(lead, local, gap, d.value.value);
    assert l.rest == [AT] + after;
  }

  /** The parts of a text that is accepted as an addr-spec. */
  lemma SpecParts(s: Text)
    requires AddrSpec(s).value.Ok?
    ensures var u := SkipSpace(s);
            && u != [] && LocalPart(u).value.Ok? && Starts(LocalPart(u).rest, AT)
            && var v := SkipSpace(LocalPart(u).rest[1..]);
            && v != [] && Atom(v, true, false).value.Ok? && AddrSpec(s).rest == Atom(v, true, false).rest
            && var local, domain := LocalPart(u).value.value, Atom(v, true, false).value.value;
            && ByteLen(domain) <= 255 && ByteLen(local) <= 64 && AddrSpec(s).value == Ok(local + [AT] + domain)
  {
    hide LocalPart, Atom, SkipSpace;
  }

  lemma AtomEnds(s: Text)
    requires Atom(s, true, false).value.Ok?
    ensures StopsDotAtom(Atom(s, true, false).rest)
  {
    var n := AtomLen(s, true, false);
    if n < |s| {
      assert s[n..][0] == s[n];
    }
  }

  ghost predicate SpecAs(s: Text, t: Spec, x: Text, rest: Text) {
    IsSpec(t) && StopsDotAtom(rest) && s == SpecWritten(t, rest) && x == SpecValue(t)
  }

  /** The addr-specs that are accepted are exactly those written like one, with that value and rest. */
  lemma SpecAccepts(s: Text, x: Text, rest: Text)
    ensures AddrSpec(s) == Scan(Ok(x), rest) <==> exists t :: SpecAs(s, t, x, rest)
  {
    hide AddrSpec, IsSpec;
    if AddrSpec(s) == Scan(Ok(x), rest) {
      var t := SpecFound(s);
      assert SpecAs(s, t, x, rest);
    }
    forall t | SpecAs(s, t, x, rest) ensures AddrSpec(s) == Scan(Ok(x), rest) {
      IsShape(t);
      SpecRead(t, rest);
    }
  }

  lemma IsShape(t: Spec)
    requires IsSpec(t)
    ensures IsSpecShape(t)
  {
  }

  // ---- display names before an angle-addr or a group -----------------------------------------

  /** White space, words, possibly a last word that is dropped, and white space after that.  Without any
      words there is no name. */
  datatype Head = Head(lead: Text, words: seq<Spaced>, dropped: Text, gap: Text)

  function HeadText(h: Head, rest: Text): Text {
    h.lead + WordsText(h.words, h.dropped + (h.gap + rest))
  }

  /** A head before `rest`, an angle-addr or the colon of a group: its words can be read one by one, are
      not an addr-spec, and what is dropped is an atom in an unknown charset. */
  predicate IsHead(h: Head, rest: Text, dec: Decoder) {
    && IsWhite(h.lead) && IsWhite(h.gap)
    && (if h.words == [] then h.dropped == [] && h.gap == [] && Starts(rest, LT)
        else
          && Readable(h.words, h.dropped + (h.gap + rest), dec)
          && AddrSpec(WordsText(h.words, h.dropped + (h.gap + rest))).value.Err?
          && (if h.dropped == [] then h.gap == []
              else IsNameWord(Bare(h.dropped)) && dec(h.dropped) == UnknownCharset))
  }

  predicate StartsAfterName(rest: Text) {
    Starts(rest, LT) || Starts(rest, COLON)
  }

  function AfterName(rest: Text, name: Text, handleGroup: bool, dec: Decoder): Parsed {
    if handleGroup && Starts(rest, COLON) then GroupList(rest[1..], dec) else AngleAddr(rest, name)
  }

  lemma ParseSkipsWhite(lead: Text, s: Text, handleGroup: bool, dec: Decoder)
    requires IsWhite(lead)
    ensures ParseAddress(lead + s, handleGroup, dec) == ParseAddress(s, handleGroup, dec)
  {
    hide AddrSpec, BareAddr, PhraseFrom, AngleAddr, GroupList, SkipSpace;
    SkipsWhite(lead, s);
  }

  lemma HeadRead(h: Head, rest: Text, handleGroup: bool, dec: Decoder)
    requires IsHead(h, rest, dec) && StartsAfterName(rest)
    ensures ParseAddress(HeadText(h, rest), handleGroup, dec) ==
            AfterName(rest, SpellAll(h.words, dec), handleGroup, dec)
  {
    hide ParseAddress, AddrSpec, GroupList, AngleAddr, Readable, IsWhite;
    var tail := h.dropped + (h.gap + rest);
    ParseSkipsWhite(h.lead, WordsText(h.words, tail), handleGroup, dec);
    if h.words == [] {
      assert [] + rest == rest && [] + ([] + rest) == rest;
      UnnamedIsAngle(rest[1..], handleGroup, dec);
      assert rest == [LT] + rest[1..];
    } else if h.dropped == [] {
      assert [] + rest == rest && tail == rest;
      AfterNameStops(rest);
      WordsAreAName(h.words, rest, handleGroup, dec);
    } else {
      AfterNameStops(rest);
      DroppedStops(h.gap, rest);
      UnknownCharsetDropped(h.words, h.dropped, h.gap + rest, handleGroup, dec);
      SkipsWhite(h.gap, rest);
      SkipsNothing(rest);
    }
  }

  lemma AfterNameStops(rest: Text)
    requires StartsAfterName(rest)
    ensures StopsPhrase(rest) && StopsAtom(rest)
  {
  }

  lemma DroppedStops(gap: Text, rest: Text)
    requires IsWhite(gap) && StopsAtom(rest)
    ensures StopsAtom(gap + rest)
  {
    if gap != [] {
      assert (gap + rest)[0] == gap[0];
    } else {
      assert gap + rest == rest;
    }
  }

  // ---- reading a head back from an accepted text --------------------------------------------

  /** A word that is read is written like one. */
  lemma WordFound(s: Text, dec: Decoder) returns (w: NameWord)
    requires s != [] && PhraseWord(s, dec).scan.value.Ok?
    ensures IsNameWord(w) && s == Written(w) + PhraseWord(s, dec).scan.rest
    ensures w.Bare? ==> dec(w.w) != UnknownCharset && StopsAtom(PhraseWord(s, dec).scan.rest)
    ensures PhraseWord(s, dec) == Word(Scan(Ok(Spell(w, dec)), PhraseWord(s, dec).scan.rest), IsEncoded(w, dec))
  {
    if s[0] == QUOTE {
      var qs := InQuotesFound(s);
      w := Quoted(qs);
    } else {
      var a := AtomFound(s);
      w := Bare(a);
    }
  }

  lemma AtomFound(s: Text) returns (a: Text)
    requires Atom(s, true, true).value.Ok?
    ensures Atom(s, true, true).value == Ok(a) && s == a + Atom(s, true, true).rest
    ensures IsNameWord(Bare(a)) && StopsAtom(Atom(s, true, true).rest)
  {
    var n := AtomLen(s, true, true);
    a := s[..n];
    if n < |s| {
      assert s[n..][0] == s[n];
    }
  }

  /** Reading on from the middle of a phrase that is accepted: white space, words, and a tail that is
      empty or starts with something that is no word. */
  lemma {:induction false} PhraseFound(s: Text, dec: Decoder, prev: bool, count: nat, acc: Text)
    returns (lead: Text, words: seq<Spaced>, tail: Text)
    requires PhraseFrom(s, dec, prev, count, acc).value.Ok? && (prev ==> count > 0)
    requires count > 0 || SkipSpace(s) != []
    ensures IsWhite(lead) && s == lead + WordsText(words, tail) && Readable(words, tail, dec)
    ensures words == [] ==> count > 0
    ensures tail == [] || BadWord(tail, dec)
    ensures PhraseFrom(s, dec, prev, count, acc) ==
            Scan(Ok(if words == [] then acc else
                      acc + (if count == 0 || (prev && IsEncoded(words[0].word, dec)) then [] else [SP])
                          + SpellAll(words, dec)), Unread(tail, dec))
    decreases |s|
  {
    hide PhraseFrom, PhraseWord, IsNameWord, Spell, Written, StopsAtom, SkipSpace, IsEncoded, Readable, WordsText,
         SpellAll, IsWhite, Unread;
    lead := LeadOf(s);
    tail := SkipSpace(s);
    words := [];
    PhraseTurn(s, lead, dec, prev, count, acc);
    if tail != [] && PhraseWord(tail, dec).scan.value.Ok? {
      var w := WordFound(tail, dec);
      var rest := PhraseWord(tail, dec).scan.rest;
      var joined := prev && IsEncoded(w, dec);
      var sep := if count == 0 || joined then [] else [SP];
      var text := acc + sep + Spell(w, dec);
      var n := if joined then count else count + 1;
      WordStep(tail, Spell(w, dec), rest, dec, prev, count, acc, IsEncoded(w, dec));
      var gap, more, end := PhraseFound(rest, dec, IsEncoded(w, dec), n, text);
      words, tail := [Spaced(w, gap)] + more, end;
      WordsJoined(words, w, gap, more, tail, rest, dec);
      if more != [] {
        var between := if IsEncoded(w, dec) && IsEncoded(more[0].word, dec) then [] else [SP];
        assert acc + sep + (Spell(w, dec) + between + SpellAll(more, dec)) ==
               acc + sep + Spell(w, dec) + between + SpellAll(more, dec);
      }
    }
  }

  lemma PhraseTurn(s: Text, lead: Text, dec: Decoder, prev: bool, count: nat, acc: Text)
    requires IsWhite(lead) && s == lead + SkipSpace(s)
    ensures var t := SkipSpace(s);
            && PhraseFrom(s, dec, prev, count, acc) == PhraseFrom(t, dec, prev, count, acc)
            && (t != [] ==> !IsWSP(t[0]))
            && WordsText([], t) == t && Readable([], t, dec)
            && (t == [] || PhraseWord(t, dec).scan.value.Err? ==>
                  && (t == [] || BadWord(t, dec))
                  && PhraseFrom(s, dec, prev, count, acc) ==
                     Scan(if t != [] && count == 0 then Err(MissingWord) else Ok(acc), Unread(t, dec)))
  {
    hide PhraseWord;
    SkipSpaceTwice(s);
  }

  lemma WordsJoined(words: seq<Spaced>, w: NameWord, gap: Text, more: seq<Spaced>, tail: Text, rest: Text, dec: Decoder)
    requires words == [Spaced(w, gap)] + more && IsNameWord(w) && IsWhite(gap)
    requires w.Bare? ==> dec(w.w) != UnknownCharset && StopsAtom(rest)
    requires rest == gap + WordsText(more, tail) && Readable(more, tail, dec)
    ensures Readable(words, tail, dec) && WordsText(words, tail) == Written(w) + rest
    ensures SpellAll(words, dec) ==
            if more == [] then Spell(w, dec)
            else Spell(w, dec) + (if IsEncoded(w, dec) && IsEncoded(more[0].word, dec) then [] else [SP])
                 + SpellAll(more, dec)
  {
    hide IsNameWord, StopsAtom, Spell, Written, IsEncoded;
    assert words[1..] == more;
  }

  /** What starts a text that is accepted but is no addr-spec: a head, then an angle-addr or a group. */
  lemma HeadFound(s: Text, handleGroup: bool, dec: Decoder) returns (h: Head, rest: Text)
    requires ParseAddress(s, handleGroup, dec).err.None? && AddrSpec(SkipSpace(s)).value.Err?
    ensures s == HeadText(h, rest) && IsHead(h, rest, dec) && StartsAfterName(rest)
  {
    hide ParseAddress, AddrSpec, PhraseFrom, IsHead, SkipSpace;
    var lead := LeadOf(s);
    var t := SkipSpace(s);
    AcceptedStart(s, handleGroup, dec);
    if t[0] == LT {
      h, rest := Head(lead, [], [], []), t;
      BracketHead(lead, t, dec);
    } else {
      NamedParse(s, t, handleGroup, dec);
      h, rest := WordsFound(lead, t, dec);
    }
  }

  lemma AcceptedStart(s: Text, handleGroup: bool, dec: Decoder)
    requires ParseAddress(s, handleGroup, dec).err.None?
    ensures var t := SkipSpace(s); t != [] && !IsWSP(t[0])
  {
    hide AddrSpec, PhraseFrom, BareAddr, AngleAddr, GroupList;
  }

  lemma BracketHead(lead: Text, t: Text, dec: Decoder)
    requires IsWhite(lead) && Starts(t, LT)
    ensures lead + t == HeadText(Head(lead, [], [], []), t) && IsHead(Head(lead, [], [], []), t, dec)
  {
    assert [] + t == t && [] + ([] + t) == t;
  }

  lemma WordsFound(lead: Text, t: Text, dec: Decoder) returns (h: Head, rest: Text)
    requires IsWhite(lead) && t != [] && !IsWSP(t[0]) && AddrSpec(t).value.Err?
    requires Phrase(t, dec).value.Ok? && StartsAfterName(SkipSpace(Phrase(t, dec).rest))
    ensures lead + t == HeadText(h, rest) && IsHead(h, rest, dec) && StartsAfterName(rest)
  {
    SkipsNothing(t);
    hide PhraseFrom, AddrSpec, BadWord, Unread, Readable, SkipSpace;
    var none, words, tail := PhraseFound(t, dec, false, 0, []);
    SkipsAll(none, words, tail, t, dec);
    rest := SkipSpace(Unread(tail, dec));
    var dropped, gap := DroppedFound(tail, rest, dec);
    h := Head(lead, words, dropped, gap);
  }

  lemma SkipsAll(none: Text, words: seq<Spaced>, tail: Text, t: Text, dec: Decoder)
    requires IsWhite(none) && t != [] && !IsWSP(t[0]) && t == none + WordsText(words, tail)
    ensures none == [] && t == WordsText(words, tail)
  {
    assert [] + WordsText(words, tail) == WordsText(words, tail);
  }

  lemma NamedParse(s: Text, t: Text, handleGroup: bool, dec: Decoder)
    requires t == SkipSpace(s) && t != [] && t[0] != LT && AddrSpec(t).value.Err?
    requires ParseAddress(s, handleGroup, dec).err.None?
    ensures Phrase(t, dec).value.Ok? && StartsAfterName(SkipSpace(Phrase(t, dec).rest))
  {
    hide AddrSpec, PhraseFrom, GroupList;
  }

  /** Between the words that were read and an angle-addr or colon there is nothing, or one atom in an
      unknown charset. */
  lemma DroppedFound(tail: Text, rest: Text, dec: Decoder) returns (dropped: Text, gap: Text)
    requires tail == [] || BadWord(tail, dec)
    requires rest == SkipSpace(Unread(tail, dec)) && StartsAfterName(rest)
    ensures tail == dropped + (gap + rest) && IsWhite(gap)
    ensures if dropped == [] then gap == [] else IsNameWord(Bare(dropped)) && dec(dropped) == UnknownCharset
  {
    dropped, gap := [], [];
    var u := Unread(tail, dec);
    if tail[0] != QUOTE && Atom(tail, true, true).value.Ok? {
      dropped := AtomFound(tail);
      gap := LeadOf(u);
    } else {
      SkipsNothing(tail);
      assert [] + ([] + tail) == tail;
    }
  }

  // ---- mailboxes ---------------------------------------------------------------------------

  /** An addr-spec with white space and possibly a comment that names it, or a head and an angle-addr. */
  datatype Mailbox =
    | Plainly(spec: Spec, gap: Text, note: Option<Tree>)
    | Named(head: Head, spec: Spec)

  function MailboxText(m: Mailbox, rest: Text): Text {
    match m
    case Plainly(spec, gap, None) => SpecWritten(spec, gap + rest)
    case Plainly(spec, gap, Some(t)) => SpecWritten(spec, gap + ([LPAREN] + (Render(t) + [RPAREN] + rest)))
    case Named(head, spec) => HeadText(head, [LT] + SpecWritten(spec, [GT] + rest))
  }

  predicate IsNote(t: Tree, dec: Decoder) {
    WellFormed(t) && forall w :: w in Fields(Content(t)) ==> dec(w) != UnknownCharset
  }

  /** A mailbox that ends where `rest` starts. */
  predicate IsMailboxAt(m: Mailbox, rest: Text, dec: Decoder) {
    && IsSpec(m.spec)
    && match m
       case Plainly(spec, gap, None) => IsWhite(gap) && StopsDotAtom(gap + rest) && StopsPadding(rest)
       case Plainly(spec, gap, Some(t)) => IsWhite(gap) && IsNote(t, dec)
       case Named(head, spec) => IsHead(head, [LT] + SpecWritten(spec, [GT] + rest), dec)
  }

  function MailboxValue(m: Mailbox, dec: Decoder): Address {
    match m
    case Plainly(spec, _, None) => Address([], SpecValue(spec))
    case Plainly(spec, _, Some(t)) => Address(Join(DecodeAll(Fields(Content(t)), dec), [SP]), SpecValue(spec))
    case Named(head, spec) => Address(SpellAll(head.words, dec), SpecValue(spec))
  }

  /** A mailbox is parsed as its value, and exactly what follows it is left. */
  lemma MailboxRead(m: Mailbox, rest: Text, handleGroup: bool, dec: Decoder)
    requires IsMailboxAt(m, rest, dec)
    ensures ParseAddress(MailboxText(m, rest), handleGroup, dec) == Parsed(None, 1, [MailboxValue(m, dec)], rest)
  {
    IsShape(m.spec);
    hide ParseAddress, AddrSpec, IsSpec, IsSpecShape, IsHead, GroupList, SpecWritten, SpecValue;
    match m
    case Plainly(spec, gap, None) =>
      SpecRead(spec, gap + rest);
      BareForm(SpecWritten(spec, gap + rest), SpecValue(spec), gap + rest, handleGroup, dec);
      NoNote(gap, rest, SpecValue(spec), dec);
    case Plainly(spec, gap, Some(t)) =>
      NoteStops(gap, Render(t) + [RPAREN] + rest);
      SpecRead(spec, gap + ([LPAREN] + (Render(t) + [RPAREN] + rest)));
      CommentIsTheName(MailboxText(m, rest), SpecValue(spec), gap, t, rest, handleGroup, dec);
      DecodeWordsIs(Fields(Content(t)), dec);
    case Named(head, spec) =>
      SpecRead(spec, [GT] + rest);
      HeadRead(head, [LT] + SpecWritten(spec, [GT] + rest), handleGroup, dec);
      AngleSteps(SpecWritten(spec, [GT] + rest), MailboxValue(m, dec), rest);
  }

  lemma NoteStops(gap: Text, text: Text)
    requires IsWhite(gap)
    ensures StopsDotAtom(gap + ([LPAREN] + text))
  {
    if gap != [] {
      assert (gap + ([LPAREN] + text))[0] == gap[0];
    }
  }

  lemma NoNote(gap: Text, rest: Text, x: Text, dec: Decoder)
    requires IsWhite(gap) && StopsPadding(rest)
    ensures BareAddr(gap + rest, x, dec) == Parsed(None, 1, [Address([], x)], rest)
  {
    hide DisplayNameComment;
    SkipsWhite(gap, rest);
    SkipsNothing(rest);
  }

  lemma BareFound(s: Text, x: Text, dec: Decoder) returns (gap: Text, note: Option<Tree>, rest: Text)
    requires BareAddr(s, x, dec).err.None?
    ensures IsWhite(gap) && rest == BareAddr(s, x, dec).rest
    ensures match note
            case None => s == gap + rest && StopsPadding(rest) && BareAddr(s, x, dec).found == [Address([], x)]
            case Some(t) =>
              && s == gap + ([LPAREN] + (Render(t) + [RPAREN] + rest)) && IsNote(t, dec)
              && BareAddr(s, x, dec).found == [Address(Join(DecodeAll(Fields(Content(t)), dec), [SP]), x)]
  {
    gap := LeadOf(s);
    var open := SkipSpace(s);
    rest := BareAddr(s, x, dec).rest;
    note := None;
    if Starts(open, LPAREN) {
      var t, after := NoteFound(open, dec);
      note := Some(t);
      hide DisplayNameComment, Fields, Join;
    } else {
      hide DisplayNameComment;
    }
  }

  lemma NoteFound(open: Text, dec: Decoder) returns (t: Tree, rest: Text)
    requires Starts(open, LPAREN) && DisplayNameComment(open, dec).value.Ok?
    ensures IsNote(t, dec) && open == [LPAREN] + (Render(t) + [RPAREN] + rest)
    ensures DisplayNameComment(open, dec) == Scan(Ok(Join(DecodeAll(Fields(Content(t)), dec), [SP])), rest)
  {
    hide Comment, Fields, Join, DecodeWords;
    t, rest := ReadTree(open[1..], 1);
    CommentExact(t, rest);
    DecodeWordsIs(Fields(Content(t)), dec);
  }

  /** An accepted text that is no group is written like a mailbox. */
  lemma MailboxFound(s: Text, handleGroup: bool, dec: Decoder) returns (m: Mailbox, rest: Text)
    requires ParseAddress(s, handleGroup, dec).err.None? && !IsGroupText(s, handleGroup, dec)
    ensures s == MailboxText(m, rest) && IsMailboxAt(m, rest, dec)
    ensures ParseAddress(s, handleGroup, dec) == Parsed(None, 1, [MailboxValue(m, dec)], rest)
  {
    var t := SkipSpace(s);
    if AddrSpec(t).value.Ok? {
      m, rest := PlainFound(s, handleGroup, dec);
    } else {
      var head, after := HeadFound(s, handleGroup, dec);
      m, rest := NamedFound(s, head, after, handleGroup, dec);
    }
    hide ParseAddress, IsMailboxAt;
    MailboxRead(m, rest, handleGroup, dec);
  }

  /** The text is taken for a group: no addr-spec, and a colon after the display name. */
  predicate IsGroupText(s: Text, handleGroup: bool, dec: Decoder) {
    var t := SkipSpace(s);
    && handleGroup && t != [] && AddrSpec(t).value.Err? && t[0] != LT
    && Starts(SkipSpace(Phrase(t, dec).rest), COLON)
  }

  lemma PlainFound(s: Text, handleGroup: bool, dec: Decoder) returns (m: Mailbox, rest: Text)
    requires ParseAddress(s, handleGroup, dec).err.None? && AddrSpec(SkipSpace(s)).value.Ok?
    ensures s == MailboxText(m, rest) && IsMailboxAt(m, rest, dec)
  {
    var lead := LeadOf(s);
    var t := SkipSpace(s);
    var spec := SpecFound(t);
    var x, tail := AddrSpec(t).value.value, AddrSpec(t).rest;
    BareForm(t, x, tail, handleGroup, dec);
    ParseSkipsWhite(lead, t, handleGroup, dec);
    hide ParseAddress, AddrSpec, BareAddr, SkipSpace;
    var gap, note, after := BareFound(tail, x, dec);
    rest := after;
    var wider := spec.(lead := lead + spec.lead);
    WiderSpec(spec, lead, tail);
    m := Plainly(wider, gap, note);
  }

  lemma WiderSpec(t: Spec, lead: Text, rest: Text)
    requires IsSpec(t) && IsWhite(lead)
    ensures IsSpec(t.(lead := lead + t.lead))
    ensures SpecWritten(t.(lead := lead + t.lead), rest) == lead + SpecWritten(t, rest)
  {
    hide IsLocal, IsDotAtom;
    var more := LocalText(t.local) + ([AT] + (t.gap + (t.domain + rest)));
    assert lead + t.lead + more == lead + (t.lead + more);
  }

  lemma NamedFound(s: Text, head: Head, after: Text, handleGroup: bool, dec: Decoder)
    returns (m: Mailbox, rest: Text)
    requires ParseAddress(s, handleGroup, dec).err.None? && !IsGroupText(s, handleGroup, dec)
    requires s == HeadText(head, after) && IsHead(head, after, dec) && StartsAfterName(after)
    ensures s == MailboxText(m, rest) && IsMailboxAt(m, rest, dec)
  {
    HeadRead(head, after, handleGroup, dec);
    if handleGroup && Starts(after, COLON) {
      GroupHeadIs(s, head, after, dec);
      assert false;
    }
    hide ParseAddress, IsHead, IsGroupText;
    var spec, end := AngleFound(after, SpellAll(head.words, dec));
    m, rest := Named(head, spec), end;
  }

  lemma AngleFound(s: Text, name: Text) returns (spec: Spec, rest: Text)
    requires AngleAddr(s, name).err.None?
    ensures IsSpec(spec) && s == [LT] + SpecWritten(spec, [GT] + rest)
    ensures AngleAddr(s, name) == Parsed(None, 1, [Address(name, SpecValue(spec))], rest)
  {
    hide AddrSpec;
    spec := SpecFound(s[1..]);
    rest := AddrSpec(s[1..]).rest[1..];
    assert AddrSpec(s[1..]).rest == [GT] + rest;
  }

  lemma GroupHeadIs(s: Text, head: Head, after: Text, dec: Decoder)
    requires s == HeadText(head, after) && IsHead(head, after, dec) && Starts(after, COLON)
    ensures IsGroupText(s, true, dec)
  {
    var tail := head.dropped + (head.gap + after);
    var t := WordsText(head.words, tail);
    WrittenStart(head.words[0].word, head.words[0].gap + WordsText(head.words[1..], tail));
    SkipsWhite(head.lead, t);
    SkipsNothing(t);
    if head.dropped == [] {
      assert tail == after;
      AfterNameStops(after);
      WordsArePhrase(head.words, after, dec);
      SkipsNothing(after);
    } else {
      AfterNameStops(after);
      DroppedStops(head.gap, after);
      UnknownIsBad(head.dropped, head.gap + after, dec);
      BadWordPhrase(head.words, tail, dec);
      SkipsWhite(head.gap, after);
      SkipsNothing(after);
    }
    hide AddrSpec, PhraseFrom, SkipSpace;
  }

  lemma BadWordPhrase(words: seq<Spaced>, tail: Text, dec: Decoder)
    requires words != [] && Readable(words, tail, dec) && BadWord(tail, dec)
    ensures Phrase(WordsText(words, tail), dec) == Scan(Ok(SpellAll(words, dec)), Unread(tail, dec))
  {
    hide BadWord;
    var n, last := NameWords(words, tail, dec, false, 0, []);
    assert [] + [] + SpellAll(words, dec) == SpellAll(words, dec);
    BadWordEnds(tail, dec, last, n, SpellAll(words, dec));
  }

  // ---- groups ------------------------------------------------------------------------------

  /** A member of a group and the white space and comments after it. */
  datatype Member = Member(mailbox: Mailbox, pads: seq<Pad>)

  function MemberTail(ms: seq<Member>, rest: Text): Text
    requires ms != []
    decreases |ms|, 0
  {
    if |ms| == 1 then [SEMI] + rest else [COMMA] + MembersText(ms[1..], rest)
  }

  function MembersText(ms: seq<Member>, rest: Text): Text
    requires ms != []
    decreases |ms|, 1
  {
    MailboxText(ms[0].mailbox, PadText(ms[0].pads) + MemberTail(ms, rest))
  }

  predicate AreMembers(ms: seq<Member>, rest: Text, dec: Decoder)
    requires ms != []
    decreases |ms|
  {
    && IsMailboxAt(ms[0].mailbox, PadText(ms[0].pads) + MemberTail(ms, rest), dec)
    && IsPadding(ms[0].pads)
    && (|ms| > 1 ==> AreMembers(ms[1..], rest, dec))
  }

  function MemberValues(ms: seq<Member>, dec: Decoder): (l: seq<Address>)
    ensures |l| == |ms|
  {
    if ms == [] then [] else [MailboxValue(ms[0].mailbox, dec)] + MemberValues(ms[1..], dec)
  }

  lemma GroupFromIs(s: Text, dec: Decoder, total: nat)
    ensures var p := ParseAddress(s, false, dec);
            GroupFrom(s, dec, total) == if p.err.Some? then p.(count := 0) else GroupAfter(p, dec, total)
  {
    hide ParseAddress, GroupAfter, SkipSpace;
    var lead := LeadOf(s);
    ParseSkipsWhite(lead, SkipSpace(s), false, dec);
  }

  lemma {:induction false} MembersRead(ms: seq<Member>, rest: Text, dec: Decoder, total: nat)
    requires ms != [] && AreMembers(ms, rest, dec)
    ensures GroupFrom(MembersText(ms, rest), dec, total) ==
            Parsed(None, total + |ms|, MemberValues(ms, dec), SkipCFWS(rest).rest)
    decreases |ms|
  {
    hide ParseAddress, GroupAfter, GroupFrom, MailboxText, IsMailboxAt, MailboxValue, PadText, IsPadding, SkipCFWS;
    var m, end := ms[0], MemberTail(ms, rest);
    var p := Parsed(None, 1, [MailboxValue(m.mailbox, dec)], PadText(m.pads) + end);
    MailboxRead(m.mailbox, PadText(m.pads) + end, false, dec);
    GroupFromIs(MembersText(ms, rest), dec, total);
    PaddingSkipped(m.pads, end);
    GroupAfterTurn([], p, dec, total);
    FoundNothing(GroupAfter(p, dec, total));
    assert [] + [MailboxValue(m.mailbox, dec)] == [MailboxValue(m.mailbox, dec)];
    if |ms| == 1 {
      assert end[1..] == rest;
      assert MemberValues(ms[1..], dec) == [];
    } else {
      assert end[1..] == MembersText(ms[1..], rest);
      MembersRead(ms[1..], rest, dec, total + 1);
    }
  }

  lemma {:induction false} MembersFound(s: Text, dec: Decoder, total: nat) returns (ms: seq<Member>, rest: Text)
    requires GroupFrom(s, dec, total).err.None?
    ensures ms != [] && s == MembersText(ms, rest) && AreMembers(ms, rest, dec)
    decreases |s|
  {
    hide ParseAddress, GroupAfter, GroupFrom, MailboxText, IsMailboxAt, MailboxValue, PadText, IsPadding, SkipCFWS,
         IsGroupText;
    GroupFromIs(s, dec, total);
    NoGroupInside(s, dec);
    var m, after := MailboxFound(s, false, dec);
    var p := ParseAddress(s, false, dec);
    GroupAfterTurn([], p, dec, total);
    FoundNothing(GroupAfter(p, dec, total));
    var pads := PaddingFound(after);
    var end := SkipCFWS(after).rest;
    if Starts(end, SEMI) {
      ms, rest := [Member(m, pads)], end[1..];
      assert end == [SEMI] + rest;
    } else {
      Shorter(s, after, end, dec);
      ms, rest := MembersFound(end[1..], dec, total + p.count);
      assert end == [COMMA] + end[1..];
      ms := [Member(m, pads)] + ms;
      assert MemberTail(ms, rest) == end;
    }
  }

  lemma NoGroupInside(s: Text, dec: Decoder)
    ensures !IsGroupText(s, false, dec)
  {
  }

  lemma Shorter(s: Text, after: Text, end: Text, dec: Decoder)
    requires after == ParseAddress(s, false, dec).rest && end == SkipCFWS(after).rest
    ensures |end| <= |s|
  {
    hide ParseAddress, SkipCFWS;
  }

  // ---- entries -----------------------------------------------------------------------------

  /** A mailbox or a group: its name, and its members or the white space in an empty one. */
  datatype Entry = One(mailbox: Mailbox) | Group(head: Head, members: seq<Member>, inside: Text)

  function GroupBody(ms: seq<Member>, inside: Text, rest: Text): Text {
    if ms == [] then inside + ([SEMI] + rest) else MembersText(ms, rest)
  }

  function EntryText(e: Entry, rest: Text): Text {
    match e
    case One(m) => MailboxText(m, rest)
    case Group(head, ms, inside) => HeadText(head, [COLON] + GroupBody(ms, inside, rest))
  }

  predicate IsEntryAt(e: Entry, rest: Text, dec: Decoder) {
    match e
    case One(m) => IsMailboxAt(m, rest, dec)
    case Group(head, ms, inside) =>
      && IsHead(head, [COLON] + GroupBody(ms, inside, rest), dec)
      && (if ms == [] then IsWhite(inside) else inside == [] && AreMembers(ms, rest, dec))
      && (ms != [] ==> !Starts(SkipSpace(MembersText(ms, rest)), SEMI))
  }

  function EntryValues(e: Entry, dec: Decoder): seq<Address> {
    match e
    case One(m) => [MailboxValue(m, dec)]
    case Group(_, ms, _) => MemberValues(ms, dec)
  }

  /** What is left after an entry: a group takes the white space and comments after it along, and an
      unclosed comment with everything behind it. */
  function AfterEntry(e: Entry, rest: Text): Text {
    if e.One? then rest else SkipCFWS(rest).rest
  }

  /** An entry is parsed as its values, their number as the count. */
  lemma EntryRead(e: Entry, rest: Text, dec: Decoder)
    requires IsEntryAt(e, rest, dec)
    ensures ParseAddress(EntryText(e, rest), true, dec) ==
            Parsed(None, |EntryValues(e, dec)|, EntryValues(e, dec), AfterEntry(e, rest))
  {
    hide ParseAddress, IsMailboxAt, IsHead, AreMembers, MembersText, GroupFrom, SkipCFWS, AngleAddr, SkipSpace;
    match e
    case One(m) => MailboxRead(m, rest, true, dec);
    case Group(head, ms, inside) =>
      var body := GroupBody(ms, inside, rest);
      HeadRead(head, [COLON] + body, true, dec);
      assert ([COLON] + body)[1..] == body;
      if ms == [] {
        GroupOfNone(inside, rest, dec);
      } else {
        MembersRead(ms, rest, dec, 0);
        FullGroup(body, dec);
      }
  }

  lemma GroupOfNone(inside: Text, rest: Text, dec: Decoder)
    requires IsWhite(inside)
    ensures GroupList(inside + ([SEMI] + rest), dec) == Parsed(None, 0, [], SkipCFWS(rest).rest)
  {
    hide SkipCFWS, GroupFrom;
    SkipsWhite(inside, [SEMI] + rest);
    SkipsNothing([SEMI] + rest);
    assert ([SEMI] + rest)[1..] == rest;
  }

  lemma FullGroup(body: Text, dec: Decoder)
    requires !Starts(SkipSpace(body), SEMI)
    ensures GroupList(body, dec) == GroupFrom(body, dec, 0)
  {
    hide GroupFrom;
    GroupFromSkipsSpace(body, dec, 0);
  }

  /** An accepted text is written like an entry. */
  lemma EntryFound(s: Text, dec: Decoder) returns (e: Entry, rest: Text)
    requires ParseAddress(s, true, dec).err.None?
    ensures s == EntryText(e, rest) && IsEntryAt(e, rest, dec)
    ensures ParseAddress(s, true, dec) ==
            Parsed(None, |EntryValues(e, dec)|, EntryValues(e, dec), AfterEntry(e, rest))
  {
    if IsGroupText(s, true, dec) {
      e, rest := GroupFound(s, dec);
    } else {
      var m, after := MailboxFound(s, true, dec);
      e, rest := One(m), after;
    }
    hide ParseAddress, IsEntryAt, EntryText, EntryValues, AfterEntry;
    EntryRead(e, rest, dec);
  }

  lemma GroupFound(s: Text, dec: Decoder) returns (e: Entry, rest: Text)
    requires ParseAddress(s, true, dec).err.None? && IsGroupText(s, true, dec)
    ensures s == EntryText(e, rest) && IsEntryAt(e, rest, dec)
  {
    var head, after := HeadFound(s, true, dec);
    GroupAfterHead(s, head, after, dec);
    hide ParseAddress, IsGroupText, IsHead, GroupList, GroupBody, AreMembers, MembersText, SkipSpace;
    var body := after[1..];
    assert after == [COLON] + body;
    var ms, inside, end := BodyFound(body, dec);
    e, rest := Group(head, ms, inside), end;
  }

  lemma BodyFound(body: Text, dec: Decoder) returns (ms: seq<Member>, inside: Text, rest: Text)
    requires GroupList(body, dec).err.None?
    ensures body == GroupBody(ms, inside, rest)
    ensures if ms == [] then IsWhite(inside) else inside == [] && AreMembers(ms, rest, dec)
    ensures ms != [] ==> !Starts(SkipSpace(MembersText(ms, rest)), SEMI)
  {
    hide GroupFrom, SkipCFWS, AreMembers, SkipSpace;
    if Starts(SkipSpace(body), SEMI) {
      inside := LeadOf(body);
      ms := [];
      rest := SkipSpace(body)[1..];
      assert SkipSpace(body) == [SEMI] + rest;
    } else {
      FullGroup(body, dec);
      ms, rest := MembersFound(body, dec, 0);
      inside := [];
    }
  }

  lemma GroupAfterHead(s: Text, head: Head, after: Text, dec: Decoder)
    requires ParseAddress(s, true, dec).err.None? && IsGroupText(s, true, dec)
    requires s == HeadText(head, after) && IsHead(head, after, dec) && StartsAfterName(after)
    ensures Starts(after, COLON) && ParseAddress(s, true, dec) == GroupList(after[1..], dec)
  {
    HeadRead(head, after, true, dec);
    if !Starts(after, COLON) {
      MailboxHeadIs(s, head, after, dec);
      assert false;
    }
  }

  lemma MailboxHeadIs(s: Text, head: Head, after: Text, dec: Decoder)
    requires s == HeadText(head, after) && IsHead(head, after, dec) && Starts(after, LT)
    ensures !IsGroupText(s, true, dec)
  {
    var tail := head.dropped + (head.gap + after);
    var t := WordsText(head.words, tail);
    SkipsWhite(head.lead, t);
    if head.words == [] {
      assert [] + after == after && [] + ([] + after) == after;
      SkipsNothing(t);
    } else {
      WrittenStart(head.words[0].word, head.words[0].gap + WordsText(head.words[1..], tail));
      SkipsNothing(t);
      if head.dropped == [] {
        assert tail == after;
        AfterNameStops(after);
        WordsArePhrase(head.words, after, dec);
        SkipsNothing(after);
      } else {
        AfterNameStops(after);
        DroppedStops(head.gap, after);
        UnknownIsBad(head.dropped, head.gap + after, dec);
        BadWordPhrase(head.words, tail, dec);
        SkipsWhite(head.gap, after);
        SkipsNothing(after);
      }
    }
    hide AddrSpec, PhraseFrom, SkipSpace;
  }

  // ---- what may follow an entry ---------------------------------------------------------------

  /** Padding, or text with a comment that is never closed. */
  datatype Tail = Padded(pads: seq<Pad>) | Unclosed(text: Text)

  function TailText(t: Tail, rest: Text): Text {
    match t
    case Padded(pads) => PadText(pads) + rest
    case Unclosed(text) => text + rest
  }

  ghost predicate NeverCloses(s: Text) {
    forall pads, rest :: !PaddedAs(s, pads, rest)
  }

  /** What may follow: padding, or, after a group and up to the end, an unclosed comment. */
  ghost predicate IsTail(t: Tail, e: Entry, rest: Text) {
    match t
    case Padded(pads) => IsPadding(pads) && StopsPadding(rest)
    case Unclosed(text) => e.Group? && rest == [] && NeverCloses(text)
  }

  lemma NeverClosesIs(s: Text)
    ensures NeverCloses(s) <==> !SkipCFWS(s).ok
  {
    hide SkipCFWS, PaddedAs;
    if SkipCFWS(s).ok {
      PaddingAccepts(s, SkipCFWS(s).rest);
      var pads :| PaddedAs(s, pads, SkipCFWS(s).rest);
    } else {
      forall pads, rest ensures !PaddedAs(s, pads, rest) {
        PaddingAccepts(s, rest);
      }
    }
  }

  lemma TailRead(t: Tail, e: Entry, rest: Text)
    requires IsTail(t, e, rest)
    ensures SkipCFWS(AfterEntry(e, TailText(t, rest))) == Skip(true, rest)
  {
    hide SkipCFWS, IsPadding, NeverCloses;
    match t
    case Padded(pads) =>
      PaddingSkipped(pads, rest);
      NoPadding(rest);
    case Unclosed(text) =>
      assert text + [] == text;
      NeverClosesIs(text);
      BadCFWSEndsInput(text);
      NoPadding([]);
  }

  lemma TailFound(e: Entry, s: Text) returns (t: Tail)
    requires SkipCFWS(AfterEntry(e, s)).ok
    ensures var rest := SkipCFWS(AfterEntry(e, s)).rest; s == TailText(t, rest) && IsTail(t, e, rest)
  {
    hide SkipCFWS, IsPadding, NeverCloses;
    if SkipCFWS(s).ok {
      var pads := PaddingFound(s);
      t := Padded(pads);
      NoPadding(SkipCFWS(s).rest);
    } else {
      t := Unclosed(s);
      NeverClosesIs(s);
      BadCFWSEndsInput(s);
      NoPadding([]);
      assert s + [] == s;
    }
  }

  // ---- a single address ------------------------------------------------------------------------

  ghost predicate SingleAs(s: Text, e: Entry, t: Tail, dec: Decoder) {
    IsEntryAt(e, TailText(t, []), dec) && IsTail(t, e, []) && s == EntryText(e, TailText(t, []))
  }

  /** A single address is accepted, as a, exactly when the whole input is an entry of the one value a and
      what may follow an entry. */
  lemma SingleAccepts(s: Text, a: Address, dec: Decoder)
    ensures ParseSingle(s, dec).value == Ok(a) <==>
            exists e, t :: SingleAs(s, e, t, dec) && EntryValues(e, dec) == [a]
  {
    hide ParseAddress, SkipCFWS, IsEntryAt, EntryText, EntryValues, AfterEntry, TailText, IsTail, ParseSingle;
    if ParseSingle(s, dec).value == Ok(a) {
      SingleSteps(s, dec);
      var e, rest := EntryFound(s, dec);
      var t := TailFound(e, rest);
      assert SingleAs(s, e, t, dec);
    }
    forall e, t | SingleAs(s, e, t, dec) && EntryValues(e, dec) == [a]
      ensures ParseSingle(s, dec).value == Ok(a)
    {
      EntryRead(e, TailText(t, []), dec);
      TailRead(t, e, []);
      SingleSteps(s, dec);
    }
  }

  /** The single parser in steps: the errors in their order, and the whole input on success. */
  lemma SingleSteps(s: Text, dec: Decoder)
    ensures var p, r := ParseAddress(s, true, dec), ParseSingle(s, dec);
            var c := SkipCFWS(p.rest);
            && r.value == (if p.err.Some? then Err(p.err.value)
                           else if !c.ok then Err(BadComment)
                           else if c.rest != [] then Err(ExpectedSingle)
                           else if p.found == [] then Err(EmptyGroup)
                           else if |p.found| > 1 then Err(MultipleInGroup)
                           else Ok(p.found[0]))
            && (r.value.Ok? ==> r.rest == [])
  {
    hide ParseAddress, SkipCFWS;
  }

  // ---- lists -----------------------------------------------------------------------------------

  /** An entry, what follows it, and the commas and white space up to the next one. */
  datatype Item = Item(entry: Entry, tail: Tail, gap: Text)

  function ItemsText(items: seq<Item>): Text {
    if items == [] then []
    else EntryText(items[0].entry, TailText(items[0].tail, items[0].gap + ItemsText(items[1..])))
  }

  ghost predicate AreItems(items: seq<Item>, dec: Decoder) {
    items == [] ||
    (var it, rest := items[0], items[0].gap + ItemsText(items[1..]);
     && IsEntryAt(it.entry, TailText(it.tail, rest), dec) && IsTail(it.tail, it.entry, rest)
     && IsGap(it.gap) && (it.gap != [] ==> it.gap[0] == COMMA)
     && (|items| > 1 ==> it.gap != [])
     && ItemsText(items) != [] && EndsGap(ItemsText(items))
     && AreItems(items[1..], dec))
  }

  function ItemValues(items: seq<Item>, dec: Decoder): seq<Address> {
    if items == [] then [] else EntryValues(items[0].entry, dec) + ItemValues(items[1..], dec)
  }

  /** One turn of the list loop at the start of an entry. */
  lemma ListTurn(s: Text, dec: Decoder, acc: seq<Address>)
    requires s != [] && EndsGap(s)
    ensures var p := ParseAddress(s, true, dec);
            var c := SkipCFWS(p.rest);
            var next := SkipCommas(c.rest);
            ListFrom(s, dec, acc) ==
            if p.err.Some? then Scan(Err(p.err.value), p.rest)
            else if !c.ok then Scan(Err(BadComment), c.rest)
            else if c.rest == [] then Scan(Ok(acc + p.found), [])
            else if c.rest[0] != COMMA then Scan(Err(ExpectedComma), c.rest)
            else if next == [] then Scan(Ok(acc + p.found), [])
            else ListFrom(next, dec, acc + p.found)
  {
    hide ParseAddress, SkipCFWS, SkipCommas;
    SkipsNothing(s);
  }

  lemma {:induction false} ItemsRead(items: seq<Item>, dec: Decoder, acc: seq<Address>)
    requires items != [] && AreItems(items, dec)
    ensures ListFrom(ItemsText(items), dec, acc).value == Ok(acc + ItemValues(items, dec))
    decreases |items|
  {
    hide ParseAddress, SkipCFWS, SkipCommas, ListFrom, IsEntryAt, EntryText, EntryValues, AfterEntry, TailText, IsTail;
    var it, next := items[0], ItemsText(items[1..]);
    var rest := it.gap + next;
    EntryRead(it.entry, TailText(it.tail, rest), dec);
    TailRead(it.tail, it.entry, rest);
    ListTurn(ItemsText(items), dec, acc);
    NextStarts(items, dec);
    SkipCommasInGap(it.gap, next);
    if |items| == 1 {
      assert ItemValues(items[1..], dec) == [] && next == [];
      assert EntryValues(it.entry, dec) + [] == EntryValues(it.entry, dec);
      assert it.gap + next == it.gap;
    } else {
      ItemsRead(items[1..], dec, acc + EntryValues(it.entry, dec));
      assert acc + EntryValues(it.entry, dec) + ItemValues(items[1..], dec) ==
             acc + (EntryValues(it.entry, dec) + ItemValues(items[1..], dec));
    }
  }

  lemma NextStarts(items: seq<Item>, dec: Decoder)
    requires items != [] && AreItems(items, dec)
    ensures EndsGap(ItemsText(items[1..])) && (|items| > 1 ==> ItemsText(items[1..]) != [])
  {
    hide IsEntryAt, IsTail, EntryText;
  }

  lemma CommasStep(s: Text)
    requires Starts(s, COMMA)
    ensures var t := SkipSpace(s[1..]);
            && SkipCommas(s) == SkipCommas(t) && (!Starts(t, COMMA) ==> SkipCommas(t) == t)
  {
    hide SkipSpace;
  }

  lemma {:induction false} CommasFound(s: Text) returns (gap: Text)
    requires Starts(s, COMMA)
    ensures IsGap(gap) && gap != [] && gap[0] == COMMA && s == gap + SkipCommas(s) && EndsGap(SkipCommas(s))
    decreases |s|
  {
    hide SkipCommas, SkipSpace;
    var lead := LeadOf(s[1..]);
    var t := SkipSpace(s[1..]);
    CommasStep(s);
    var more := [];
    if Starts(t, COMMA) {
      more := CommasFound(t);
    }
    gap := [COMMA] + (lead + more);
    GapJoined(s, lead, more, t, SkipCommas(s));
  }

  lemma GapJoined(s: Text, lead: Text, more: Text, t: Text, rest: Text)
    requires Starts(s, COMMA) && s[1..] == lead + t && t == more + rest && IsWhite(lead) && IsGap(more)
    ensures s == [COMMA] + (lead + more) + rest && IsGap([COMMA] + (lead + more))
  {
    assert s == [COMMA] + s[1..];
    assert lead + (more + rest) == lead + more + rest;
  }

  lemma {:induction false} ItemsFound(s: Text, dec: Decoder, acc: seq<Address>) returns (items: seq<Item>)
    requires s != [] && EndsGap(s) && ListFrom(s, dec, acc).value.Ok?
    ensures items != [] && AreItems(items, dec) && s == ItemsText(items)
    decreases |s|
  {
    hide ParseAddress, SkipCFWS, SkipCommas, ListFrom, IsEntryAt, EntryText, EntryValues, AfterEntry, TailText, IsTail;
    ListTurn(s, dec, acc);
    var e, after := EntryFound(s, dec);
    var p := ParseAddress(s, true, dec);
    var t := TailFound(e, after);
    var rest := SkipCFWS(p.rest).rest;
    var gap, more: seq<Item> := [], [];
    if rest != [] {
      gap := CommasFound(rest);
      var next := SkipCommas(rest);
      if next != [] {
        ListShorter(s, rest, next, dec);
        more := ItemsFound(next, dec, acc + p.found);
      }
    }
    items := [Item(e, t, gap)] + more;
    assert items[1..] == more;
    assert gap + ItemsText(more) == rest;
  }

  lemma ListShorter(s: Text, rest: Text, next: Text, dec: Decoder)
    requires rest == SkipCFWS(ParseAddress(s, true, dec).rest).rest && Starts(rest, COMMA) && next == SkipCommas(rest)
    ensures |next| < |s|
  {
    hide ParseAddress, SkipCFWS, SkipCommas;
  }

  ghost predicate ListAs(s: Text, lead: Text, items: seq<Item>, dec: Decoder) {
    IsGap(lead) && items != [] && AreItems(items, dec) && s == lead + ItemsText(items)
  }

  lemma {:induction false} LeadFound(s: Text, dec: Decoder) returns (lead: Text, rest: Text)
    requires ListFrom(s, dec, []).value.Ok?
    ensures IsGap(lead) && s == lead + rest && rest != [] && EndsGap(rest)
    ensures ListFrom(rest, dec, []) == ListFrom(s, dec, [])
    decreases |s|
  {
    hide ListFrom, SkipSpace;
    lead := LeadOf(s);
    var t := SkipSpace(s);
    rest := t;
    LeadStep(s, dec);
    if Starts(t, COMMA) {
      var more, end := LeadFound(t[1..], dec);
      LeadJoined(s, lead, t, more, end);
      lead, rest := lead + ([COMMA] + more), end;
    }
  }

  lemma LeadJoined(s: Text, lead: Text, t: Text, more: Text, end: Text)
    requires s == lead + t && Starts(t, COMMA) && t[1..] == more + end && IsWhite(lead) && IsGap(more)
    ensures s == lead + ([COMMA] + more) + end && IsGap(lead + ([COMMA] + more))
  {
    assert t == [COMMA] + (more + end);
    assert lead + ([COMMA] + (more + end)) == lead + ([COMMA] + more) + end;
  }

  lemma LeadStep(s: Text, dec: Decoder)
    ensures var t := SkipSpace(s);
            && ListFrom(s, dec, []) == ListFrom(if Starts(t, COMMA) then t[1..] else t, dec, [])
            && (t == [] ==> ListFrom(s, dec, []).value.Err?)
  {
    hide ParseAddress, SkipCFWS, SkipCommas;
    SkipsNothing(SkipSpace(s));
    NoEntry(SkipSpace(s), dec);
  }

  lemma NoEntry(s: Text, dec: Decoder)
    ensures s == [] ==> ParseAddress(s, true, dec).err.Some?
  {
    assert s == [] ==> SkipSpace(s) == [];
  }

  /** A list is accepted, as l, exactly when the whole input is commas and white space and then entries,
      each followed by padding and, before the next one, at least one comma, whose values in order are l. */
  lemma ListAccepts(s: Text, l: seq<Address>, dec: Decoder)
    ensures ParseList(s, dec).value == Ok(l) <==>
            exists lead, items :: ListAs(s, lead, items, dec) && ItemValues(items, dec) == l
  {
    hide ListFrom, AreItems, ItemsText, ItemValues, IsGap, EndsGap;
    if ParseList(s, dec).value == Ok(l) {
      var lead, rest := LeadFound(s, dec);
      var items := ItemsFound(rest, dec, []);
      ItemsRead(items, dec, []);
      assert [] + ItemValues(items, dec) == ItemValues(items, dec);
      assert ListAs(s, lead, items, dec);
    }
    forall lead, items | ListAs(s, lead, items, dec) && ItemValues(items, dec) == l
      ensures ParseList(s, dec).value == Ok(l)
    {
      ItemsStart(items, dec);
      LeadSkipped(lead, ItemsText(items), dec);
      ItemsRead(items, dec, []);
      assert [] + l == l;
    }
  }

  lemma ItemsStart(items: seq<Item>, dec: Decoder)
    requires items != [] && AreItems(items, dec)
    ensures EndsGap(ItemsText(items))
  {
    hide IsEntryAt, IsTail, EntryText;
  }
}
