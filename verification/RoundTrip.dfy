/**
  Printing and parsing addresses are inverse exactly on well-formed addresses, and everything the
  parser accepts is well-formed.
 */
module RoundTrip {
  import opened Wrappers
  import opened Text
  import opened Grammar
  import opened Printer

  /** The characters a quoted local part may contain. */
  predicate IsQuotable(s: Text) {
    forall i :: 0 <= i < |s| ==> Valid(s[i]) && (IsVchar(s[i]) || IsWSP(s[i]))
  }

  /** A dot-atom of RFC 5322, section 3.2.3. */
  predicate IsDotAtom(s: Text) {
    && s != []
    && (forall i :: 0 <= i < |s| ==> Valid(s[i]) && IsAtext(s[i], true, false))
    && s[0] != DOT && s[|s|-1] != DOT && !HasDoubleDot(s)
  }

  /** local@domain, split at the last '@', within the length limits of RFC 3696, section 3. */
  predicate IsMailbox(x: Text) {
    && LastAt(x) >= 0
    && LocalOf(x) != [] && IsQuotable(LocalOf(x)) && ByteLen(LocalOf(x)) <= MAX_LOCAL
    && IsDotAtom(DomainOf(x)) && ByteLen(DomainOf(x)) <= MAX_DOMAIN
  }

  lemma {:induction false} AtIsLast(local: Text, domain: Text)
    requires AT !in domain
    ensures LastAt(local + [AT] + domain) == |local|
  {
    var x := local + [AT] + domain;
    if domain == [] {
      assert x[|x|-1] == AT;
    } else {
      var before := domain[..|domain|-1];
      assert x[|x|-1] == domain[|domain|-1];
      assert x[..|x|-1] == local + [AT] + before;
      AtIsLast(local, before);
    }
  }

  lemma SplitAtLast(local: Text, domain: Text)
    requires AT !in domain
    ensures LocalOf(local + [AT] + domain) == local && DomainOf(local + [AT] + domain) == domain
    ensures LastAt(local + [AT] + domain) == |local|
  {
    hide LastAt;
    var x := local + [AT] + domain;
    AtIsLast(local, domain);
    assert x[..|local|] == local;
    assert x[|local|+1..] == domain;
  }

  // ---- from printed text back to the address ---------------------------------------------

  lemma AtomExact(a: Text, rest: Text)
    requires IsDotAtom(a)
    requires rest == [] || (Valid(rest[0]) && !IsAtext(rest[0], true, false))
    ensures Atom(a + rest, true, false) == Scan(Ok(a), rest)
  {
    var s := a + rest;
    assert AtomLen(s, true, false) == |a| by {
      var n := AtomLen(s, true, false);
      assert forall i :: 0 <= i < |a| ==> s[i] == a[i];
      assert rest != [] ==> s[|a|] == rest[0];
    }
    assert s[..|a|] == a && s[|a|..] == rest;
  }

  /** The scanner undoes the escaping of one character. */
  lemma EscapedRead(c: int, more: Text)
    requires Valid(c) && (IsVchar(c) || IsWSP(c))
    ensures QuotedBody(EscapeRune(c) + more, false) == Prepend([c], QuotedBody(more, false))
  {
    var s := EscapeRune(c) + more;
    if IsQtext(c) || IsWSP(c) {
      assert s[1..] == more;
    } else {
      assert s == [BSLASH, c] + more && !IsQtext(BSLASH) && !IsWSP(BSLASH);
      assert s[1..] == [c] + more && ([c] + more)[1..] == more;
      assert QuotedBody(s, false) == QuotedBody([c] + more, true);
    }
  }

  lemma QuoteCloses(rest: Text)
    ensures QuotedBody([QUOTE] + rest, false) == Ok(([], rest))
  {
    assert ([QUOTE] + rest)[1..] == rest;
  }

  lemma {:induction false} QuotedExact(t: Text, rest: Text)
    requires IsQuotable(t)
    ensures QuotedBody(Escape(t) + ([QUOTE] + rest), false) == Ok((t, rest))
  {
    hide QuotedBody, EscapeRune;
    var end := [QUOTE] + rest;
    if t == [] {
      assert Escape(t) + end == end;
      QuoteCloses(rest);
    } else {
      QuotedExact(t[1..], rest);
      EscapedRead(t[0], Escape(t[1..]) + end);
      assert Escape(t) + end == EscapeRune(t[0]) + (Escape(t[1..]) + end);
      assert [t[0]] + t[1..] == t;
    }
  }

  lemma QuotedStringExact(t: Text, rest: Text)
    requires IsQuotable(t)
    ensures QuotedString(Quote(t) + rest) == Scan(Ok(t), rest)
  {
    assert (Quote(t) + rest)[1..] == Escape(t) + ([QUOTE] + rest);
    QuotedExact(t, rest);
  }

  /** A quoted display name is read back, whatever follows the '<'. */
  lemma PhraseExact(name: Text, t: Text, dec: Decoder)
    requires IsPlain(name)
    ensures Phrase(Quote(name) + [SP, LT] + t, dec) == Scan(Ok(name), [LT] + t)
  {
    var s := Quote(name) + [SP, LT] + t;
    assert s == Quote(name) + ([SP, LT] + t);
    QuotedStringExact(name, [SP, LT] + t);
    var rest := [SP, LT] + t;
    assert rest[1..] == [LT] + t;
    assert SkipSpace(rest) == [LT] + t;
    assert AtomLen([LT] + t, true, true) == 0;
    assert [] + name == name;
    assert PhraseFrom(rest, dec, false, 1, name) == Scan(Ok(name), [LT] + t);
  }

  /** `"name" <t` is parsed as the angle-addr `<t` with that name. */
  lemma NamedIsAngle(name: Text, t: Text, handleGroup: bool, dec: Decoder)
    requires IsPlain(name)
    ensures ParseAddress(Quote(name) + [SP, LT] + t, handleGroup, dec) == AngleAddr([LT] + t, name)
  {
    var s := Quote(name) + [SP, LT] + t;
    assert s[0] == QUOTE && SkipSpace(s) == s;
    assert AddrSpec(s) == Scan(AddrSpec(s).value, s) && AddrSpec(s).value.Err? by {
      assert s == Quote(name) + ([SP, LT] + t);
      QuotedStringExact(name, [SP, LT] + t);
    }
    PhraseExact(name, t, dec);
    hide AddrSpec, PhraseFrom, AngleAddr, Quote, IsPlain;
  }

  lemma UnnamedIsAngle(t: Text, handleGroup: bool, dec: Decoder)
    ensures ParseAddress([LT] + t, handleGroup, dec) == AngleAddr([LT] + t, [])
  {
    var s := [LT] + t;
    assert SkipSpace(s) == s;
    assert AtomLen(s, true, false) == 0;
  }

  function PrintLocal(local: Text): Text {
    if IsDotAtomText(local) then local else Quote(local)
  }

  lemma UnquotedIsDotAtom(local: Text)
    requires local != [] && IsQuotable(local)
    ensures IsDotAtomText(local) <==> IsDotAtom(local)
  {
    if IsDotAtomText(local) {
      forall i | 0 <= i < |local| ensures IsAtext(local[i], true, false) {
        assert UnquotedAt(local, i);
      }
      assert UnquotedAt(local, 0) && UnquotedAt(local, |local|-1);
      forall i | 0 <= i < |local| - 1 ensures !(local[i] == DOT && local[i+1] == DOT) {
        assert UnquotedAt(local, i+1);
      }
    }
    if IsDotAtom(local) {
      forall i | 0 <= i < |local| ensures UnquotedAt(local, i) {
        if local[i] == DOT && i > 0 {
          var j := i - 1;
          assert local[j+1] == DOT;
          assert local[j] != DOT;
        }
      }
    }
  }

  /** The steps of an addr-spec that succeeds. */
  lemma AddrSpecSteps(s: Text, local: Text, after: Text, domain: Text, rest: Text)
    requires s != [] && SkipSpace(s) == s && LocalPart(s) == Scan(Ok(local), [AT] + after)
    requires after != [] && SkipSpace(after) == after && Atom(after, true, false) == Scan(Ok(domain), rest)
    requires ByteLen(local) <= MAX_LOCAL && ByteLen(domain) <= MAX_DOMAIN
    ensures AddrSpec(s) == Scan(Ok(local + [AT] + domain), rest)
  {
    hide LocalPart, Atom;
    assert ([AT] + after)[1..] == after;
    ByteLenConcat(local, [AT]);
    ByteLenConcat(local + [AT], domain);
  }

  /** The printed form of an address, around its addr-spec, with the text that follows. */
  ghost function SpecText(x: Text, rest: Text): Text {
    PrintLocal(LocalOf(x)) + ([AT] + (DomainOf(x) + rest))
  }

  /** The addr-spec in its printed form is read back, up to a character no atom contains. */
  lemma AddrSpecExact(x: Text, rest: Text)
    requires IsMailbox(x)
    requires rest == [] || (Valid(rest[0]) && !IsAtext(rest[0], true, false))
    ensures AddrSpec(SpecText(x, rest)) == Scan(Ok(x), rest)
  {
    var local, domain := LocalOf(x), DomainOf(x);
    LocalPartExact(local, [AT] + (domain + rest));
    DomainExact(domain, rest);
    AddrSpecSteps(SpecText(x, rest), local, domain + rest, domain, rest);
    assert x == local + [AT] + domain;
  }

  /** On a well-formed addr-spec the byte lengths alone decide, the domain's before the local part's. */
  lemma AddrSpecLimits(local: Text, domain: Text, rest: Text)
    requires local != [] && IsQuotable(local) && IsDotAtom(domain)
    requires rest == [] || (Valid(rest[0]) && !IsAtext(rest[0], true, false))
    ensures AddrSpec(PrintLocal(local) + ([AT] + (domain + rest))).value ==
            if ByteLen(domain) > MAX_DOMAIN then Err(DomainTooLong)
            else if ByteLen(local) > MAX_LOCAL then Err(LocalTooLong)
            else Ok(local + [AT] + domain)
  {
    var after := domain + rest;
    var s := PrintLocal(local) + ([AT] + after);
    LocalPartExact(local, [AT] + after);
    DomainExact(domain, rest);
    hide LocalPart, Atom, PrintLocal, IsQuotable, IsDotAtom;
    assert ([AT] + after)[1..] == after;
    if ByteLen(local) <= MAX_LOCAL && ByteLen(domain) <= MAX_DOMAIN {
      AddrSpecSteps(s, local, after, domain, rest);
    }
  }

  lemma DomainExact(domain: Text, rest: Text)
    requires IsDotAtom(domain)
    requires rest == [] || (Valid(rest[0]) && !IsAtext(rest[0], true, false))
    ensures SkipSpace(domain + rest) == domain + rest
    ensures Atom(domain + rest, true, false) == Scan(Ok(domain), rest)
  {
    AtomExact(domain, rest);
    assert IsAtext(domain[0], true, false);
  }

  lemma LocalPartExact(local: Text, tail: Text)
    requires local != [] && IsQuotable(local) && Starts(tail, AT)
    ensures var s := PrintLocal(local) + tail;
            s != [] && !IsWSP(s[0]) && LocalPart(s) == Scan(Ok(local), tail)
  {
    UnquotedIsDotAtom(local);
    if IsDotAtomText(local) {
      AtomExact(local, tail);
      assert IsAtext(local[0], true, false);
    } else {
      QuotedStringExact(local, tail);
    }
  }

  lemma PrintShape(a: Address, enc: Encoders, rest: Text)
    requires IsPlain(a.name)
    ensures var t := SpecText(a.address, [GT] + rest);
            Print(a, enc) + rest == if a.name == [] then [LT] + t else Quote(a.name) + [SP, LT] + t
  {
    hide LastAt, IsDotAtomText, Quote, IsPlain, LocalOf, DomainOf;
    var local, domain := PrintLocal(LocalOf(a.address)), DomainOf(a.address);
    SpecMoves(local, domain, rest);
    if a.name != [] {
      QuotedMoves(Quote(a.name), [LT] + local + [AT] + domain + [GT], rest, local + ([AT] + (domain + ([GT] + rest))));
    }
  }

  lemma SpecMoves(local: Text, domain: Text, rest: Text)
    ensures [LT] + local + [AT] + domain + [GT] + rest == [LT] + (local + ([AT] + (domain + ([GT] + rest))))
  {
  }

  lemma QuotedMoves(name: Text, spec: Text, rest: Text, t: Text)
    requires spec + rest == [LT] + t
    ensures name + [SP] + spec + rest == name + [SP, LT] + t
  {
    assert name + [SP] + spec + rest == name + [SP] + (spec + rest);
  }

  /** A printed address, followed by anything, is parsed back to that address. */
  lemma ParsePrinted(a: Address, enc: Encoders, rest: Text, handleGroup: bool, dec: Decoder)
    requires IsMailbox(a.address) && IsPlain(a.name)
    ensures ParseAddress(Print(a, enc) + rest, handleGroup, dec) == Parsed(None, 1, [a], rest)
  {
    var t := SpecText(a.address, [GT] + rest);
    PrintShape(a, enc, rest);
    AddrSpecExact(a.address, [GT] + rest);
    AngleSteps(t, a, rest);
    if a.name == [] {
      UnnamedIsAngle(t, handleGroup, dec);
    } else {
      NamedIsAngle(a.name, t, handleGroup, dec);
    }
  }

  lemma AngleSteps(t: Text, a: Address, rest: Text)
    requires AddrSpec(t) == Scan(Ok(a.address), [GT] + rest)
    ensures AngleAddr([LT] + t, a.name) == Parsed(None, 1, [a], rest)
  {
    hide AddrSpec;
    assert ([LT] + t)[1..] == t;
    assert ([GT] + rest)[1..] == rest;
  }

  // ---- everything accepted is well-formed --------------------------------------------------

  lemma {:induction false} QuotedBodySound(s: Text, escaped: bool)
    ensures var q := QuotedBody(s, escaped); q.Ok? ==> IsQuotable(q.value.0)
    decreases |s|
  {
    if s != [] {
      QuotedBodySound(s[1..], false);
      QuotedBodySound(s[1..], true);
    }
  }

  lemma AtomSound(s: Text)
    ensures var a := Atom(s, true, false).value;
            (a.Ok? ==> IsDotAtom(a.value)) && a != Err(TotalTooLong)
  {
  }

  lemma LocalPartSound(s: Text)
    requires s != []
    ensures var l := LocalPart(s).value;
            (l.Ok? ==> l.value != [] && IsQuotable(l.value)) && l != Err(TotalTooLong)
  {
    QuotedBodySound(s[1..], false);
    AtomSound(s);
  }

  lemma NoAtInDomain(domain: Text)
    requires IsDotAtom(domain)
    ensures AT !in domain
  {
  }

  /** An accepted addr-spec splits at its last '@' into a quotable local part and a dot-atom domain,
      each within its limit; the limit on the whole is never the one that rejects. */
  lemma AddrSpecSound(s: Text)
    ensures var r := AddrSpec(s).value;
            (r.Ok? ==> IsMailbox(r.value)) && r != Err(TotalTooLong)
  {
    hide LocalPart, Atom, LastAt, IsQuotable, IsDotAtom;
    var s := SkipSpace(s);
    if s != [] {
      var l := LocalPart(s);
      LocalPartSound(s);
      if l.value.Ok? && Starts(l.rest, AT) {
        var s := SkipSpace(l.rest[1..]);
        var d := Atom(s, true, false);
        AtomSound(s);
        if d.value.Ok? {
          var local, domain := l.value.value, d.value.value;
          NoAtInDomain(domain);
          SplitAtLast(local, domain);
          ByteLenConcat(local, [AT]);
          ByteLenConcat(local + [AT], domain);
        }
      }
    }
  }

  ghost predicate AllMailboxes(l: seq<Address>) {
    forall i :: 0 <= i < |l| ==> IsMailbox(l[i].address)
  }

  ghost predicate AllPlain(l: seq<Address>) {
    forall i :: 0 <= i < |l| ==> IsPlain(l[i].name)
  }

  /** Every address the parser finds, in an address, a group or a list, is a mailbox. */
  lemma {:induction false} FoundSound(s: Text, handleGroup: bool, dec: Decoder)
    ensures AllMailboxes(ParseAddress(s, handleGroup, dec).found)
    decreases if handleGroup then 2 else 0, |s|
  {
    hide AddrSpec, Phrase, DisplayNameComment, IsMailbox, SkipCFWS, GroupFrom, AllAtext;
    var s := SkipSpace(s);
    if s != [] {
      AddrSpecSound(s);
      if AddrSpec(s).value.Err? {
        var phrase := if s[0] == LT then Scan(Ok([]), s) else Phrase(s, dec);
        var s := SkipSpace(phrase.rest);
        if s != [] {
          AddrSpecSound(s[1..]);
          if handleGroup && s[0] == COLON {
            GroupSound(SkipSpace(s[1..]), dec, 0);
          }
        }
      }
    }
  }

  lemma {:induction false} GroupSound(s: Text, dec: Decoder, total: nat)
    ensures AllMailboxes(GroupFrom(s, dec, total).found)
    decreases 1, |s|, 0
  {
    FoundSound(SkipSpace(s), false, dec);
    var p := ParseAddress(SkipSpace(s), false, dec);
    if p.err.None? {
      GroupAfterSound(p, dec, total);
    }
  }

  lemma {:induction false} GroupAfterSound(p: Parsed, dec: Decoder, total: nat)
    requires AllMailboxes(p.found)
    ensures AllMailboxes(GroupAfter(p, dec, total).found)
    decreases 1, |p.rest|, 1
  {
    hide ParseAddress;
    var c := SkipCFWS(p.rest);
    if c.ok && Starts(c.rest, COMMA) {
      GroupSound(c.rest[1..], dec, total + p.count);
    }
  }

  lemma SingleSound(s: Text, dec: Decoder)
    ensures var r := ParseSingle(s, dec).value; r.Ok? ==> IsMailbox(r.value.address)
  {
    hide ParseAddress, SkipCFWS;
    FoundSound(s, true, dec);
  }

  lemma {:induction false} ListSound(s: Text, dec: Decoder, acc: seq<Address>)
    requires AllMailboxes(acc)
    ensures var r := ListFrom(s, dec, acc).value; r.Ok? ==> AllMailboxes(r.value)
    decreases |s|
  {
    hide ParseAddress, SkipCFWS, SkipCommas;
    var s := SkipSpace(s);
    if Starts(s, COMMA) {
      ListSound(s[1..], dec, acc);
    } else {
      FoundSound(s, true, dec);
      var p := ParseAddress(s, true, dec);
      var c := SkipCFWS(p.rest);
      if p.err.None? && c.ok && Starts(c.rest, COMMA) {
        ListSound(SkipCommas(c.rest), dec, acc + p.found);
      }
    }
  }

  // ---- the main results --------------------------------------------------------------------

  /** Printing then parsing an address gives it back exactly when its addr-spec is well-formed. */
  lemma PrintParse(a: Address, enc: Encoders, dec: Decoder)
    requires IsPlain(a.name)
    ensures ParseSingle(Print(a, enc), dec).value == Ok(a) <==> IsMailbox(a.address)
  {
    SingleSound(Print(a, enc), dec);
    if IsMailbox(a.address) {
      ParsePrinted(a, enc, [], true, dec);
      assert Print(a, enc) + [] == Print(a, enc);
    }
  }

  /** The same for lists: exactly the nonempty lists of well-formed addresses survive printing
      with ", " between the entries. */
  lemma PrintParseList(l: seq<Address>, enc: Encoders, dec: Decoder)
    requires AllPlain(l)
    ensures ParseList(PrintList(l, enc), dec).value == Ok(l) <==> l != [] && AllMailboxes(l)
  {
    hide ListFrom, PrintList, Spread, IsMailbox, IsPlain, Separate;
    ListSound(PrintList(l, enc), dec, []);
    EmptyListFails(enc, dec);
    if l != [] && AllMailboxes(l) {
      PrintListIsSpread(l, enc);
      CommaGapsSeparate(|l|);
      SpreadParses(l, CommaGaps(|l|), enc, dec, []);
      assert [] + l == l;
    }
  }

  // ---- lists, with any separators the obsolete syntax allows -------------------------------------

  /** White space and commas: what may separate list entries (RFC 5322, section 4.4). */
  predicate IsGap(g: Text) {
    forall i :: 0 <= i < |g| ==> g[i] == COMMA || IsWSP(g[i])
  }

  /** Text that goes on after a gap, or the end of the input. */
  predicate EndsGap(s: Text) {
    s == [] || (!IsWSP(s[0]) && s[0] != COMMA)
  }

  /** Text that starts an entry in printed form, or the end of the input. */
  predicate StartsEntry(s: Text) {
    EndsGap(s) && !Starts(s, LPAREN)
  }

  /** Printed entries, each followed by its gap. */
  function Spread(l: seq<Address>, gaps: seq<Text>, enc: Encoders): Text
    requires |gaps| == |l|
  {
    if l == [] then [] else Print(l[0], enc) + (gaps[0] + Spread(l[1..], gaps[1..], enc))
  }

  /** Gaps that separate: each but the last has a comma. */
  ghost predicate Separate(gaps: seq<Text>) {
    && (forall i :: 0 <= i < |gaps| ==> IsGap(gaps[i]))
    && (forall i :: 0 <= i < |gaps| - 1 ==> COMMA in gaps[i])
  }

  lemma {:induction false} SkipSpaceInGap(g: Text, next: Text) returns (h: Text)
    requires IsGap(g) && EndsGap(next)
    ensures SkipSpace(g + next) == h + next && IsGap(h) && |h| <= |g|
    ensures h != [] ==> h[0] == COMMA
    ensures h == [] <==> COMMA !in g
  {
    if g == [] {
      assert g + next == next;
      return [];
    } else if g[0] == COMMA {
      return g;
    } else {
      assert (g + next)[1..] == g[1..] + next;
      h := SkipSpaceInGap(g[1..], next);
      assert g == [g[0]] + g[1..];
    }
  }

  lemma {:induction false} SkipCommasInGap(g: Text, next: Text)
    requires IsGap(g) && EndsGap(next) && (g != [] ==> g[0] == COMMA)
    ensures SkipCommas(g + next) == next
    decreases |g|
  {
    if g == [] {
      assert g + next == next;
    } else {
      assert (g + next)[1..] == g[1..] + next;
      var h := SkipSpaceInGap(g[1..], next);
      SkipCommasInGap(h, next);
    }
  }

  /** One entry and the gap after it. */
  lemma EntryAndGap(entry: Text, a: Address, g: Text, next: Text, dec: Decoder, acc: seq<Address>)
    requires entry != [] && StartsEntry(entry)
    requires ParseAddress(entry + (g + next), true, dec) == Parsed(None, 1, [a], g + next)
    requires IsGap(g) && StartsEntry(next) && (next != [] ==> COMMA in g)
    ensures ListFrom(entry + (g + next), dec, acc) ==
            if next == [] then Scan(Ok(acc + [a]), []) else ListFrom(next, dec, acc + [a])
  {
    var h := SkipSpaceInGap(g, next);
    SkipCommasInGap(h, next);
    CFWSInGap(g, h, next);
    hide ParseAddress, SkipCommas, SkipCFWS, IsGap;
    assert SkipSpace(entry + (g + next)) == entry + (g + next);
    assert h == [] ==> h + next == next;
  }

  lemma PrintedAndGap(a: Address, g: Text, next: Text, enc: Encoders, dec: Decoder, acc: seq<Address>)
    requires IsMailbox(a.address) && IsPlain(a.name)
    requires IsGap(g) && StartsEntry(next) && (next != [] ==> COMMA in g)
    ensures var s := Print(a, enc) + (g + next);
            ListFrom(s, dec, acc) ==
            if next == [] then Scan(Ok(acc + [a]), []) else ListFrom(next, dec, acc + [a])
  {
    hide ListFrom, ParseAddress, Print, IsMailbox, IsPlain, IsGap, StartsEntry;
    PrintStart(a, enc);
    ParsePrinted(a, enc, g + next, true, dec);
    EntryAndGap(Print(a, enc), a, g, next, dec, acc);
  }

  lemma CFWSInGap(g: Text, h: Text, next: Text)
    requires StartsEntry(next) && SkipSpace(g + next) == h + next && (h != [] ==> h[0] == COMMA)
    ensures SkipCFWS(g + next) == Skip(true, h + next)
  {
  }

  lemma PrintStart(a: Address, enc: Encoders)
    requires IsPlain(a.name)
    ensures Print(a, enc) != [] && StartsEntry(Print(a, enc))
  {
    assert Print(a, enc)[0] == LT || Print(a, enc)[0] == QUOTE;
  }

  lemma SpreadStart(l: seq<Address>, gaps: seq<Text>, enc: Encoders)
    requires |gaps| == |l| && (l != [] ==> IsPlain(l[0].name))
    ensures StartsEntry(Spread(l, gaps, enc)) && (l != [] ==> Spread(l, gaps, enc) != [])
  {
    hide IsPlain, Print;
    if l != [] {
      PrintStart(l[0], enc);
    }
  }

  /** However the entries are separated, the list parser returns exactly the list. */
  lemma {:induction false} SpreadParses(l: seq<Address>, gaps: seq<Text>, enc: Encoders, dec: Decoder,
                                        acc: seq<Address>)
    requires l != [] && AllMailboxes(l) && |gaps| == |l| && Separate(gaps)
    requires AllPlain(l)
    ensures ListFrom(Spread(l, gaps, enc), dec, acc).value == Ok(acc + l)
  {
    hide IsPlain, IsMailbox, ListFrom, Print, IsGap, StartsEntry;
    var next := Spread(l[1..], gaps[1..], enc);
    SpreadStart(l[1..], gaps[1..], enc);
    assert |l| == 1 ==> next == [];
    PrintedAndGap(l[0], gaps[0], next, enc, dec, acc);
    if |l| == 1 {
      assert l == [l[0]];
    } else {
      SpreadParses(l[1..], gaps[1..], enc, dec, acc + [l[0]]);
      assert acc + [l[0]] + l[1..] == acc + l;
    }
  }

  /** Empty entries before, between and after the addresses are ignored. */
  lemma {:induction false} EmptyEntriesIgnored(lead: Text, l: seq<Address>, gaps: seq<Text>, enc: Encoders,
                                               dec: Decoder)
    requires IsGap(lead) && l != [] && AllMailboxes(l) && |gaps| == |l| && Separate(gaps)
    requires AllPlain(l)
    ensures ParseList(lead + Spread(l, gaps, enc), dec).value == Ok(l)
  {
    var s := Spread(l, gaps, enc);
    SpreadStart(l, gaps, enc);
    LeadSkipped(lead, s, dec);
    SpreadParses(l, gaps, enc, dec, []);
    assert [] + l == l;
  }

  lemma {:induction false} LeadSkipped(lead: Text, s: Text, dec: Decoder)
    requires IsGap(lead) && EndsGap(s)
    ensures ListFrom(lead + s, dec, []) == ListFrom(s, dec, [])
    decreases |lead|
  {
    hide ParseAddress, SkipCFWS, SkipCommas;
    var h := SkipSpaceInGap(lead, s);
    if h == [] {
      assert h + s == s;
      assert SkipSpace(s) == s;
    } else {
      assert (h + s)[1..] == h[1..] + s;
      LeadSkipped(h[1..], s, dec);
    }
  }

  /** The gaps of a list printed with ", ". */
  function CommaGaps(n: nat): (gaps: seq<Text>)
    ensures |gaps| == n
  {
    seq(n, i => if i < n - 1 then [COMMA, SP] else [])
  }

  lemma CommaGapsSeparate(n: nat)
    ensures Separate(CommaGaps(n))
  {
  }

  lemma EmptyListFails(enc: Encoders, dec: Decoder)
    ensures ParseList(PrintList([], enc), dec).value == Err(NoAddress)
  {
    assert PrintList([], enc) == [] && SkipSpace([]) == [];
  }

  lemma {:induction false} PrintListIsSpread(l: seq<Address>, enc: Encoders)
    requires l != []
    ensures PrintList(l, enc) == Spread(l, CommaGaps(|l|), enc)
  {
    hide Print;
    PrintListShape(l, enc);
    if |l| > 1 {
      PrintListIsSpread(l[1..], enc);
      assert CommaGaps(|l|)[1..] == CommaGaps(|l[1..]|);
    } else {
      assert Spread(l[1..], CommaGaps(|l|)[1..], enc) == [];
      assert Print(l[0], enc) + ([] + []) == Print(l[0], enc) + [];
    }
  }

  lemma PrintListShape(l: seq<Address>, enc: Encoders)
    requires l != []
    ensures PrintList(l, enc) ==
            Print(l[0], enc) + if |l| == 1 then [] else [COMMA, SP] + PrintList(l[1..], enc)
  {
    hide Print;
    var all := PrintAll(l, enc);
    assert all[1..] == PrintAll(l[1..], enc);
    assert |l| > 1 ==> PrintAll(l[1..], enc) != [];
    assert |l| == 1 ==> l[1..] == [];
    if |l| > 1 {
      assert all[0] + [COMMA, SP] + Join(all[1..], [COMMA, SP]) ==
             all[0] + ([COMMA, SP] + Join(all[1..], [COMMA, SP]));
    }
  }

  /** Parsing reaches a normal form: what was accepted is printed and read back unchanged. */
  lemma ParsePrintParse(s: Text, enc: Encoders, dec: Decoder)
    ensures var r := ParseSingle(s, dec).value;
            r.Ok? && IsPlain(r.value.name) ==> ParseSingle(Print(r.value, enc), dec).value == r
  {
    hide ParseSingle, Print, IsMailbox, IsPlain;
    var r := ParseSingle(s, dec).value;
    SingleSound(s, dec);
    if r.Ok? && IsPlain(r.value.name) {
      PrintParse(r.value, enc, dec);
    }
  }

  /** For lists too, except that a list with no address in it (only empty groups) prints as nothing,
      which the list parser rejects. */
  lemma ParsePrintParseList(s: Text, enc: Encoders, dec: Decoder)
    ensures var r := ParseList(s, dec).value;
            r.Ok? && AllPlain(r.value) ==> (ParseList(PrintList(r.value, enc), dec).value == r <==> r.value != [])
  {
    hide ListFrom, PrintList, IsMailbox, IsPlain;
    var r := ParseList(s, dec).value;
    ListSound(s, dec, []);
    if r.Ok? && AllPlain(r.value) {
      PrintParseList(r.value, enc, dec);
    }
  }
}
