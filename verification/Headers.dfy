/**
  The second address printer, message.formatAddress, and the address headers built with it.
 */
module Headers {
  import opened Wrappers
  import opened Text
  import opened Grammar
  import opened GrammarSteps
  import opened Printer
  import opened RoundTrip
  import opened Consequences
  import AddrParser

  /** The MIME header encoder: `word` encodes a header value, `b` forces base64. */
  datatype HeaderEncoder = HeaderEncoder(word: Text -> Text, b: Text -> Text)

  /** Names of printable ASCII, space and tab need no encoding. */
  ghost predicate KeepsPlain(enc: HeaderEncoder) {
    forall n :: IsPlain(n) ==> enc.word(n) == n
  }

  const SPECIALS: set<int> :=
    {LPAREN, RPAREN, LT, GT, LBRACKET, RBRACKET, COLON, SEMI, AT, BSLASH, COMMA, DOT, QUOTE}

  function EscapeQuotes(name: Text): Text {
    if name == [] then []
    else (if name[0] == BSLASH || name[0] == QUOTE then [BSLASH, name[0]] else [name[0]]) + EscapeQuotes(name[1..])
  }

  function FormatName(name: Text, enc: HeaderEncoder): Text {
    if enc.word(name) == name then [QUOTE] + EscapeQuotes(name) + [QUOTE]
    else if exists i :: 0 <= i < |name| && name[i] in SPECIALS then enc.b(name)
    else enc.word(name)
  }

  function Format(address: Text, name: Text, enc: HeaderEncoder): Text {
    if name == [] then address
    else FormatName(name, enc) + [SP, LT] + address + [GT]
  }

  /** The fields of message that address headers touch. */
  class Message {
    var header: map<string, seq<Text>>
    var buf: Text
    const enc: HeaderEncoder

    constructor (enc: HeaderEncoder)
      ensures header == map[] && buf == [] && this.enc == enc
    {
      header := map[];
      buf := [];
      this.enc := enc;
    }

    /** The loop of formatAddress that writes the name byte by byte. */
    method WriteQuoted(name: Text)
      modifies this`buf
      ensures buf == old(buf) + ([QUOTE] + EscapeQuotes(name) + [QUOTE])
    {
      buf := buf + [QUOTE];
      ghost var done: Text := [];
      var i := 0;
      assert name[0..] == name && name[|name|..] == [];
      while i < |name|
        invariant 0 <= i <= |name|
        invariant buf == old(buf) + [QUOTE] + done && EscapeQuotes(name) == done + EscapeQuotes(name[i..])
      {
        var b := name[i];
        EscapeQuotesStep(done, name[i..]);
        assert name[i..][1..] == name[i+1..];
        done := done + if b == BSLASH || b == QUOTE then [BSLASH, b] else [b];
        if b == BSLASH || b == QUOTE {
          buf := buf + [BSLASH];
        }
        buf := buf + [b];
        i := i + 1;
      }
      buf := buf + [QUOTE];
    }

    /** Builds the text in the message's scratch buffer and leaves the buffer empty again. */
    method FormatAddress(address: Text, name: Text) returns (addr: Text)
      requires buf == []
      modifies this`buf
      ensures addr == Format(address, name, enc) && buf == []
    {
      if name == [] {
        return address;
      }
      var encoded := enc.word(name);
      if encoded == name {
        WriteQuoted(name);
      } else if exists i :: 0 <= i < |name| && name[i] in SPECIALS {
        buf := buf + enc.b(name);
      } else {
        buf := buf + encoded;
      }
      hide EscapeQuotes;
      assert buf == FormatName(name, enc);
      buf := buf + [SP, LT];
      buf := buf + address;
      buf := buf + [GT];
      addr := buf;
      buf := [];
    }

    /** Sets the field to the reformatted addresses, or fails on the first that does not parse and
        leaves the header alone. */
    method SetAddressHeader(field: string, addresses: seq<Text>, dec: Decoder) returns (err: Option<Error>)
      requires buf == []
      modifies this
      ensures buf == []
      ensures match Reformat(addresses, dec, enc)
              case Ok(values) => err == None && header == old(header)[field := values]
              case Err(e) => err == Some(e) && header == old(header)
    {
      hide ParseSingle, Format;
      var addrHeader: seq<Text> := [];
      var i := 0;
      assert addresses[0..] == addresses;
      ConsAllNothing(Reformat(addresses, dec, enc));
      while i < |addresses|
        invariant 0 <= i <= |addresses| && buf == [] && header == old(header)
        invariant Reformat(addresses, dec, enc) == ConsAll(addrHeader, Reformat(addresses[i..], dec, enc))
      {
        assert addresses[i..][1..] == addresses[i+1..];
        var a := AddrParser.Parse(addresses[i], dec);
        if a.Err? {
          return Some(a.error);
        }
        var value := FormatAddress(a.value.address, a.value.name);
        ConsAllStep(addrHeader, value, Reformat(addresses[i+1..], dec, enc));
        addrHeader := addrHeader + [value];
        i := i + 1;
      }
      assert addrHeader + [] == addrHeader;
      header := header[field := addrHeader];
      return None;
    }
  }

  lemma EscapeQuotesStep(done: Text, s: Text)
    requires s != []
    ensures done + EscapeQuotes(s) ==
            done + (if s[0] == BSLASH || s[0] == QUOTE then [BSLASH, s[0]] else [s[0]]) + EscapeQuotes(s[1..])
  {
  }

  /** Every address parsed and formatted again, in order, or the first parse error. */
  function Reformat(addresses: seq<Text>, dec: Decoder, enc: HeaderEncoder): (r: Result<seq<Text>, Error>)
    ensures r.Ok? ==> |r.value| == |addresses|
  {
    if addresses == [] then Ok([])
    else
      var a := ParseSingle(addresses[0], dec).value;
      if a.Err? then Err(a.error)
      else Cons(Format(a.value.address, a.value.name, enc), Reformat(addresses[1..], dec, enc))
  }

  // ---- when formatting can be undone ------------------------------------------------------

  /** On plain names the two printers quote alike. */
  lemma {:induction false} EscapeAgrees(name: Text)
    requires IsPlain(name)
    ensures EscapeQuotes(name) == Escape(name)
  {
    if name != [] {
      assert IsPlainRune(name[0]);
      EscapeAgrees(name[1..]);
    }
  }

  lemma FormatShape(address: Text, name: Text, enc: HeaderEncoder)
    requires IsPlain(name) && enc.word(name) == name && name != []
    ensures Format(address, name, enc) == Quote(name) + [SP, LT] + (address + [GT])
  {
    EscapeAgrees(name);
    assert Quote(name) + [SP, LT] + (address + [GT]) == Quote(name) + [SP, LT] + address + [GT];
  }

  /** The addresses formatAddress can print: their local part needs no quotes. */
  predicate IsUnquoted(x: Text) {
    IsMailbox(x) && IsDotAtom(LocalOf(x))
  }

  /** A successful addr-spec never yields more than it read; when it yields at least all but one
      character of what it read, the local part was not quoted. */
  lemma AddrSpecTight(s: Text)
    ensures var r := AddrSpec(s);
            r.value.Ok? && |r.value.value| + |r.rest| >= |s| - 1 ==> IsUnquoted(r.value.value)
  {
    hide Atom, QuotedString, LastAt, IsMailbox;
    AddrSpecSound(s);
    var t := SkipSpace(s);
    if t != [] && LocalPart(t).value.Ok? && Starts(LocalPart(t).rest, AT) {
      var l := LocalPart(t);
      var u := SkipSpace(l.rest[1..]);
      var d := Atom(u, true, false);
      AtomSound(t);
      AtomSound(u);
      if d.value.Ok? {
        NoAtInDomain(d.value.value);
        SplitAtLast(l.value.value, d.value.value);
      }
    }
  }

  /** Addresses found are no longer than the input they came from, and one as long is unquoted. */
  ghost predicate Tight(found: seq<Address>, used: int) {
    forall i :: 0 <= i < |found| ==>
      && |found[i].address| <= used
      && (|found[i].address| == used ==> IsUnquoted(found[i].address))
  }

  lemma {:induction false} FoundTight(s: Text, handleGroup: bool, dec: Decoder)
    ensures var p := ParseAddress(s, handleGroup, dec); Tight(p.found, |s| - |p.rest|)
    decreases if handleGroup then 2 else 0, |s|
  {
    hide AddrSpec, PhraseFrom, DisplayNameComment, IsUnquoted, GroupFrom, SkipCFWS, AllAtext;
    var t := SkipSpace(s);
    if t != [] {
      AddrSpecTight(t);
      if AddrSpec(t).value.Err? {
        var phrase := if t[0] == LT then Scan(Ok([]), t) else Phrase(t, dec);
        var u := SkipSpace(phrase.rest);
        if phrase.value.Ok? && handleGroup && Starts(u, COLON) {
          GroupTight(SkipSpace(u[1..]), dec, 0);
        }
      }
    }
  }

  lemma {:induction false} GroupTight(s: Text, dec: Decoder, total: nat)
    ensures var p := GroupFrom(s, dec, total); Tight(p.found, |s| - |p.rest|)
    decreases 1, |s|, 0
  {
    hide ParseAddress, GroupAfter, IsUnquoted;
    var t := SkipSpace(s);
    var p := ParseAddress(t, false, dec);
    FoundTight(t, false, dec);
    if p.err.None? {
      GroupAfterTight(p, dec, total, |t|);
    }
  }

  lemma {:induction false} GroupAfterTight(p: Parsed, dec: Decoder, total: nat, n: nat)
    requires |p.rest| <= n && Tight(p.found, n - |p.rest|)
    ensures var r := GroupAfter(p, dec, total); Tight(r.found, n - |r.rest|)
    decreases 1, |p.rest|, 1
  {
    hide ParseAddress, GroupFrom, SkipCFWS, IsUnquoted;
    var c := SkipCFWS(p.rest);
    if c.ok && Starts(c.rest, COMMA) {
      GroupTight(c.rest[1..], dec, total + p.count);
    }
  }

  /** Formatting then parsing gives an address back exactly when its local part needs no quotes:
      unlike Address.String, formatAddress never quotes the local part. */
  lemma FormatParse(address: Text, name: Text, enc: HeaderEncoder, dec: Decoder)
    requires IsPlain(name) && KeepsPlain(enc)
    ensures ParseSingle(Format(address, name, enc), dec).value == Ok(Address(name, address)) <==>
            IsUnquoted(address)
  {
    if name == [] {
      BareFormatParse(address, dec);
    } else {
      FormatShape(address, name, enc);
      NamedFormatParse(address, name, dec);
    }
  }

  lemma BareFormatParse(address: Text, dec: Decoder)
    ensures ParseSingle(address, dec).value == Ok(Address([], address)) <==> IsUnquoted(address)
  {
    hide ParseSingle, ParseAddress, IsUnquoted;
    if ParseSingle(address, dec).value == Ok(Address([], address)) {
      FoundTight(address, true, dec);
      SingleFound(address, dec);
      assert ParseAddress(address, true, dec).found[0].address == address;
    }
    if IsUnquoted(address) {
      BareParses(address, [], true, dec);
      assert address + [] == address;
      FoundSingle(address, dec);
    }
  }

  lemma SingleFound(s: Text, dec: Decoder)
    requires ParseSingle(s, dec).value.Ok?
    ensures ParseAddress(s, true, dec).found == [ParseSingle(s, dec).value.value]
  {
    hide ParseAddress, SkipCFWS;
  }

  lemma FoundSingle(s: Text, dec: Decoder)
    requires var p := ParseAddress(s, true, dec); p.err.None? && |p.found| == 1 && p.rest == []
    ensures ParseSingle(s, dec).value == Ok(ParseAddress(s, true, dec).found[0])
  {
    assert SkipCFWS([]) == Skip(true, []);
    hide ParseAddress, SkipCFWS;
  }

  /** What may follow an address in a list. */
  predicate EndsEntry(rest: Text) {
    rest == [] || rest[0] == COMMA
  }

  lemma BareParses(address: Text, rest: Text, handleGroup: bool, dec: Decoder)
    requires IsUnquoted(address) && EndsEntry(rest)
    ensures ParseAddress(address + rest, handleGroup, dec) == Parsed(None, 1, [Address([], address)], rest)
  {
    UnquotedSpec(address, rest);
    UnquotedStart(address);
    hide AddrSpec, IsUnquoted;
    assert (address + rest)[0] == address[0];
    assert SkipSpace(address + rest) == address + rest;
    assert SkipSpace(rest) == rest;
  }

  lemma UnquotedStart(address: Text)
    requires IsUnquoted(address)
    ensures address != [] && StartsEntry(address)
  {
    hide LastAt;
    assert IsAtext(LocalOf(address)[0], true, false);
  }

  lemma NamedFormatParse(address: Text, name: Text, dec: Decoder)
    requires IsPlain(name)
    ensures ParseSingle(Quote(name) + [SP, LT] + (address + [GT]), dec).value == Ok(Address(name, address)) <==>
            IsUnquoted(address)
  {
    hide ParseAddress, ParseSingle, AddrSpec, IsUnquoted, IsPlain, Quote;
    var t := address + [GT];
    NamedIsAngle(name, t, true, dec);
    AngleParse(Quote(name) + [SP, LT] + t, t, address, name, dec);
  }

  /** Text that is parsed as the angle-addr around an address gives it back exactly when it is unquoted. */
  lemma AngleParse(s: Text, t: Text, address: Text, name: Text, dec: Decoder)
    requires t == address + [GT] && ParseAddress(s, true, dec) == AngleAddr([LT] + t, name)
    ensures ParseSingle(s, dec).value == Ok(Address(name, address)) <==> IsUnquoted(address)
  {
    hide ParseAddress, ParseSingle, AddrSpec, IsUnquoted;
    assert ([LT] + t)[1..] == t;
    if ParseSingle(s, dec).value == Ok(Address(name, address)) {
      AddrSpecTight(t);
      SingleFound(s, dec);
    }
    if IsUnquoted(address) {
      UnquotedSpec(address, [GT] + []);
      assert [GT] + [] == [GT];
      AngleSteps(t, Address(name, address), []);
      FoundSingle(s, dec);
    }
  }

  lemma UnquotedSpec(address: Text, rest: Text)
    requires IsUnquoted(address)
    requires rest == [] || (Valid(rest[0]) && !IsAtext(rest[0], true, false))
    ensures AddrSpec(address + rest) == Scan(Ok(address), rest)
  {
    hide LastAt, AddrSpec, Atom, IsDotAtom, IsQuotable, IsDotAtomText;
    var local, domain := LocalOf(address), DomainOf(address);
    UnquotedIsDotAtom(local);
    AddrSpecExact(address, rest);
    assert address == local + [AT] + domain;
    hide LocalOf, DomainOf;
    assert local + [AT] + domain + rest == local + ([AT] + (domain + rest));
  }

  /** A formatted address, where an entry of a list may end, is parsed back and leaves what follows. */
  lemma FormattedParses(a: Address, rest: Text, enc: HeaderEncoder, dec: Decoder)
    requires IsPlain(a.name) && KeepsPlain(enc) && IsUnquoted(a.address) && EndsEntry(rest)
    ensures ParseAddress(Format(a.address, a.name, enc) + rest, true, dec) == Parsed(None, 1, [a], rest)
    ensures Format(a.address, a.name, enc) != [] && StartsEntry(Format(a.address, a.name, enc))
  {
    if a.name == [] {
      BareParses(a.address, rest, true, dec);
      UnquotedStart(a.address);
    } else {
      var t := a.address + ([GT] + rest);
      FormatShape(a.address, a.name, enc);
      QuotedHeadMoves(a.name, a.address, rest);
      NamedIsAngle(a.name, t, true, dec);
      UnquotedSpec(a.address, [GT] + rest);
      AngleSteps(t, a, rest);
    }
  }

  lemma QuotedHeadMoves(name: Text, address: Text, rest: Text)
    ensures Quote(name) + [SP, LT] + (address + [GT]) + rest == Quote(name) + [SP, LT] + (address + ([GT] + rest))
    ensures Quote(name) + [SP, LT] + (address + [GT]) != []
    ensures (Quote(name) + [SP, LT] + (address + [GT]))[0] == QUOTE
  {
    hide Escape;
  }

  lemma FormattedAndGap(a: Address, gap: Text, next: Text, enc: HeaderEncoder, dec: Decoder, acc: seq<Address>)
    requires IsPlain(a.name) && KeepsPlain(enc) && IsUnquoted(a.address)
    requires next != [] ==> StartsEntry(next)
    requires gap == if next == [] then [] else [COMMA, SP]
    ensures var entry := Format(a.address, a.name, enc);
            && StartsEntry(entry + (gap + next)) && entry + (gap + next) != []
            && ListFrom(entry + (gap + next), dec, acc) ==
               if next == [] then Scan(Ok(acc + [a]), []) else ListFrom(next, dec, acc + [a])
  {
    hide Format, IsPlain, IsUnquoted, ListFrom, KeepsPlain, ParseAddress;
    var entry := Format(a.address, a.name, enc);
    FormattedParses(a, gap + next, enc, dec);
    assert (entry + (gap + next))[0] == entry[0];
    EntryAndGap(entry, a, gap, next, dec, acc);
  }

  function FormatAll(l: seq<Address>, enc: HeaderEncoder): (values: seq<Text>)
    ensures |values| == |l|
  {
    if l == [] then [] else [Format(l[0].address, l[0].name, enc)] + FormatAll(l[1..], enc)
  }

  lemma JoinedShape(l: seq<Address>, enc: HeaderEncoder)
    requires l != []
    ensures Join(FormatAll(l, enc), [COMMA, SP]) ==
            Format(l[0].address, l[0].name, enc) +
            if |l| == 1 then [] else [COMMA, SP] + Join(FormatAll(l[1..], enc), [COMMA, SP])
  {
    hide Format, Join;
    var all, sep := FormatAll(l, enc), [COMMA, SP];
    assert all[0] == Format(l[0].address, l[0].name, enc) && all[1..] == FormatAll(l[1..], enc);
    JoinCons(all, sep);
  }

  lemma JoinCons(words: seq<Text>, sep: Text)
    requires words != []
    ensures Join(words, sep) == words[0] + if |words| == 1 then [] else sep + Join(words[1..], sep)
  {
    if |words| > 1 {
      assert words[0] + sep + Join(words[1..], sep) == words[0] + (sep + Join(words[1..], sep));
    }
  }

  /** The values of an address field, joined as they are written, are read back as a list of exactly
      those addresses. */
  lemma {:induction false} JoinedParses(l: seq<Address>, enc: HeaderEncoder, dec: Decoder, acc: seq<Address>)
    requires l != [] && AllPlain(l) && KeepsPlain(enc)
    requires forall i :: 0 <= i < |l| ==> IsUnquoted(l[i].address)
    ensures var s := Join(FormatAll(l, enc), [COMMA, SP]);
            s != [] && StartsEntry(s) && ListFrom(s, dec, acc).value == Ok(acc + l)
  {
    hide Format, IsPlain, IsUnquoted, ListFrom, KeepsPlain, Join, ParseAddress, StartsEntry;
    var entry, gap := Format(l[0].address, l[0].name, enc), if |l| == 1 then [] else [COMMA, SP];
    var next := if |l| == 1 then [] else Join(FormatAll(l[1..], enc), [COMMA, SP]);
    JoinedShape(l, enc);
    assert Join(FormatAll(l, enc), [COMMA, SP]) == entry + (gap + next);
    if |l| > 1 {
      JoinedParses(l[1..], enc, dec, acc + [l[0]]);
    }
    FormattedAndGap(l[0], gap, next, enc, dec, acc);
    if |l| == 1 {
      assert l == [l[0]];
    } else {
      assert acc + [l[0]] + l[1..] == acc + l;
    }
  }

  /** A name that the header encoder changes survives whenever the decoder undoes the encoding chosen for
      it: base64 when the name has a special character; exactly for addresses that need no quotes. */
  lemma FormatParseEncoded(address: Text, name: Text, enc: HeaderEncoder, dec: Decoder)
    requires name != [] && enc.word(name) != name
    requires Undone(if HasSpecial(name) then enc.b(name) else enc.word(name), name, dec)
    ensures ParseSingle(Format(address, name, enc), dec).value == Ok(Address(name, address)) <==>
            IsUnquoted(address)
  {
    hide ParseAddress, ParseSingle, AddrSpec, IsUnquoted, Undone;
    var w := if HasSpecial(name) then enc.b(name) else enc.word(name);
    var t := address + [GT];
    SpecialIs(name);
    assert Format(address, name, enc) == w + [SP, LT] + t;
    var s := w + [SP, LT] + t;
    EncodedName(w, name, t, true, dec);
    AngleParse(s, t, address, name, dec);
  }

  /** The specials of RFC 5322, section 3.2.3. */
  predicate HasSpecial(name: Text) {
    exists c :: c in name && c in
      {'(' as int, ')' as int, '<' as int, '>' as int, '[' as int, ']' as int, ':' as int, ';' as int, '@' as int,
       '\\' as int, ',' as int, '.' as int, '"' as int}
  }

  lemma SpecialIs(name: Text)
    ensures HasSpecial(name) <==> exists i :: 0 <= i < |name| && name[i] in SPECIALS
  {
    if HasSpecial(name) {
      var c :| c in name && c in SPECIALS;
      var i :| 0 <= i < |name| && name[i] == c;
    }
    forall i | 0 <= i < |name| && name[i] in SPECIALS ensures HasSpecial(name) {
      assert name[i] in name;
    }
  }

  /** The whole header is refused exactly when some input is, with the error of the first one. */
  lemma {:induction false} ReformatFails(addresses: seq<Text>, dec: Decoder, enc: HeaderEncoder)
    ensures Reformat(addresses, dec, enc).Ok? <==>
            forall i :: 0 <= i < |addresses| ==> ParseSingle(addresses[i], dec).value.Ok?
    ensures Reformat(addresses, dec, enc).Err? ==>
            exists i :: 0 <= i < |addresses|
              && ParseSingle(addresses[i], dec).value == Err(Reformat(addresses, dec, enc).error)
              && forall j :: 0 <= j < i ==> ParseSingle(addresses[j], dec).value.Ok?
  {
    hide ParseSingle, Format;
    if addresses != [] {
      var more := addresses[1..];
      ReformatFails(more, dec, enc);
      assert forall i :: 0 <= i < |more| ==> more[i] == addresses[i+1];
      if ParseSingle(addresses[0], dec).value.Ok? {
        if Reformat(more, dec, enc).Err? {
          var i :| 0 <= i < |more| && ParseSingle(more[i], dec).value == Err(Reformat(more, dec, enc).error)
                   && forall j :: 0 <= j < i ==> ParseSingle(more[j], dec).value.Ok?;
          assert ParseSingle(addresses[i+1], dec).value == Err(Reformat(addresses, dec, enc).error);
        } else {
          forall i | 0 <= i < |addresses| ensures ParseSingle(addresses[i], dec).value.Ok? {
            if i > 0 { assert addresses[i] == more[i-1]; }
          }
        }
      }
    }
  }

  /** What setAddressHeader writes for an accepted address reads back as that address exactly when
      the local part needs no quotes. */
  lemma {:induction false} HeaderParsesBack(addresses: seq<Text>, i: nat, enc: HeaderEncoder, dec: Decoder)
    requires KeepsPlain(enc) && i < |addresses|
    ensures var values, a := Reformat(addresses, dec, enc), ParseSingle(addresses[i], dec).value;
            values.Ok? ==> a.Ok? && (IsPlain(a.value.name) ==>
              (ParseSingle(values.value[i], dec).value == a <==> IsDotAtom(LocalOf(a.value.address))))
  {
    hide ParseSingle, Format;
    if Reformat(addresses, dec, enc).Ok? {
      if i == 0 {
        var a := ParseSingle(addresses[0], dec).value;
        SingleSound(addresses[0], dec);
        if IsPlain(a.value.name) {
          FormatParse(a.value.address, a.value.name, enc, dec);
        }
      } else {
        HeaderParsesBack(addresses[1..], i - 1, enc, dec);
      }
    }
  }

  /** The input `" "@x` is accepted, yet the header value written for it is not read back. */
  lemma QuotedLocalIsLost(enc: HeaderEncoder, dec: Decoder)
    requires KeepsPlain(enc)
    ensures var a := Address([], [SP, AT, 120]);
            && ParseSingle([QUOTE, SP, QUOTE, AT, 120], dec).value == Ok(a)
            && ParseSingle(Format(a.address, a.name, enc), dec).value != Ok(a)
  {
    var local, domain, x := [SP], [120], [SP, AT, 120];
    var s := [QUOTE, SP, QUOTE, AT, 120];
    assert x == local + [AT] + domain;
    SplitAtLast(local, domain);
    assert ByteLen(local[1..]) == ByteLen(domain[1..]) == 0;
    assert !IsAtext(local[0], true, false);
    UnquotedIsDotAtom(local);
    assert Escape(local[1..]) == [];
    assert s == SpecText(x, []);
    AddrSpecExact(x, []);
    QuotedBareParses(s, x, dec);
    FormatParse(x, [], enc, dec);
  }

  lemma QuotedBareParses(s: Text, x: Text, dec: Decoder)
    requires s != [] && !IsWSP(s[0]) && AddrSpec(s) == Scan(Ok(x), [])
    ensures ParseSingle(s, dec).value == Ok(Address([], x))
  {
    hide AddrSpec;
    assert SkipSpace(s) == s;
  }
}
