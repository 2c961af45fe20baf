/**
  Address.String: when the local part and the display name are quoted, and how.
 */
module Printer {
  import opened Text
  import opened Grammar

  /** The two RFC 2047 word encoders, abstract. */
  datatype Encoders = Encoders(b: Text -> Text, q: Text -> Text)

  const NAME_SPECIALS: set<int> :=
    {34, 35, 36, 37, 38, 39, 40, 41, 44, 46, 58, 59, 60, 62, 64, 91, 93, 94, 96, 123, 124, 125, 126}

  /** strings.LastIndex(s, "@"). */
  function LastAt(s: Text): (i: int)
    ensures -1 <= i < |s|
    ensures i >= 0 ==> s[i] == AT
    ensures forall j :: i < j < |s| ==> s[j] != AT
  {
    if s == [] then -1
    else if s[|s|-1] == AT then |s| - 1
    else LastAt(s[..|s|-1])
  }

  function LocalOf(address: Text): Text {
    var at := LastAt(address);
    if at < 0 then address else address[..at]
  }

  function DomainOf(address: Text): Text {
    var at := LastAt(address);
    if at < 0 then [] else address[at+1..]
  }

  // ---- quoting ---------------------------------------------------------------------------

  /** The content of quoteString: a character that cannot be quoted at all is dropped. */
  function Escape(s: Text): Text {
    if s == [] then []
    else EscapeRune(RuneOf(s[0])) + Escape(s[1..])
  }

  function EscapeRune(r: int): Text {
    if IsQtext(r) || IsWSP(r) then [r]
    else if IsVchar(r) then [BSLASH, r]
    else []
  }

  function Quote(s: Text): Text {
    [QUOTE] + Escape(s) + [QUOTE]
  }

  lemma EscapeStep(done: Text, s: Text)
    requires s != []
    ensures done + Escape(s) == done + EscapeRune(RuneOf(s[0])) + Escape(s[1..])
  {
  }

  method QuoteString(s: Text) returns (b: Text)
    ensures b == Quote(s)
  {
    assert s[0..] == s && s[|s|..] == [];
    b := [QUOTE];
    ghost var done: Text := [];
    var i := 0;
    while i < |s|
      invariant 0 <= i <= |s|
      invariant b == [QUOTE] + done && Escape(s) == done + Escape(s[i..])
    {
      var r := RuneOf(s[i]);
      EscapeStep(done, s[i..]);
      assert s[i..][1..] == s[i+1..];
      done := done + EscapeRune(r);
      if IsQtext(r) || IsWSP(r) {
        b := b + [r];
      } else if IsVchar(r) {
        b := b + [BSLASH];
        b := b + [r];
      }
      i := i + 1;
    }
    b := b + [QUOTE];
  }

  /** The local part can stay unquoted: atext, and dots that are neither first, last nor doubled. */
  predicate IsDotAtomText(s: Text) {
    forall i :: 0 <= i < |s| ==> UnquotedAt(s, i)
  }

  predicate UnquotedAt(s: Text, i: int)
    requires 0 <= i < |s|
  {
    || IsAtext(RuneOf(s[i]), false, false)
    || (s[i] == DOT && i > 0 && s[i-1] != DOT && i < |s| - 1)
  }

  /** Printable ASCII, space and tab: the names that are printed as quoted strings. */
  predicate IsPlain(name: Text) {
    forall i :: 0 <= i < |name| ==> IsPlainRune(name[i])
  }

  predicate IsPlainRune(c: int) {
    33 <= c <= 126 || IsWSP(c)
  }

  lemma PlainIs(name: Text)
    ensures IsPlain(name) <==> forall c :: c in name ==> ' ' as int <= c <= '~' as int || c == '\t' as int
  {
    if forall c :: c in name ==> ' ' as int <= c <= '~' as int || c == '\t' as int {
      assert forall i :: 0 <= i < |name| ==> name[i] in name;
    }
  }

  function Print(a: Address, enc: Encoders): Text {
    var local := LocalOf(a.address);
    var spec := [LT] + (if IsDotAtomText(local) then local else Quote(local)) + [AT] + DomainOf(a.address) + [GT];
    if a.name == [] then spec
    else if IsPlain(a.name) then Quote(a.name) + [SP] + spec
    else if exists i :: 0 <= i < |a.name| && a.name[i] in NAME_SPECIALS then enc.b(a.name) + [SP] + spec
    else enc.q(a.name) + [SP] + spec
  }

  /** The first loop of String: stops at the first character that forces quotes. */
  method NeedsQuotes(local: Text) returns (quoteLocal: bool)
    ensures quoteLocal == !IsDotAtomText(local)
  {
    var i := 0;
    while i < |local|
      invariant 0 <= i <= |local|
      invariant forall j :: 0 <= j < i ==> UnquotedAt(local, j)
    {
      var fine := IsAtext(RuneOf(local[i]), false, false);
      if !fine && local[i] == DOT {
        fine := i > 0 && local[i-1] != DOT && i < |local| - 1;
      }
      assert fine == UnquotedAt(local, i);
      if !fine {
        return true;
      }
      i := i + 1;
    }
    return false;
  }

  /** The second loop of String. */
  method AllPrintable(name: Text) returns (allPrintable: bool)
    ensures allPrintable == IsPlain(name)
  {
    var i := 0;
    while i < |name|
      invariant 0 <= i <= |name|
      invariant forall j :: 0 <= j < i ==> IsPlainRune(name[j])
    {
      var r := RuneOf(name[i]);
      if (!IsVchar(r) && !IsWSP(r)) || IsMultibyte(r) {
        return false;
      }
      i := i + 1;
    }
    return true;
  }

  method String(a: Address, enc: Encoders) returns (s: Text)
    ensures s == Print(a, enc)
  {
    hide LastAt, IsDotAtomText, IsPlain, Quote;
    var local, domain := a.address, [];
    var at := LastAt(a.address);
    if at >= 0 {
      local, domain := a.address[..at], a.address[at+1..];
    }
    var quoteLocal := NeedsQuotes(local);
    if quoteLocal {
      local := QuoteString(local);
    }
    s := [LT] + local + [AT] + domain + [GT];
    if a.name == [] {
      return s;
    }
    var allPrintable := AllPrintable(a.name);
    if allPrintable {
      var name := QuoteString(a.name);
      return name + [SP] + s;
    }
    if exists j :: 0 <= j < |a.name| && a.name[j] in NAME_SPECIALS {
      return enc.b(a.name) + [SP] + s;
    }
    return enc.q(a.name) + [SP] + s;
  }

  /** Printing a list: the String forms joined by ", ". */
  function PrintAll(l: seq<Address>, enc: Encoders): seq<Text> {
    if l == [] then [] else [Print(l[0], enc)] + PrintAll(l[1..], enc)
  }

  function PrintList(l: seq<Address>, enc: Encoders): Text {
    Join(PrintAll(l, enc), [COMMA, SP])
  }
}
