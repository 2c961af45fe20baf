/**
  Where the parser can end up: the input left over is always a suffix of the input, for every step
  and every outcome.
 */
module Totality {
  import opened Wrappers
  import opened Text
  import opened Grammar

  lemma {:induction false} SkipSpaceSuffix(s: Text)
    ensures IsSuffix(SkipSpace(s), s)
  {
    if s != [] && IsWSP(s[0]) {
      SkipSpaceSuffix(s[1..]);
      SuffixTransitive(SkipSpace(s), s[1..], s);
    }
  }

  lemma {:induction false} QuotedBodySuffix(s: Text, escaped: bool)
    ensures var r := QuotedBody(s, escaped); r.Ok? ==> IsSuffix(r.value.1, s)
    decreases |s|
  {
    if s != [] {
      QuotedBodySuffix(s[1..], false);
      QuotedBodySuffix(s[1..], true);
      forall t | IsSuffix(t, s[1..]) ensures IsSuffix(t, s) {
        SuffixTransitive(t, s[1..], s);
      }
    }
  }

  lemma QuotedStringSuffix(s: Text)
    requires s != []
    ensures IsSuffix(QuotedString(s).rest, s)
  {
    QuotedBodySuffix(s[1..], false);
    var r := QuotedBody(s[1..], false);
    if r.Ok? {
      SuffixTransitive(r.value.1, s[1..], s);
    }
  }

  lemma AtomSuffix(s: Text, dot: bool, permissive: bool)
    ensures IsSuffix(Atom(s, dot, permissive).rest, s)
  {
    hide AtomLen;
  }

  lemma {:induction false} CommentSuffix(s: Text, depth: nat)
    ensures IsSuffix(Comment(s, depth).rest, s)
    decreases |s|
  {
    if s != [] && depth > 0 {
      var k := if s[0] == BSLASH && |s| > 1 then 2 else 1;
      var d := if k == 2 then depth
               else if s[0] == LPAREN then depth + 1
               else if s[0] == RPAREN then depth - 1
               else depth;
      CommentSuffix(s[k..], d);
      assert Comment(s, depth).rest == Comment(s[k..], d).rest;
      SuffixTransitive(Comment(s[k..], d).rest, s[k..], s);
    }
  }

  lemma {:induction false} SkipCFWSSuffix(s: Text)
    ensures IsSuffix(SkipCFWS(s).rest, s)
    decreases |s|
  {
    hide Comment, SkipSpace, IsSuffix;
    var t := SkipSpace(s);
    SkipSpaceSuffix(s);
    if Starts(t, LPAREN) {
      var c := Comment(t[1..], 1);
      SuffixTail(t, s);
      CommentSuffix(t[1..], 1);
      SuffixTransitive(c.rest, t[1..], s);
      if c.ok {
        SkipCFWSSuffix(c.rest);
        SuffixTransitive(SkipCFWS(c.rest).rest, c.rest, s);
      }
    }
  }

  lemma DisplayNameCommentSuffix(s: Text, dec: Decoder)
    ensures IsSuffix(DisplayNameComment(s, dec).rest, s)
  {
    hide Comment, Fields, DecodeWords;
    if Starts(s, LPAREN) {
      CommentSuffix(s[1..], 1);
      SuffixTransitive(Comment(s[1..], 1).rest, s[1..], s);
    }
  }

  lemma PhraseWordSuffix(s: Text, dec: Decoder)
    requires s != []
    ensures IsSuffix(PhraseWord(s, dec).scan.rest, s)
  {
    hide QuotedString, Atom, IsSuffix;
    QuotedStringSuffix(s);
    AtomSuffix(s, true, true);
  }

  lemma {:induction false} PhraseSuffix(s: Text, dec: Decoder, prev: bool, count: nat, acc: Text)
    ensures IsSuffix(PhraseFrom(s, dec, prev, count, acc).rest, s)
    decreases |s|
  {
    hide PhraseWord, SkipSpace, IsSuffix;
    var t := SkipSpace(s);
    SkipSpaceSuffix(s);
    if t != [] {
      PhraseWordSuffix(t, dec);
      var w := PhraseWord(t, dec);
      var rest := w.scan.rest;
      SuffixTransitive(rest, t, s);
      if w.scan.value.Ok? {
        var joined := prev && w.encoded;
        var n := if joined then count else count + 1;
        var text := (if joined || count == 0 then acc else acc + [SP]) + w.scan.value.value;
        PhraseSuffix(rest, dec, w.encoded, n, text);
        SuffixTransitive(PhraseFrom(rest, dec, w.encoded, n, text).rest, rest, s);
      }
    }
  }

  lemma LocalPartSuffix(s: Text)
    requires s != []
    ensures IsSuffix(LocalPart(s).rest, s)
  {
    hide QuotedString, Atom, IsSuffix;
    QuotedStringSuffix(s);
    AtomSuffix(s, true, false);
  }

  lemma AddrSpecSuffix(s: Text)
    ensures IsSuffix(AddrSpec(s).rest, s)
  {
    SuffixSelf(s);
    hide LocalPart, Atom, SkipSpace, ByteLen, IsSuffix;
    var t := SkipSpace(s);
    SkipSpaceSuffix(s);
    if t != [] {
      var l := LocalPart(t);
      LocalPartSuffix(t);
      SuffixTransitive(l.rest, t, s);
      if l.value.Ok? && Starts(l.rest, AT) {
        var u := SkipSpace(l.rest[1..]);
        SuffixTail(l.rest, s);
        SkipSpaceSuffix(l.rest[1..]);
        SuffixTransitive(u, l.rest[1..], s);
        AtomSuffix(u, true, false);
        SuffixTransitive(Atom(u, true, false).rest, u, s);
      }
    }
  }

  lemma SuffixSelf(s: Text)
    ensures IsSuffix(s, s)
  {
  }

  lemma AngleAddrSuffix(s: Text, name: Text)
    ensures IsSuffix(AngleAddr(s, name).rest, s)
  {
    SuffixSelf(s);
    hide AddrSpec, IsSuffix;
    if Starts(s, LT) {
      var spec := AddrSpec(s[1..]);
      SuffixTail(s, s);
      AddrSpecSuffix(s[1..]);
      SuffixTransitive(spec.rest, s[1..], s);
      if Starts(spec.rest, GT) {
        SuffixTail(spec.rest, s);
      }
    }
  }

  lemma BareAddrSuffix(s: Text, spec: Text, dec: Decoder)
    ensures IsSuffix(BareAddr(s, spec, dec).rest, s)
  {
    hide DisplayNameComment, SkipSpace, IsSuffix;
    var t := SkipSpace(s);
    SkipSpaceSuffix(s);
    DisplayNameCommentSuffix(t, dec);
    SuffixTransitive(DisplayNameComment(t, dec).rest, t, s);
  }

  /** One address or group, in either mode and whatever the outcome. */
  lemma {:induction false} ParseAddressSuffix(s: Text, handleGroup: bool, dec: Decoder)
    ensures IsSuffix(ParseAddress(s, handleGroup, dec).rest, s)
    decreases if handleGroup then 2 else 0, |s|
  {
    hide AddrSpec, PhraseFrom, BareAddr, AngleAddr, GroupList, SkipSpace, IsSuffix;
    var t := SkipSpace(s);
    SkipSpaceSuffix(s);
    if t != [] {
      var spec := AddrSpec(t);
      if spec.value.Ok? {
        var bare := BareAddr(spec.rest, spec.value.value, dec);
        AddrSpecSuffix(t);
        SuffixTransitive(spec.rest, t, s);
        BareAddrSuffix(spec.rest, spec.value.value, dec);
        SuffixTransitive(bare.rest, spec.rest, s);
      } else {
        var phrase := if t[0] == LT then Scan(Ok([]), t) else Phrase(t, dec);
        PhraseSuffix(t, dec, false, 0, []);
        SuffixSelf(t);
        SuffixTransitive(phrase.rest, t, s);
        var u := SkipSpace(phrase.rest);
        SkipSpaceSuffix(phrase.rest);
        SuffixTransitive(u, phrase.rest, s);
        if phrase.value.Ok? {
          if handleGroup && Starts(u, COLON) {
            SuffixTail(u, s);
            GroupListSuffix(u[1..], dec);
            SuffixTransitive(GroupList(u[1..], dec).rest, u[1..], s);
          } else {
            AngleAddrSuffix(u, phrase.value.value);
            SuffixTransitive(AngleAddr(u, phrase.value.value).rest, u, s);
          }
        }
      }
    }
  }

  lemma {:induction false} GroupListSuffix(s: Text, dec: Decoder)
    ensures IsSuffix(GroupList(s, dec).rest, s)
    decreases 1, |s|, 1
  {
    hide GroupFrom, SkipCFWS, SkipSpace, IsSuffix;
    var t := SkipSpace(s);
    SkipSpaceSuffix(s);
    if Starts(t, SEMI) {
      SuffixTail(t, s);
      SkipCFWSSuffix(t[1..]);
      SuffixTransitive(SkipCFWS(t[1..]).rest, t[1..], s);
    } else {
      GroupFromSuffix(t, dec, 0);
      SuffixTransitive(GroupFrom(t, dec, 0).rest, t, s);
    }
  }

  lemma {:induction false} GroupFromSuffix(s: Text, dec: Decoder, total: nat)
    ensures IsSuffix(GroupFrom(s, dec, total).rest, s)
    decreases 1, |s|, 0
  {
    hide ParseAddress, GroupAfter, SkipSpace, IsSuffix;
    var t := SkipSpace(s);
    SkipSpaceSuffix(s);
    var p := ParseAddress(t, false, dec);
    ParseAddressSuffix(t, false, dec);
    SuffixTransitive(p.rest, t, s);
    if p.err.None? {
      GroupAfterSuffix(p, dec, total);
      SuffixTransitive(GroupAfter(p, dec, total).rest, p.rest, s);
    }
  }

  lemma {:induction false} GroupAfterSuffix(p: Parsed, dec: Decoder, total: nat)
    ensures IsSuffix(GroupAfter(p, dec, total).rest, p.rest)
    decreases 1, |p.rest|, 1
  {
    hide ParseAddress, GroupFrom, SkipCFWS, IsSuffix;
    var c := SkipCFWS(p.rest);
    SkipCFWSSuffix(p.rest);
    if c.ok && c.rest != [] {
      var t := c.rest[1..];
      SuffixTail(c.rest, p.rest);
      if c.rest[0] == SEMI {
        SkipCFWSSuffix(t);
        SuffixTransitive(SkipCFWS(t).rest, t, p.rest);
      } else if c.rest[0] == COMMA {
        GroupFromSuffix(t, dec, total + p.count);
        SuffixTransitive(GroupFrom(t, dec, total + p.count).rest, t, p.rest);
      }
    }
  }

  lemma {:induction false} SkipCommasSuffix(s: Text)
    ensures IsSuffix(SkipCommas(s), s)
    decreases |s|
  {
    hide SkipSpace;
    if Starts(s, COMMA) {
      var t := SkipSpace(s[1..]);
      SkipSpaceSuffix(s[1..]);
      SuffixTransitive(t, s[1..], s);
      SkipCommasSuffix(t);
      SuffixTransitive(SkipCommas(t), t, s);
    }
  }

  /** The whole list parser: whatever the input and the outcome, what is left is a suffix of it, and
      an accepted list is one that was read to the end. */
  lemma {:induction false} ListSuffix(s: Text, dec: Decoder, acc: seq<Address>)
    ensures var r := ListFrom(s, dec, acc);
            IsSuffix(r.rest, s) && (r.value.Ok? ==> r.rest == [])
    decreases |s|
  {
    hide ParseAddress, SkipCFWS, SkipCommas, SkipSpace, IsSuffix;
    var t := SkipSpace(s);
    SkipSpaceSuffix(s);
    if Starts(t, COMMA) {
      SuffixTail(t, s);
      ListSuffix(t[1..], dec, acc);
      SuffixTransitive(ListFrom(t[1..], dec, acc).rest, t[1..], s);
    } else {
      var p := ParseAddress(t, true, dec);
      ParseAddressSuffix(t, true, dec);
      SuffixTransitive(p.rest, t, s);
      var c := SkipCFWS(p.rest);
      SkipCFWSSuffix(p.rest);
      SuffixTransitive(c.rest, p.rest, s);
      if p.err.None? && c.ok && Starts(c.rest, COMMA) {
        var u := SkipCommas(c.rest);
        SkipCommasSuffix(c.rest);
        SuffixTransitive(u, c.rest, s);
        ListSuffix(u, dec, acc + p.found);
        SuffixTransitive(ListFrom(u, dec, acc + p.found).rest, u, s);
      }
    }
  }
}
