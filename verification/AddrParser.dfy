/**
  The address parser itself: a mutable remaining-input field, consumed in place.  Every method is
  proved to leave the input and return the value that the corresponding function of Grammar gives,
  whatever the input; in particular every peek and slice is in range and every loop ends.
 */
module AddrParser {
  import opened Wrappers
  import opened Text
  import opened Grammar
  import opened GrammarSteps

  /** The *[]Address that parsing appends to; verification passes null instead. */
  class AddressList {
    var items: seq<Address>

    constructor ()
      ensures items == []
    {
      items := [];
    }
  }

  class Parser {
    var s: Text
    const dec: Decoder

    constructor (s: Text, dec: Decoder)
      ensures this.s == s && this.dec == dec
    {
      this.s := s;
      this.dec := dec;
    }

    predicate Empty()
      reads this
    {
      s == []
    }

    function Peek(): int
      requires !Empty()
      reads this
    {
      s[0]
    }

    method Consume(c: int) returns (ok: bool)
      modifies this
      ensures ok == Starts(old(s), c)
      ensures s == if ok then old(s)[1..] else old(s)
    {
      if Empty() || Peek() != c {
        return false;
      }
      s := s[1..];
      return true;
    }

    method TrimSpace()
      modifies this
      ensures s == SkipSpace(old(s))
    {
      s := SkipSpace(s);
    }

    method ConsumeQuotedString() returns (qs: Result<Text, Error>)
      requires s != []
      modifies this
      ensures Scan(qs, s) == QuotedString(old(s))
    {
      var i := 1;
      var sb: Text := [];
      var escaped := false;
      PrependNothing(QuotedBody(s[1..], false));
      while true
        invariant 1 <= i <= |s| && s == old(s)
        invariant QuotedBody(s[1..], false) == Prepend(sb, QuotedBody(s[i..], escaped))
        decreases |s| - i
      {
        if i == |s| {
          return Err(UnclosedQuoted);
        }
        var r := s[i];
        assert s[i..][1..] == s[i+1..];
        if !Valid(r) {
          return Err(InvalidUtf8);
        } else if escaped {
          if !IsVchar(r) && !IsWSP(r) {
            return Err(BadQuotedChar);
          }
          PrependTwice(sb, [r], QuotedBody(s[i+1..], false));
          sb := sb + [r];
          escaped := false;
        } else if IsQtext(r) || IsWSP(r) {
          PrependTwice(sb, [r], QuotedBody(s[i+1..], false));
          sb := sb + [r];
        } else if r == QUOTE {
          assert sb + [] == sb;
          break;
        } else if r == BSLASH {
          escaped := true;
        } else {
          return Err(BadQuotedChar);
        }
        i := i + 1;
      }
      s := s[i+1..];
      return Ok(sb);
    }

    method ConsumeAtom(dot: bool, permissive: bool) returns (atom: Result<Text, Error>)
      modifies this
      ensures Scan(atom, s) == Atom(old(s), dot, permissive)
    {
      hide HasDoubleDot, IsAtext, AtomLen;
      var i := 0;
      while i < |s| && Valid(s[i]) && IsAtext(s[i], dot, permissive)
        invariant 0 <= i <= |s| && s == old(s)
        invariant AtomLen(s, dot, permissive) == i + AtomLen(s[i..], dot, permissive)
      {
        AtomGoesOn(s, i, dot, permissive);
        i := i + 1;
      }
      AtomStops(s, i, dot, permissive);
      if i < |s| && !Valid(s[i]) {
        return Err(InvalidUtf8);
      }
      if i == 0 {
        return Err(InvalidString);
      }
      var a := s[..i];
      s := s[i..];
      if !permissive {
        if a[0] == DOT {
          return Err(LeadingDot);
        }
        if HasDoubleDot(a) {
          return Err(DoubleDot);
        }
        if a[i-1] == DOT {
          return Err(TrailingDot);
        }
      }
      return Ok(a);
    }

    method ConsumeComment() returns (comment: Text, ok: bool)
      modifies this
      ensures CommentScan(comment, ok, s) == Comment(old(s), 1)
    {
      var depth := 1;
      comment := [];
      EmitNothing(Comment(s, 1));
      while !Empty() && depth != 0
        invariant depth >= 0
        invariant Comment(old(s), 1) == EmitAll(comment, Comment(s, depth))
        decreases |s|
      {
        ghost var was, before := s, depth;
        if Peek() == BSLASH && |s| > 1 {
          s := s[1..];
        } else if Peek() == LPAREN {
          depth := depth + 1;
        } else if Peek() == RPAREN {
          depth := depth - 1;
        }
        CommentStep(comment, was, before, s, depth);
        if depth > 0 {
          comment := comment + s[..1];
        }
        s := s[1..];
      }
      EmitEnd(comment, s, depth);
      ok := depth == 0;
    }

    method SkipComments() returns (ok: bool)
      modifies this
      ensures Skip(ok, s) == SkipCFWS(old(s))
    {
      TrimSpace();
      while true
        invariant s == SkipSpace(s)
        invariant SkipCFWS(s) == SkipCFWS(old(s))
        decreases |s|
      {
        var open := Consume(LPAREN);
        if !open {
          break;
        }
        ghost var inner := s;
        var _, closed := ConsumeComment();
        if !closed {
          return false;
        }
        SkipSpaceTwice(s);
        TrimSpace();
      }
      return true;
    }

    method DecodeWord(word: Text) returns (w: Result<Text, Error>, encoded: bool)
      ensures w == match dec(word)
                   case Encoded(t) => Ok(t)
                   case UnknownCharset => Err(CharsetError)
                   case NotEncoded => Ok(word)
      ensures encoded == !dec(word).NotEncoded?
    {
      match dec(word) {
        case Encoded(t) => return Ok(t), true;
        case UnknownCharset => return Err(CharsetError), true;
        case NotEncoded => return Ok(word), false;
      }
    }

    method ConsumeDisplayNameComment() returns (name: Result<Text, Error>)
      modifies this
      ensures Scan(name, s) == DisplayNameComment(old(s), dec)
    {
      var open := Consume(LPAREN);
      if !open {
        return Err(NotAComment);
      }
      var comment, ok := ConsumeComment();
      if !ok {
        return Err(BadComment);
      }
      var words := Fields(comment);
      ghost var all := DecodeWords(words, dec);
      var idx := 0;
      assert words[..0] == [] && words[0..] == words;
      ConsAllNothing(all);
      while idx < |words|
        invariant 0 <= idx <= |words|
        invariant all == ConsAll(words[..idx], DecodeWords(words[idx..], dec))
        invariant s == Comment(old(s)[1..], 1).rest
      {
        var decoded, encoded := DecodeWord(words[idx]);
        if decoded.Err? {
          return Err(decoded.error);
        }
        ConsAllStep(words[..idx], decoded.value, DecodeWords(words[idx+1..], dec));
        assert words[idx..][1..] == words[idx+1..];
        if encoded {
          words := words[idx := decoded.value];
        }
        assert words[..idx+1] == words[..idx] + [decoded.value];
        idx := idx + 1;
      }
      assert words[..idx] == words && words[idx..] == [] && words + [] == words;
      return Ok(Join(words, [SP]));
    }

    method ConsumePhrase() returns (phrase: Result<Text, Error>)
      modifies this
      ensures Scan(phrase, s) == Phrase(old(s), dec)
    {
      hide QuotedString, Atom;
      var prev := false;
      var wordCount := 0;
      var sb: Text := [];
      var err: Option<Error> := None;
      while true
        invariant PhraseFrom(s, dec, prev, wordCount, sb) == Phrase(old(s), dec)
        invariant wordCount >= 0 && err.None?
        decreases |s|
      {
        SkipSpaceTwice(s);
        TrimSpace();
        if Empty() {
          break;
        }
        var encoded := false;
        var word;
        if Peek() == QUOTE {
          word := ConsumeQuotedString();
        } else {
          word := ConsumeAtom(true, true);
          if word.Ok? {
            word, encoded := DecodeWord(word.value);
          }
        }
        if word.Err? {
          err := Some(word.error);
          break;
        }
        if prev && encoded {
          sb := sb + word.value;
        } else {
          if wordCount != 0 {
            sb := sb + [SP];
          }
          sb := sb + word.value;
          wordCount := wordCount + 1;
        }
        prev := encoded;
      }
      if err.Some? && wordCount == 0 {
        return Err(MissingWord);
      }
      return Ok(sb);
    }

    /** The body of consumeAddrSpec; its deferred restore is in the caller below. */
    method ConsumeAddrSpecBody() returns (spec: Result<Text, Error>)
      modifies this
      ensures Scan(spec, s) == AddrSpecBody(old(s))
    {
      TrimSpace();
      if Empty() {
        return Err(NoAddrSpec);
      }
      var localPart;
      if Peek() == QUOTE {
        localPart := ConsumeQuotedString();
        if localPart.Err? || localPart.value == [] {
          localPart := Err(EmptyQuotedLocal);
        }
      } else {
        localPart := ConsumeAtom(true, false);
      }
      if localPart.Err? {
        return localPart;
      }
      var at := Consume(AT);
      if !at {
        return Err(MissingAt);
      }
      TrimSpace();
      if Empty() {
        return Err(NoDomain);
      }
      var domain := ConsumeAtom(true, false);
      if domain.Err? {
        return domain;
      }
      if ByteLen(domain.value) > MAX_DOMAIN {
        return Err(DomainTooLong);
      }
      if ByteLen(localPart.value) > MAX_LOCAL {
        return Err(LocalTooLong);
      }
      var address := localPart.value + [AT] + domain.value;
      if ByteLen(address) > MAX_EMAIL {
        return Err(TotalTooLong);
      }
      return Ok(address);
    }

    method ConsumeAddrSpec() returns (spec: Result<Text, Error>)
      modifies this
      ensures Scan(spec, s) == AddrSpec(old(s))
    {
      var orig := s;
      spec := ConsumeAddrSpecBody();
      if spec.Err? {
        s := orig;
      }
    }

    /** Appends to `list` exactly the addresses found; with a null list it only verifies. */
    method ParseAddress(handleGroup: bool, list: AddressList?) returns (n: nat, err: Option<Error>)
      modifies this, list
      ensures var p := Grammar.ParseAddress(old(s), handleGroup, dec);
              && n == p.count && err == p.err && s == p.rest
              && (list != null ==> list.items == old(list.items) + p.found)
      decreases if handleGroup then 2 else 0, |s|
    {
      hide AddrSpec, DisplayNameComment, Phrase, GroupList, AllAtext;
      TrimSpace();
      if Empty() {
        return 0, Some(NoAddress);
      }
      var spec := ConsumeAddrSpec();
      if spec.Ok? {
        var displayName := [];
        TrimSpace();
        if !Empty() && Peek() == LPAREN {
          var name := ConsumeDisplayNameComment();
          if name.Err? {
            return 0, Some(name.error);
          }
          displayName := name.value;
        }
        if list != null {
          list.items := list.items + [Address(displayName, spec.value)];
        }
        return 1, None;
      }

      var displayName := [];
      if Peek() != LT {
        var phrase := ConsumePhrase();
        if phrase.Err? {
          return 0, Some(phrase.error);
        }
        displayName := phrase.value;
      }
      TrimSpace();
      if handleGroup {
        var group := Consume(COLON);
        if group {
          n, err := ConsumeGroupList(list);
          return;
        }
      }
      var open := Consume(LT);
      if !open {
        return 0, Some(if AllAtext(displayName) then MissingAtOrAngle else NoAngleAddr);
      }
      spec := ConsumeAddrSpec();
      if spec.Err? {
        return 0, Some(spec.error);
      }
      var closed := Consume(GT);
      if !closed {
        return 0, Some(UnclosedAngle);
      }
      if list != null {
        list.items := list.items + [Address(displayName, spec.value)];
      }
      return 1, None;
    }

    method ConsumeGroupList(group: AddressList?) returns (n: nat, err: Option<Error>)
      modifies this, group
      ensures var p := GroupList(old(s), dec);
              && n == p.count && err == p.err && s == p.rest
              && (group != null ==> group.items == old(group.items) + p.found)
      decreases 1, |s|
    {
      hide Grammar.ParseAddress, SkipCFWS, GroupAfter, GroupFrom, SkipSpace, FoundBefore;
      TrimSpace();
      var empty := Consume(SEMI);
      if empty {
        var _ := SkipComments();
        return 0, None;
      }
      ghost var found: seq<Address> := [];
      ghost var all := GroupFrom(s, dec, 0);
      var total := 0;
      FoundNothing(all);
      while true
        invariant total >= 0
        invariant all == FoundBefore(found, GroupFrom(s, dec, total))
        invariant group != null ==> group.items == old(group.items) + found
        decreases |s|
      {
        GroupFromSkipsSpace(s, dec, total);
        SkipSpaceTwice(s);
        TrimSpace();
        ghost var p := Grammar.ParseAddress(s, false, dec);
        GroupTurn(found, s, dec, total);
        n, err := ParseAddress(false, group);
        if err.Some? {
          return 0, err;
        }
        found := found + p.found;
        total := total + n;
        var ok := SkipComments();
        if !ok {
          return 0, Some(BadComment);
        }
        var end := Consume(SEMI);
        if end {
          var _ := SkipComments();
          break;
        }
        var comma := Consume(COMMA);
        if !comma {
          return 0, Some(ExpectedComma);
        }
      }
      return total, None;
    }

    method ParseAddressList() returns (r: Result<seq<Address>, Error>)
      modifies this
      ensures Scan(r, s) == ParseList(old(s), dec)
    {
      var list := new AddressList();
      while true
        invariant fresh(list)
        invariant ListFrom(s, dec, list.items) == ParseList(old(s), dec)
        decreases |s|
      {
        SkipSpaceTwice(s);
        TrimSpace();
        var skip := Consume(COMMA);
        if skip {
          continue;
        }
        var _, err := ParseAddress(true, list);
        if err.Some? {
          return Err(err.value);
        }
        var ok := SkipComments();
        if !ok {
          return Err(BadComment);
        }
        if Empty() {
          break;
        }
        if Peek() != COMMA {
          return Err(ExpectedComma);
        }
        ConsumeCommas();
        if Empty() {
          break;
        }
      }
      return Ok(list.items);
    }

    /** The same grammar without a list: accepts exactly what ParseAddressList accepts. */
    method VerifyAddressList() returns (err: Option<Error>)
      modifies this
      ensures s == ParseList(old(s), dec).rest
      ensures err == ErrorOf(ParseList(old(s), dec).value)
    {
      ghost var found := [];
      while true
        invariant ListFrom(s, dec, found) == ParseList(old(s), dec)
        decreases |s|
      {
        SkipSpaceTwice(s);
        TrimSpace();
        var skip := Consume(COMMA);
        if skip {
          continue;
        }
        ghost var p := Grammar.ParseAddress(s, true, dec);
        var _, e := ParseAddress(true, null);
        if e.Some? {
          return e;
        }
        found := found + p.found;
        var ok := SkipComments();
        if !ok {
          return Some(BadComment);
        }
        if Empty() {
          break;
        }
        if Peek() != COMMA {
          return Some(ExpectedComma);
        }
        ConsumeCommas();
        if Empty() {
          break;
        }
      }
      return None;
    }

    /** Skips empty list entries. */
    method ConsumeCommas()
      modifies this
      ensures s == SkipCommas(old(s))
    {
      var comma := Consume(COMMA);
      while comma
        invariant SkipCommas(old(s)) == if comma then SkipCommas(SkipSpace(s)) else s
        decreases |s| + if comma then 1 else 0
      {
        TrimSpace();
        comma := Consume(COMMA);
      }
    }

    method ParseSingleAddress() returns (r: Result<Address, Error>)
      modifies this
      ensures Scan(r, s) == ParseSingle(old(s), dec)
    {
      var addrs := new AddressList();
      var _, err := ParseAddress(true, addrs);
      if err.Some? {
        return Err(err.value);
      }
      var ok := SkipComments();
      if !ok {
        return Err(BadComment);
      }
      if !Empty() {
        return Err(ExpectedSingle);
      }
      if |addrs.items| == 0 {
        return Err(EmptyGroup);
      }
      if |addrs.items| > 1 {
        return Err(MultipleInGroup);
      }
      return Ok(addrs.items[0]);
    }

    /** Decides by the count alone, and agrees with ParseSingleAddress because the count is the
        number of addresses found. */
    method VerifySingleAddress() returns (err: Option<Error>)
      modifies this
      ensures s == ParseSingle(old(s), dec).rest
      ensures err == ErrorOf(ParseSingle(old(s), dec).value)
    {
      CountIsFound(s, true, dec);
      var total, e := ParseAddress(true, null);
      if e.Some? {
        return e;
      }
      var ok := SkipComments();
      if !ok {
        return Some(BadComment);
      }
      if !Empty() {
        return Some(ExpectedSingle);
      }
      if total == 0 {
        return Some(EmptyGroup);
      }
      if total > 1 {
        return Some(MultipleInGroup);
      }
      return None;
    }
  }

  function ErrorOf<T>(r: Result<T, Error>): Option<Error> {
    if r.Ok? then None else Some(r.error)
  }

  // ---- the exported entry points: a fresh parser for each call ------------------------------

  method Parse(address: Text, dec: Decoder) returns (r: Result<Address, Error>)
    ensures r == ParseSingle(address, dec).value
  {
    var p := new Parser(address, dec);
    r := p.ParseSingleAddress();
  }

  method VerifyFormat(address: Text, dec: Decoder) returns (err: Option<Error>)
    ensures err == ErrorOf(ParseSingle(address, dec).value)
  {
    var p := new Parser(address, dec);
    err := p.VerifySingleAddress();
  }

  method ParseAddresses(list: Text, dec: Decoder) returns (r: Result<seq<Address>, Error>)
    ensures r == ParseList(list, dec).value
  {
    var p := new Parser(list, dec);
    r := p.ParseAddressList();
  }

  method VerifyListFormat(list: Text, dec: Decoder) returns (err: Option<Error>)
    ensures err == ErrorOf(ParseList(list, dec).value)
  {
    var p := new Parser(list, dec);
    err := p.VerifyAddressList();
  }
}
