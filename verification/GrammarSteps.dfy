/**
  Single turns of the parser's loops, as equations between the functions of Grammar, and the count
  that parsing and verification share.
 */
module GrammarSteps {
  import opened Wrappers
  import opened Text
  import opened Grammar

  lemma SkipSpaceTwice(s: Text)
    ensures SkipSpace(SkipSpace(s)) == SkipSpace(s)
  {
  }

  lemma AtomGoesOn(s: Text, i: nat, dot: bool, permissive: bool)
    requires i < |s| && Valid(s[i]) && IsAtext(s[i], dot, permissive)
    ensures AtomLen(s[i..], dot, permissive) == 1 + AtomLen(s[i+1..], dot, permissive)
  {
    assert s[i..][1..] == s[i+1..];
  }

  lemma AtomStops(s: Text, i: nat, dot: bool, permissive: bool)
    requires i <= |s| && (i < |s| ==> !Valid(s[i]) || !IsAtext(s[i], dot, permissive))
    ensures AtomLen(s[i..], dot, permissive) == 0
  {
  }

  lemma PrependTwice(a: Text, b: Text, r: Result<(Text, Text), Error>)
    ensures Prepend(a, Prepend(b, r)) == Prepend(a + b, r)
  {
    if r.Ok? {
      assert a + (b + r.value.0) == a + b + r.value.0;
    }
  }

  lemma PrependNothing(r: Result<(Text, Text), Error>)
    ensures Prepend([], r) == r
  {
    if r.Ok? {
      assert [] + r.value.0 == r.value.0;
    }
  }

  ghost function EmitAll(done: Text, r: CommentScan): CommentScan {
    r.(text := done + r.text)
  }

  lemma EmitNothing(r: CommentScan)
    ensures EmitAll([], r) == r
  {
    assert [] + r.text == r.text;
  }

  lemma EmitEnd(done: Text, s: Text, depth: nat)
    requires s == [] || depth == 0
    ensures EmitAll(done, Comment(s, depth)) == CommentScan(done, depth == 0, s)
  {
    assert done + [] == done;
  }

  /** One turn of the comment loop: `next` starts at the character the turn consumes and `d` is
      the depth after it. */
  lemma CommentStep(done: Text, s: Text, depth: nat, next: Text, d: nat)
    requires s != [] && depth > 0
    requires next == if s[0] == BSLASH && |s| > 1 then s[1..] else s
    requires d == if s[0] == BSLASH && |s| > 1 then depth
                  else if s[0] == LPAREN then depth + 1
                  else if s[0] == RPAREN then depth - 1
                  else depth
    ensures EmitAll(done, Comment(s, depth)) ==
            EmitAll(if d > 0 then done + next[..1] else done, Comment(next[1..], d))
  {
    assert next[..1] == [next[0]];
    assert s[0] == BSLASH && |s| > 1 ==> next[1..] == s[2..];
    EmitTwice(done, next[0], Comment(next[1..], d));
  }

  lemma EmitTwice(done: Text, c: int, r: CommentScan)
    ensures EmitAll(done, Emit(c, r)) == EmitAll(done + [c], r)
  {
    assert done + ([c] + r.text) == done + [c] + r.text;
  }

  ghost function FoundBefore(found: seq<Address>, p: Parsed): Parsed {
    p.(found := found + p.found)
  }

  lemma FoundNothing(p: Parsed)
    ensures FoundBefore([], p) == p
  {
    assert [] + p.found == p.found;
  }

  lemma GroupFromSkipsSpace(s: Text, dec: Decoder, total: nat)
    ensures GroupFrom(SkipSpace(s), dec, total) == GroupFrom(s, dec, total)
  {
    SkipSpaceTwice(s);
  }

  /** One turn of the group loop: the member is parsed, then what follows it decides. */
  lemma GroupTurn(found: seq<Address>, s: Text, dec: Decoder, total: nat)
    requires SkipSpace(s) == s
    ensures var p := ParseAddress(s, false, dec);
            var c := SkipCFWS(p.rest);
            var all := found + p.found;
            FoundBefore(found, GroupFrom(s, dec, total)) ==
            if p.err.Some? then Parsed(p.err, 0, all, p.rest)
            else if !c.ok then Parsed(Some(BadComment), 0, all, c.rest)
            else if Starts(c.rest, SEMI) then
              Parsed(None, total + p.count, all, SkipCFWS(c.rest[1..]).rest)
            else if !Starts(c.rest, COMMA) then Parsed(Some(ExpectedComma), 0, all, c.rest)
            else FoundBefore(all, GroupFrom(c.rest[1..], dec, total + p.count))
  {
    hide ParseAddress, SkipCFWS, GroupAfter;
    var p := ParseAddress(s, false, dec);
    if p.err.None? {
      GroupAfterTurn(found, p, dec, total);
    }
  }

  lemma GroupAfterTurn(found: seq<Address>, p: Parsed, dec: Decoder, total: nat)
    ensures var c := SkipCFWS(p.rest);
            var all := found + p.found;
            FoundBefore(found, GroupAfter(p, dec, total)) ==
            if !c.ok then Parsed(Some(BadComment), 0, all, c.rest)
            else if Starts(c.rest, SEMI) then
              Parsed(None, total + p.count, all, SkipCFWS(c.rest[1..]).rest)
            else if !Starts(c.rest, COMMA) then Parsed(Some(ExpectedComma), 0, all, c.rest)
            else FoundBefore(all, GroupFrom(c.rest[1..], dec, total + p.count))
  {
    hide ParseAddress, GroupFrom, SkipCFWS;
    var c := SkipCFWS(p.rest);
    if c.ok && Starts(c.rest, COMMA) {
      var more := GroupFrom(c.rest[1..], dec, total + p.count);
      assert found + (p.found + more.found) == found + p.found + more.found;
    }
  }

  lemma ConsAllNothing(r: Result<seq<Text>, Error>)
    ensures ConsAll([], r) == r
  {
    if r.Ok? {
      assert [] + r.value == r.value;
    }
  }

  ghost function ConsAll(done: seq<Text>, r: Result<seq<Text>, Error>): Result<seq<Text>, Error> {
    if r.Ok? then Ok(done + r.value) else r
  }

  lemma ConsAllStep(done: seq<Text>, w: Text, r: Result<seq<Text>, Error>)
    ensures ConsAll(done, Cons(w, r)) == ConsAll(done + [w], r)
  {
    if r.Ok? {
      assert done + ([w] + r.value) == done + [w] + r.value;
    }
  }

  /** Parsing and verifying count alike: on success the number returned is the number of addresses
      appended, for single addresses and through nested group lists. */
  lemma {:induction false} CountIsFound(s: Text, handleGroup: bool, dec: Decoder)
    ensures var p := ParseAddress(s, handleGroup, dec);
            p.err.None? ==> p.count == |p.found|
    decreases if handleGroup then 2 else 0, |s|
  {
    hide AddrSpec, Phrase, DisplayNameComment, SkipCFWS, GroupFrom;
    var s := SkipSpace(s);
    if s != [] && AddrSpec(s).value.Err? {
      var phrase := if s[0] == LT then Scan(Ok([]), s) else Phrase(s, dec);
      var s := SkipSpace(phrase.rest);
      if phrase.value.Ok? && handleGroup && Starts(s, COLON) {
        GroupCountIsFound(SkipSpace(s[1..]), dec, 0);
      }
    }
  }

  lemma {:induction false} GroupCountIsFound(s: Text, dec: Decoder, total: nat)
    ensures var p := GroupFrom(s, dec, total);
            p.err.None? ==> p.count == total + |p.found|
    decreases 1, |s|, 0
  {
    CountIsFound(SkipSpace(s), false, dec);
    var p := ParseAddress(SkipSpace(s), false, dec);
    if p.err.None? {
      GroupAfterCountIsFound(p, dec, total);
    }
  }

  lemma {:induction false} GroupAfterCountIsFound(p: Parsed, dec: Decoder, total: nat)
    requires p.count == |p.found|
    ensures var r := GroupAfter(p, dec, total);
            r.err.None? ==> r.count == total + |r.found|
    decreases 1, |p.rest|, 1
  {
    hide ParseAddress;
    var c := SkipCFWS(p.rest);
    if c.ok && Starts(c.rest, COMMA) {
      GroupCountIsFound(c.rest[1..], dec, total + p.count);
    }
  }
}
