/**
  What the recursive-descent address parser computes, as functions of the remaining input.
  The class in AddrParser.dfy is proved to compute exactly these; the theorems about parsing are
  stated over them.
 */
module Grammar {
  import opened Wrappers
  import opened Text

  datatype Error =
    | NoAddress | MissingAtOrAngle | NoAngleAddr | UnclosedAngle
    | BadComment | ExpectedComma | ExpectedSingle | EmptyGroup | MultipleInGroup
    | NoAddrSpec | EmptyQuotedLocal | MissingAt | NoDomain
    | DomainTooLong | LocalTooLong | TotalTooLong
    | MissingWord | UnclosedQuoted | InvalidUtf8 | BadQuotedChar
    | InvalidString | LeadingDot | DoubleDot | TrailingDot
    | NotAComment | CharsetError

  datatype Address = Address(name: Text, address: Text)

  /** What the RFC 2047 decoder says of a word: decoded, in an unknown charset, or not an encoded word. */
  datatype Decoded = Encoded(word: Text) | UnknownCharset | NotEncoded

  type Decoder = Text -> Decoded

  /** The outcome of one scanning step and the input that is left. */
  datatype Scan<+T> = Scan(value: Result<T, Error>, rest: Text)

  const MAX_DOMAIN := 255
  const MAX_LOCAL := 64
  const MAX_EMAIL := MAX_DOMAIN + MAX_LOCAL + 1

  function SkipSpace(s: Text): (r: Text)
    ensures |r| <= |s| && (r != [] ==> !IsWSP(r[0]))
  {
    if s != [] && IsWSP(s[0]) then SkipSpace(s[1..]) else s
  }

  // ---- quoted strings ------------------------------------------------------------------

  /** Scans from just after the opening quote; the result pairs the unescaped content with what
      follows the closing quote. */
  function QuotedBody(s: Text, escaped: bool): (r: Result<(Text, Text), Error>)
    ensures r.Ok? ==> |r.value.0| + |r.value.1| < |s|
  {
    if s == [] then Err(UnclosedQuoted)
    else if !Valid(s[0]) then Err(InvalidUtf8)
    else if escaped then
      if IsVchar(s[0]) || IsWSP(s[0]) then Prepend([s[0]], QuotedBody(s[1..], false))
      else Err(BadQuotedChar)
    else if IsQtext(s[0]) || IsWSP(s[0]) then Prepend([s[0]], QuotedBody(s[1..], false))
    else if s[0] == QUOTE then Ok(([], s[1..]))
    else if s[0] == BSLASH then QuotedBody(s[1..], true)
    else Err(BadQuotedChar)
  }

  function Prepend(a: Text, r: Result<(Text, Text), Error>): Result<(Text, Text), Error> {
    match r
    case Ok((v, rest)) => Ok((a + v, rest))
    case Err(e) => Err(e)
  }

  function QuotedString(s: Text): (r: Scan<Text>)
    requires s != []
    ensures |r.rest| <= |s| && (r.value.Ok? ==> |r.value.value| + |r.rest| + 2 <= |s|)
  {
    match QuotedBody(s[1..], false)
    case Ok((v, rest)) => Scan(Ok(v), rest)
    case Err(e) => Scan(Err(e), s)
  }

  // ---- atoms ---------------------------------------------------------------------------

  function AtomLen(s: Text, dot: bool, permissive: bool): (n: nat)
    ensures n <= |s|
    ensures forall i :: 0 <= i < n ==> Valid(s[i]) && IsAtext(s[i], dot, permissive)
    ensures n < |s| ==> !Valid(s[n]) || !IsAtext(s[n], dot, permissive)
  {
    if s != [] && Valid(s[0]) && IsAtext(s[0], dot, permissive)
    then 1 + AtomLen(s[1..], dot, permissive)
    else 0
  }

  function Atom(s: Text, dot: bool, permissive: bool): (r: Scan<Text>)
    ensures |r.rest| <= |s|
    ensures r.value.Ok? ==> r.value.value != [] && r.value.value + r.rest == s
  {
    var n := AtomLen(s, dot, permissive);
    if n < |s| && !Valid(s[n]) then Scan(Err(InvalidUtf8), s)
    else if n == 0 then Scan(Err(InvalidString), s)
    else
      var atom := s[..n];
      assert atom + s[n..] == s;
      if permissive then Scan(Ok(atom), s[n..])
      else if atom[0] == DOT then Scan(Err(LeadingDot), s[n..])
      else if HasDoubleDot(atom) then Scan(Err(DoubleDot), s[n..])
      else if atom[n-1] == DOT then Scan(Err(TrailingDot), s[n..])
      else Scan(Ok(atom), s[n..])
  }

  // ---- comments ------------------------------------------------------------------------

  datatype CommentScan = CommentScan(text: Text, ok: bool, rest: Text)

  /** Scans a comment at nesting depth `depth`, whose opening parentheses are already consumed. */
  function Comment(s: Text, depth: nat): (r: CommentScan)
    ensures |r.rest| <= |s|
    decreases |s|
  {
    if depth == 0 then CommentScan([], true, s)
    else if s == [] then CommentScan([], false, [])
    else if s[0] == BSLASH && |s| > 1 then Emit(s[1], Comment(s[2..], depth))
    else if s[0] == LPAREN then Emit(s[0], Comment(s[1..], depth + 1))
    else if s[0] == RPAREN then
      if depth == 1 then Comment(s[1..], 0) else Emit(s[0], Comment(s[1..], depth - 1))
    else Emit(s[0], Comment(s[1..], depth))
  }

  function Emit(c: int, r: CommentScan): CommentScan {
    r.(text := [c] + r.text)
  }

  datatype Skip = Skip(ok: bool, rest: Text)

  function SkipCFWS(s: Text): (r: Skip)
    ensures |r.rest| <= |s|
    decreases |s|
  {
    var s := SkipSpace(s);
    if Starts(s, LPAREN) then
      var c := Comment(s[1..], 1);
      if c.ok then SkipCFWS(c.rest) else Skip(false, c.rest)
    else Skip(true, s)
  }

  /** The fields of s between runs of spaces and tabs; `word` is the field read so far. */
  function Fields(s: Text, word: Text := []): seq<Text>
    decreases |s|
  {
    var done := if word == [] then [] else [word];
    if s == [] then done
    else if IsWSP(s[0]) then done + Fields(s[1..], [])
    else Fields(s[1..], word + [s[0]])
  }

  /** Decodes the encoded words of a comment, in order, stopping at an unknown charset. */
  function DecodeWords(words: seq<Text>, dec: Decoder): Result<seq<Text>, Error> {
    if words == [] then Ok([])
    else match dec(words[0])
      case UnknownCharset => Err(CharsetError)
      case Encoded(w) => Cons(w, DecodeWords(words[1..], dec))
      case NotEncoded => Cons(words[0], DecodeWords(words[1..], dec))
  }

  function Cons(w: Text, r: Result<seq<Text>, Error>): Result<seq<Text>, Error> {
    if r.Ok? then Ok([w] + r.value) else r
  }

  function DisplayNameComment(s: Text, dec: Decoder): (r: Scan<Text>)
    ensures |r.rest| <= |s|
  {
    if !Starts(s, LPAREN) then Scan(Err(NotAComment), s)
    else
      var c := Comment(s[1..], 1);
      if !c.ok then Scan(Err(BadComment), c.rest)
      else match DecodeWords(Fields(c.text), dec)
        case Ok(words) => Scan(Ok(Join(words, [SP])), c.rest)
        case Err(e) => Scan(Err(e), c.rest)
  }

  // ---- phrases -------------------------------------------------------------------------

  datatype Word = Word(scan: Scan<Text>, encoded: bool)

  function PhraseWord(s: Text, dec: Decoder): (w: Word)
    requires s != []
    ensures |w.scan.rest| <= |s| && (w.scan.value.Ok? ==> |w.scan.rest| < |s|)
  {
    if s[0] == QUOTE then Word(QuotedString(s), false)
    else
      var a := Atom(s, true, true);
      if a.value.Err? then Word(a, false)
      else match dec(a.value.value)
        case Encoded(word) => Word(Scan(Ok(word), a.rest), true)
        case UnknownCharset => Word(Scan(Err(CharsetError), a.rest), true)
        case NotEncoded => Word(a, false)
  }

  /** The phrase so far is `acc`, made of `count` words; `prev` says the last one was encoded. */
  function PhraseFrom(s: Text, dec: Decoder, prev: bool, count: nat, acc: Text): (r: Scan<Text>)
    ensures |r.rest| <= |s|
    decreases |s|
  {
    var s := SkipSpace(s);
    if s == [] then Scan(Ok(acc), s)
    else
      var w := PhraseWord(s, dec);
      if w.scan.value.Err? then
        Scan(if count == 0 then Err(MissingWord) else Ok(acc), w.scan.rest)
      else if prev && w.encoded then
        PhraseFrom(w.scan.rest, dec, true, count, acc + w.scan.value.value)
      else
        PhraseFrom(w.scan.rest, dec, w.encoded, count + 1,
                   (if count == 0 then acc else acc + [SP]) + w.scan.value.value)
  }

  function Phrase(s: Text, dec: Decoder): (r: Scan<Text>)
    ensures |r.rest| <= |s|
  {
    PhraseFrom(s, dec, false, 0, [])
  }

  // ---- addr-spec -----------------------------------------------------------------------

  function LocalPart(s: Text): (r: Scan<Text>)
    requires s != []
    ensures |r.rest| <= |s|
    ensures r.value.Ok? ==> r.value.value != [] && |r.value.value| + |r.rest| <= |s|
  {
    if s[0] == QUOTE then
      var q := QuotedString(s);
      if q.value.Err? || q.value.value == [] then Scan(Err(EmptyQuotedLocal), q.rest) else q
    else Atom(s, true, false)
  }

  /** An addr-spec without restoring the input on failure. */
  function AddrSpecBody(s: Text): (r: Scan<Text>)
    ensures |r.rest| <= |s|
    ensures r.value.Ok? ==> |r.value.value| + |r.rest| <= |s|
  {
    var s := SkipSpace(s);
    if s == [] then Scan(Err(NoAddrSpec), s)
    else
      var l := LocalPart(s);
      if l.value.Err? then l
      else if !Starts(l.rest, AT) then Scan(Err(MissingAt), l.rest)
      else
        var s := SkipSpace(l.rest[1..]);
        if s == [] then Scan(Err(NoDomain), s)
        else
          var d := Atom(s, true, false);
          if d.value.Err? then d
          else if ByteLen(d.value.value) > MAX_DOMAIN then Scan(Err(DomainTooLong), d.rest)
          else if ByteLen(l.value.value) > MAX_LOCAL then Scan(Err(LocalTooLong), d.rest)
          else
            var address := l.value.value + [AT] + d.value.value;
            if ByteLen(address) > MAX_EMAIL then Scan(Err(TotalTooLong), d.rest)
            else Scan(Ok(address), d.rest)
  }

  function AddrSpec(s: Text): (r: Scan<Text>)
    ensures |r.rest| <= |s|
    ensures r.value.Ok? ==> |r.value.value| + |r.rest| <= |s|
    ensures r.value.Err? ==> r.rest == s
  {
    var r := AddrSpecBody(s);
    if r.value.Err? then r.(rest := s) else r
  }

  // ---- addresses, groups and lists -----------------------------------------------------

  /** The outcome of parsing one address or group: the error if any, the count the code returns,
      the addresses it appends to the list (possibly before failing), and the input left. */
  datatype Parsed = Parsed(err: Option<Error>, count: nat, found: seq<Address>, rest: Text)

  function Failed(e: Error, rest: Text): Parsed {
    Parsed(Some(e), 0, [], rest)
  }

  predicate AllAtext(s: Text) {
    forall i :: 0 <= i < |s| ==> IsAtext(RuneOf(s[i]), true, false)
  }

  /** From the point where an angle-addr must follow the display name. */
  function AngleAddr(s: Text, name: Text): (r: Parsed)
    ensures |r.rest| <= |s| && (r.err.None? ==> |r.rest| < |s|)
  {
    if !Starts(s, LT) then Failed(if AllAtext(name) then MissingAtOrAngle else NoAngleAddr, s)
    else
      var spec := AddrSpec(s[1..]);
      if spec.value.Err? then Failed(spec.value.error, spec.rest)
      else if !Starts(spec.rest, GT) then Failed(UnclosedAngle, spec.rest)
      else Parsed(None, 1, [Address(name, spec.value.value)], spec.rest[1..])
  }

  /** After a bare addr-spec: an optional comment gives the display name. */
  function BareAddr(s: Text, spec: Text, dec: Decoder): (r: Parsed)
    ensures |r.rest| <= |s|
  {
    var s := SkipSpace(s);
    if Starts(s, LPAREN) then
      var c := DisplayNameComment(s, dec);
      match c.value
      case Err(e) => Failed(e, c.rest)
      case Ok(name) => Parsed(None, 1, [Address(name, spec)], c.rest)
    else Parsed(None, 1, [Address([], spec)], s)
  }

  function ParseAddress(s: Text, handleGroup: bool, dec: Decoder): (r: Parsed)
    ensures |r.rest| <= |s| && (r.err.None? ==> |r.rest| < |s|)
    decreases if handleGroup then 2 else 0, |s|
  {
    var s := SkipSpace(s);
    if s == [] then Failed(NoAddress, s)
    else
      var spec := AddrSpec(s);
      if spec.value.Ok? then BareAddr(spec.rest, spec.value.value, dec)
      else
        var phrase := if s[0] == LT then Scan(Ok([]), s) else Phrase(s, dec);
        if phrase.value.Err? then Failed(phrase.value.error, phrase.rest)
        else
          var s := SkipSpace(phrase.rest);
          if handleGroup && Starts(s, COLON) then GroupList(s[1..], dec)
          else AngleAddr(s, phrase.value.value)
  }

  function GroupList(s: Text, dec: Decoder): (r: Parsed)
    ensures |r.rest| <= |s|
    decreases 1, |s|, 1
  {
    var s := SkipSpace(s);
    if Starts(s, SEMI) then Parsed(None, 0, [], SkipCFWS(s[1..]).rest)
    else GroupFrom(s, dec, 0)
  }

  function GroupFrom(s: Text, dec: Decoder, total: nat): (r: Parsed)
    ensures |r.rest| <= |s|
    decreases 1, |s|, 0
  {
    var s := SkipSpace(s);
    var p := ParseAddress(s, false, dec);
    if p.err.Some? then p.(count := 0) else GroupAfter(p, dec, total)
  }

  /** The rest of a group list after the member `p`. */
  function GroupAfter(p: Parsed, dec: Decoder, total: nat): (r: Parsed)
    ensures |r.rest| <= |p.rest|
    decreases 1, |p.rest|, 1
  {
    var c := SkipCFWS(p.rest);
    if !c.ok then Parsed(Some(BadComment), 0, p.found, c.rest)
    else if Starts(c.rest, SEMI) then
      Parsed(None, total + p.count, p.found, SkipCFWS(c.rest[1..]).rest)
    else if !Starts(c.rest, COMMA) then Parsed(Some(ExpectedComma), 0, p.found, c.rest)
    else
      var more := GroupFrom(c.rest[1..], dec, total + p.count);
      more.(found := p.found + more.found)
  }

  /** Empty list entries: each comma and the space after it. */
  function SkipCommas(s: Text): (r: Text)
    ensures |r| <= |s| && (Starts(s, COMMA) ==> |r| < |s|)
    decreases |s|
  {
    if Starts(s, COMMA) then SkipCommas(SkipSpace(s[1..])) else s
  }

  function ListFrom(s: Text, dec: Decoder, acc: seq<Address>): Scan<seq<Address>>
    decreases |s|
  {
    var s := SkipSpace(s);
    if Starts(s, COMMA) then ListFrom(s[1..], dec, acc)
    else
      var p := ParseAddress(s, true, dec);
      if p.err.Some? then Scan(Err(p.err.value), p.rest)
      else
        var c := SkipCFWS(p.rest);
        if !c.ok then Scan(Err(BadComment), c.rest)
        else if c.rest == [] then Scan(Ok(acc + p.found), c.rest)
        else if c.rest[0] != COMMA then Scan(Err(ExpectedComma), c.rest)
        else
          var s := SkipCommas(c.rest);
          if s == [] then Scan(Ok(acc + p.found), s) else ListFrom(s, dec, acc + p.found)
  }

  function ParseList(s: Text, dec: Decoder): Scan<seq<Address>> {
    ListFrom(s, dec, [])
  }

  function ParseSingle(s: Text, dec: Decoder): Scan<Address> {
    var p := ParseAddress(s, true, dec);
    if p.err.Some? then Scan(Err(p.err.value), p.rest)
    else
      var c := SkipCFWS(p.rest);
      if !c.ok then Scan(Err(BadComment), c.rest)
      else if c.rest != [] then Scan(Err(ExpectedSingle), c.rest)
      else if |p.found| == 0 then Scan(Err(EmptyGroup), c.rest)
      else if |p.found| > 1 then Scan(Err(MultipleInGroup), c.rest)
      else Scan(Ok(p.found[0]), c.rest)
  }
}
