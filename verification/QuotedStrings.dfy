/**
  Quoted strings: what consumeQuotedString accepts and returns, in terms of RFC 5322, section 3.2.4,
  and what quoteString keeps of a text.
 */
module QuotedStrings {
  import opened Wrappers
  import opened Text
  import opened Grammar
  import opened Printer
  import opened RoundTrip

  /** A character of a quoted string, written as it is or after a backslash. */
  datatype QChar = Lit(c: int) | Pair(c: int)

  predicate IsQChar(q: QChar) {
    && Valid(q.c)
    && match q
       case Lit(c) => c == SP || c == TAB || (c >= 33 && c != 127 && c != QUOTE && c != BSLASH)
       case Pair(c) => c == SP || c == TAB || (c >= 33 && c != 127)
  }

  predicate AllQChars(qs: seq<QChar>) {
    forall i :: 0 <= i < |qs| ==> IsQChar(qs[i])
  }

  function OneText(q: QChar): Text {
    match q
    case Lit(c) => [c]
    case Pair(c) => [BSLASH, c]
  }

  function QText(qs: seq<QChar>): Text {
    if qs == [] then [] else OneText(qs[0]) + QText(qs[1..])
  }

  function QContent(qs: seq<QChar>): (t: Text)
    ensures |t| == |qs|
  {
    if qs == [] then [] else [qs[0].c] + QContent(qs[1..])
  }

  lemma ReadOne(q: QChar, more: Text)
    requires IsQChar(q)
    ensures QuotedBody(OneText(q) + more, false) == Prepend([q.c], QuotedBody(more, false))
  {
    var s := OneText(q) + more;
    match q
    case Lit(c) => assert s[1..] == more;
    case Pair(c) =>
      assert s == [BSLASH, c] + more && !IsQtext(BSLASH) && !IsWSP(BSLASH);
      assert s[1..] == [c] + more && ([c] + more)[1..] == more;
      assert QuotedBody(s, false) == QuotedBody([c] + more, true);
  }

  /** The content of a quoted string is what its characters say, escapes removed, and exactly the text
      after the closing quote is left. */
  lemma {:induction false} QuotedRead(qs: seq<QChar>, rest: Text)
    requires AllQChars(qs)
    ensures QuotedBody(QText(qs) + ([QUOTE] + rest), false) == Ok((QContent(qs), rest))
  {
    hide QuotedBody, OneText, IsQChar;
    var end := [QUOTE] + rest;
    if qs == [] {
      assert QText(qs) + end == end;
      QuoteCloses(rest);
    } else {
      QuotedRead(qs[1..], rest);
      ReadOne(qs[0], QText(qs[1..]) + end);
      assert QText(qs) + end == OneText(qs[0]) + (QText(qs[1..]) + end);
    }
  }

  /** What is accepted is such a text and its closing quote. */
  lemma {:induction false} QuotedFound(s: Text) returns (qs: seq<QChar>)
    requires QuotedBody(s, false).Ok?
    ensures AllQChars(qs) && QContent(qs) == QuotedBody(s, false).value.0
    ensures s == QText(qs) + ([QUOTE] + QuotedBody(s, false).value.1)
    decreases |s|
  {
    qs := [];
    if s[0] == QUOTE {
      assert s == [] + ([QUOTE] + s[1..]);
    } else {
      var q := if s[0] == BSLASH then Pair(s[1]) else Lit(s[0]);
      var more := s[|OneText(q)|..];
      FoundOne(s, q, more);
      ReadOne(q, more);
      qs := QuotedFound(more);
      var tail := [QUOTE] + QuotedBody(more, false).value.1;
      assert s == OneText(q) + (QText(qs) + tail);
      qs := [q] + qs;
      assert QText(qs) == OneText(q) + QText(qs[1..]);
    }
  }

  lemma FoundOne(s: Text, q: QChar, more: Text)
    requires QuotedBody(s, false).Ok? && s[0] != QUOTE
    requires s[0] == BSLASH ==> |s| >= 2 && q == Pair(s[1])
    requires s[0] != BSLASH ==> q == Lit(s[0])
    requires |OneText(q)| <= |s| && more == s[|OneText(q)|..]
    ensures IsQChar(q) && s == OneText(q) + more
  {
    if s[0] == BSLASH {
      assert QuotedBody(s, false) == QuotedBody(s[1..], true);
      assert s[1..][0] == s[1];
    }
  }

  ghost predicate QuotedAs(s: Text, qs: seq<QChar>, rest: Text) {
    AllQChars(qs) && s == QText(qs) + ([QUOTE] + rest)
  }

  /** After an open quote, a quoted string is accepted if and only if its characters and a closing quote
      start the input. */
  lemma QuotedAccepts(s: Text)
    ensures QuotedBody(s, false).Ok? <==> exists qs, rest :: QuotedAs(s, qs, rest)
  {
    hide QuotedBody;
    if QuotedBody(s, false).Ok? {
      var qs := QuotedFound(s);
      assert QuotedAs(s, qs, QuotedBody(s, false).value.1);
    }
    forall qs, rest | QuotedAs(s, qs, rest) ensures QuotedBody(s, false).Ok? {
      QuotedRead(qs, rest);
    }
  }

  /** A whole quoted string, between its quotes. */
  function InQuotes(qs: seq<QChar>): Text {
    [QUOTE] + (QText(qs) + [QUOTE])
  }

  lemma InQuotesRead(qs: seq<QChar>, rest: Text)
    requires AllQChars(qs)
    ensures QuotedString(InQuotes(qs) + rest) == Scan(Ok(QContent(qs)), rest)
  {
    assert (InQuotes(qs) + rest)[1..] == QText(qs) + ([QUOTE] + rest);
    QuotedRead(qs, rest);
    hide QuotedBody;
  }

  lemma InQuotesFound(s: Text) returns (qs: seq<QChar>)
    requires s != [] && s[0] == QUOTE && QuotedString(s).value.Ok?
    ensures AllQChars(qs) && s == InQuotes(qs) + QuotedString(s).rest
    ensures QuotedString(s).value == Ok(QContent(qs))
  {
    hide QuotedBody;
    qs := QuotedFound(s[1..]);
    var rest := QuotedString(s).rest;
    assert InQuotes(qs) + rest == [QUOTE] + (QText(qs) + ([QUOTE] + rest));
  }

  // ---- what quoteString keeps ----------------------------------------------------------------

  /** The characters that can be quoted; a stray byte counts as the replacement character. */
  function Quotable(t: Text): Text {
    if t == [] then []
    else
      (if IsVchar(RuneOf(t[0])) || IsWSP(RuneOf(t[0])) then [RuneOf(t[0])] else []) + Quotable(t[1..])
  }

  /** Quoting any text and reading it back gives the text without the characters that cannot be quoted. */
  lemma {:induction false} QuoteKeeps(t: Text, rest: Text)
    ensures QuotedBody(Escape(t) + ([QUOTE] + rest), false) == Ok((Quotable(t), rest))
  {
    hide QuotedBody, EscapeRune;
    var end := [QUOTE] + rest;
    if t == [] {
      assert Escape(t) + end == end;
      QuoteCloses(rest);
    } else {
      QuoteKeeps(t[1..], rest);
      var c, more := RuneOf(t[0]), Escape(t[1..]) + end;
      assert Escape(t) + end == EscapeRune(c) + more;
      KeepOne(c, more);
      assert [] + Quotable(t[1..]) == Quotable(t[1..]);
    }
  }

  lemma KeepOne(c: int, more: Text)
    requires Valid(c)
    ensures QuotedBody(EscapeRune(c) + more, false) ==
            if IsVchar(c) || IsWSP(c) then Prepend([c], QuotedBody(more, false)) else QuotedBody(more, false)
  {
    if IsVchar(c) || IsWSP(c) {
      EscapedRead(c, more);
    } else {
      assert [] + more == more;
    }
  }

  /** The characters of a text as quoteString writes them. */
  function Chars(t: Text): (qs: seq<QChar>) {
    if t == [] then []
    else [if t[0] == QUOTE || t[0] == BSLASH then Pair(t[0]) else Lit(t[0])] + Chars(t[1..])
  }

  lemma {:induction false} QuoteIsInQuotes(t: Text)
    requires IsQuotable(t)
    ensures AllQChars(Chars(t)) && QContent(Chars(t)) == t && Quote(t) == InQuotes(Chars(t))
  {
    if t != [] {
      QuoteIsInQuotes(t[1..]);
      assert QText(Chars(t[1..])) == Escape(t[1..]) by { EscapeIsText(t[1..]); }
    }
    EscapeIsText(t);
  }

  lemma {:induction false} EscapeIsText(t: Text)
    requires IsQuotable(t)
    ensures QText(Chars(t)) == Escape(t)
  {
    if t != [] {
      EscapeIsText(t[1..]);
      assert Chars(t)[1..] == Chars(t[1..]);
    }
  }
}
