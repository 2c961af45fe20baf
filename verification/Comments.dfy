/**
  Comments as trees: what consumeComment accepts and returns, in terms of RFC 5322, section 3.2.2.
 */
module Comments {
  import opened Text
  import opened Grammar
  import opened GrammarSteps

  /** ccontent: text, quoted pairs and nested comments in sequence. */
  datatype Tree =
    | Done
    | Plain(c: int, tail: Tree)
    | Escaped(c: int, tail: Tree)
    | Nested(inner: Tree, tail: Tree)

  predicate WellFormed(t: Tree) {
    match t
    case Done => true
    case Plain(c, tail) => c !in {LPAREN, RPAREN, BSLASH} && WellFormed(tail)
    case Escaped(_, tail) => WellFormed(tail)
    case Nested(inner, tail) => WellFormed(inner) && WellFormed(tail)
  }

  /** The source text of a comment's content. */
  function Render(t: Tree): Text {
    match t
    case Done => []
    case Plain(c, tail) => [c] + Render(tail)
    case Escaped(c, tail) => [BSLASH, c] + Render(tail)
    case Nested(inner, tail) => [LPAREN] + Render(inner) + [RPAREN] + Render(tail)
  }

  /** The content with the escapes removed; nested parentheses stay. */
  function Content(t: Tree): Text {
    match t
    case Done => []
    case Plain(c, tail) => [c] + Content(tail)
    case Escaped(c, tail) => [c] + Content(tail)
    case Nested(inner, tail) => [LPAREN] + Content(inner) + [RPAREN] + Content(tail)
  }

  lemma {:induction false} ScanTree(t: Tree, rest: Text, depth: nat)
    requires WellFormed(t) && depth > 0
    ensures Comment(Render(t) + rest, depth) == EmitAll(Content(t), Comment(rest, depth))
    decreases t, 1
  {
    match t
    case Done =>
      assert Render(t) + rest == rest;
      EmitNothing(Comment(rest, depth));
    case Plain(c, tail) =>
      assert Render(t) + rest == [c] + (Render(tail) + rest);
      ScanTree(tail, rest, depth);
      EmitPrefix([c], Content(tail), Comment(rest, depth));
    case Escaped(c, tail) =>
      var s := Render(t) + rest;
      assert s == [BSLASH, c] + (Render(tail) + rest);
      assert s[2..] == Render(tail) + rest;
      ScanTree(tail, rest, depth);
      EmitPrefix([c], Content(tail), Comment(rest, depth));
    case Nested(inner, tail) => ScanNested(inner, tail, rest, depth);
  }

  lemma {:induction false} ScanNested(inner: Tree, tail: Tree, rest: Text, depth: nat)
    requires WellFormed(inner) && WellFormed(tail) && depth > 0
    ensures var t := Nested(inner, tail);
            Comment(Render(t) + rest, depth) == EmitAll(Content(t), Comment(rest, depth))
    decreases Nested(inner, tail), 0
  {
    hide Comment, EmitAll, Render, Content;
    var close := [RPAREN] + (Render(tail) + rest);
    var r := Comment(rest, depth);
    ScanTree(inner, close, depth + 1);
    ScanTree(tail, rest, depth);
    CloseStep(Render(tail) + rest, Content(tail), r, depth);
    OpenStep(Render(inner) + close, Content(inner), [RPAREN] + Content(tail), r, depth);
    NestedText(inner, tail, rest);
  }

  lemma NestedText(inner: Tree, tail: Tree, rest: Text)
    ensures [LPAREN] + (Render(inner) + ([RPAREN] + (Render(tail) + rest))) ==
            Render(Nested(inner, tail)) + rest
    ensures [LPAREN] + (Content(inner) + ([RPAREN] + Content(tail))) == Content(Nested(inner, tail))
  {
  }

  lemma CloseStep(s: Text, content: Text, r: CommentScan, depth: nat)
    requires depth > 0 && Comment(s, depth) == EmitAll(content, r)
    ensures Comment([RPAREN] + s, depth + 1) == EmitAll([RPAREN] + content, r)
  {
    assert ([RPAREN] + s)[1..] == s;
    EmitPrefix([RPAREN], content, r);
  }

  lemma OpenStep(s: Text, inner: Text, after: Text, r: CommentScan, depth: nat)
    requires depth > 0 && Comment(s, depth + 1) == EmitAll(inner, EmitAll(after, r))
    ensures Comment([LPAREN] + s, depth) == EmitAll([LPAREN] + (inner + after), r)
  {
    assert ([LPAREN] + s)[1..] == s;
    EmitPrefix(inner, after, r);
    EmitPrefix([LPAREN], inner + after, r);
  }

  lemma EmitPrefix(a: Text, b: Text, r: CommentScan)
    ensures EmitAll(a, EmitAll(b, r)) == EmitAll(a + b, r)
  {
    assert a + (b + r.text) == a + b + r.text;
  }

  /** Consuming a rendered comment returns its content and leaves exactly what follows it. */
  lemma CommentExact(t: Tree, rest: Text)
    requires WellFormed(t)
    ensures Comment(Render(t) + [RPAREN] + rest, 1) == CommentScan(Content(t), true, rest)
  {
    assert Render(t) + [RPAREN] + rest == Render(t) + ([RPAREN] + rest);
    ScanTree(t, [RPAREN] + rest, 1);
    assert ([RPAREN] + rest)[1..] == rest;
    assert Content(t) + [] == Content(t);
  }

  lemma RenderNested(inner: Tree, tail: Tree, rest: Text)
    ensures [LPAREN] + (Render(inner) + [RPAREN] + (Render(tail) + [RPAREN] + rest)) ==
            Render(Nested(inner, tail)) + [RPAREN] + rest
  {
  }

  /** A scan that succeeds has read a comment tree up to its close parenthesis. */
  lemma {:induction false} ReadTree(s: Text, depth: nat) returns (t: Tree, rest: Text)
    requires depth > 0 && Comment(s, depth).ok
    ensures WellFormed(t) && s == Render(t) + [RPAREN] + rest
    ensures Comment(rest, depth - 1).ok
    decreases |s|
  {
    if s[0] == BSLASH && |s| > 1 {
      t, rest := ReadTree(s[2..], depth);
      t := Escaped(s[1], t);
    } else if s[0] == LPAREN {
      var inner, after := ReadTree(s[1..], depth + 1);
      t, rest := ReadTree(after, depth);
      RenderNested(inner, t, rest);
      t := Nested(inner, t);
    } else if s[0] == RPAREN {
      t, rest := Done, s[1..];
    } else {
      t, rest := ReadTree(s[1..], depth);
      t := Plain(s[0], t);
    }
  }

  ghost predicate ClosesWith(s: Text, t: Tree, rest: Text) {
    WellFormed(t) && s == Render(t) + [RPAREN] + rest
  }

  /** After an open parenthesis, consumeComment fails exactly when no comment tree followed by its
      close parenthesis starts the input. */
  lemma CommentAccepts(s: Text)
    ensures Comment(s, 1).ok <==> exists t, rest :: ClosesWith(s, t, rest)
  {
    if Comment(s, 1).ok {
      var t, rest := ReadTree(s, 1);
      assert ClosesWith(s, t, rest);
    }
    forall t, rest | ClosesWith(s, t, rest) ensures Comment(s, 1).ok {
      CommentExact(t, rest);
    }
  }
}
