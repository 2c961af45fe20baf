/**
  Header fields: how writeHeader folds long values.  Text is a sequence of bytes, written as chars.
 */
module Folding {

  const LINE := 76
  /** What is left of a line after the space that starts a continuation. */
  const REST := 75

  /** The first index of c in s, or -1. */
  function Index(s: string, c: char): (i: int)
    ensures -1 <= i < |s|
    ensures i >= 0 ==> s[i] == c
    ensures forall j :: 0 <= j < (if i < 0 then |s| else i) ==> s[j] != c
  {
    if s == "" then -1
    else if s[0] == c then 0
    else var i := Index(s[1..], c); if i < 0 then -1 else i + 1
  }

  function LastIndex(s: string, c: char): (i: int)
    ensures -1 <= i < |s|
    ensures i >= 0 ==> s[i] == c
    ensures forall j :: i < j < |s| ==> s[j] != c
  {
    if s == "" then -1
    else if s[|s|-1] == c then |s| - 1
    else LastIndex(s[..|s|-1], c)
  }

  /** The first space or newline at or after `from`, or the length of s. */
  function FirstBreak(s: string, from: nat): (i: nat)
    requires from <= |s|
    ensures from <= i <= |s|
    ensures i < |s| ==> s[i] == ' ' || s[i] == '\n'
    ensures forall j :: from <= j < i ==> s[j] != ' ' && s[j] != '\n'
    decreases |s| - from
  {
    if from == |s| || s[from] == ' ' || s[from] == '\n' then from else FirstBreak(s, from + 1)
  }

  /** What one writeLine writes, and what it leaves to be written. */
  datatype Cut = Cut(out: string, rest: string)

  function CutLine(s: string, charsLeft: int): (r: Cut)
    requires |s| > charsLeft
    ensures s != "" ==> |r.rest| < |s|
    ensures |r.rest| <= |s|
  {
    var newline := Index(s, '\n');
    if 0 <= newline < charsLeft then Cut(s[..newline+1], s[newline+1..])
    else
      var space := if charsLeft <= 0 then -1 else LastIndex(s[..charsLeft], ' ');
      if space >= 0 then Cut(s[..space] + "\r\n ", s[space+1..])
      else CutPast(s)
  }

  /** Cuts at the first break at or after index 75, wherever the line started. */
  function CutPast(s: string): (r: Cut)
    ensures s != "" ==> |r.rest| < |s|
    ensures |r.rest| <= |s|
  {
    if |s| <= REST then Cut(s, "")
    else
      var i := FirstBreak(s, REST);
      if i == |s| then Cut(s, "")
      else if s[i] == ' ' then Cut(s[..i] + "\r\n ", s[i+1..])
      else Cut(s[..i+1], s[i+1..])
  }

  /** A folded value and the room left on its last line. */
  datatype Folded = Folded(text: string, charsLeft: int)

  function Fold(s: string, charsLeft: int): Folded
    decreases |s| + if charsLeft < 0 then 1 else 0
  {
    if |s| > charsLeft then
      var cut := CutLine(s, charsLeft);
      var more := Fold(cut.rest, REST);
      more.(text := cut.out + more.text)
    else
      var i := LastIndex(s, '\n');
      Folded(s, if i != -1 then REST - (|s| - i - 1) else charsLeft - |s|)
  }

  /** What goes before a value: a comma except before the first, and a break if the line is full. */
  function Separator(charsLeft: int, first: bool): string {
    if charsLeft < 1 then (if first then "\r\n " else ",\r\n ")
    else if first then "" else ", "
  }

  function LeftAfter(charsLeft: int, first: bool): int {
    if charsLeft < 1 then REST else if first then charsLeft else charsLeft - 2
  }

  /** The values of a field, from a point with charsLeft characters left on the line. */
  function Values(v: seq<string>, charsLeft: int, first: bool): string {
    if v == [] then ""
    else
      var f := Fold(v[0], LeftAfter(charsLeft, first));
      Separator(charsLeft, first) + (f.text + Values(v[1..], f.charsLeft, false))
  }

  function Header(k: string, v: seq<string>): string {
    if v == [] then k + ":\r\n"
    else k + ": " + Values(v, LINE - |k| - 2, true) + "\r\n"
  }

  /** The part of messageWriter that writes header lines: the text so far and its length. */
  class HeaderWriter {
    var out: string
    var n: nat

    constructor ()
      ensures out == "" && n == 0
    {
      out, n := "", 0;
    }

    method WriteString(s: string)
      modifies this
      ensures out == old(out) + s && n == old(n) + |s|
    {
      out := out + s;
      n := n + |s|;
    }

    /** Writes the start of s up to a place to break; returns what is left of s. */
    method WriteLine(s: string, charsLeft: int) returns (rest: string)
      requires |s| > charsLeft
      modifies this
      ensures var cut := CutLine(s, charsLeft);
              rest == cut.rest && out == old(out) + cut.out && n == old(n) + |cut.out|
    {
      var newline := Index(s, '\n');
      if newline != -1 && newline < charsLeft {
        WriteString(s[..newline+1]);
        return s[newline+1..];
      }
      var i := charsLeft - 1;
      while i >= 0
        invariant i < charsLeft && (charsLeft >= 1 ==> i >= -1)
        invariant charsLeft >= 1 ==> LastIndex(s[..charsLeft], ' ') == LastIndex(s[..i+1], ' ')
      {
        assert s[..i+1][..i] == s[..i];
        if s[i] == ' ' {
          WriteBroken(s[..i]);
          return s[i+1..];
        }
        i := i - 1;
      }
      rest := WritePastLimit(s);
    }

    method WriteBroken(s: string)
      modifies this
      ensures out == old(out) + (s + "\r\n ") && n == old(n) + |s + "\r\n "|
    {
      WriteString(s);
      WriteString("\r\n ");
    }

    /** The fallback of writeLine: break at the first place after the limit, if there is one. */
    method WritePastLimit(s: string) returns (rest: string)
      modifies this
      ensures var cut := CutPast(s);
              rest == cut.rest && out == old(out) + cut.out && n == old(n) + |cut.out|
    {
      var i := REST;
      while i < |s|
        invariant REST <= i && (|s| > REST ==> i <= |s| && FirstBreak(s, REST) == FirstBreak(s, i))
      {
        if s[i] == ' ' {
          WriteBroken(s[..i]);
          return s[i+1..];
        }
        if s[i] == '\n' {
          WriteString(s[..i+1]);
          return s[i+1..];
        }
        i := i + 1;
      }
      WriteString(s);
      return "";
    }

    method WriteHeader(k: string, v: seq<string>)
      modifies this
      ensures out == old(out) + Header(k, v) && n == old(n) + |Header(k, v)|
    {
      hide Values;
      WriteString(k);
      if |v| == 0 {
        WriteString(":\r\n");
        Appended(old(out), k, ":\r\n");
        return;
      }
      WriteString(": ");
      Appended(old(out), k, ": ");
      var charsLeft := LINE - |k| - 2;
      WriteValues(v, charsLeft);
      Appended(old(out), k + ": ", Values(v, charsLeft, true));
      WriteString("\r\n");
      Appended(old(out), k + ": " + Values(v, charsLeft, true), "\r\n");
    }

    /** The loop of writeHeader over the values. */
    method WriteValues(v: seq<string>, left0: int)
      modifies this
      ensures out == old(out) + Values(v, left0, true) && n == old(n) + |Values(v, left0, true)|
    {
      hide Fold;
      var charsLeft := left0;
      ghost var text, all := "", Values(v, charsLeft, true);
      assert v[0..] == v && "" + all == all;
      for i := 0 to |v|
        invariant out == old(out) + text && n == old(n) + |text|
        invariant all == text + Values(v[i..], charsLeft, i == 0)
      {
        ghost var was := charsLeft;
        if charsLeft < 1 {
          if i == 0 {
            WriteString("\r\n ");
          } else {
            WriteString(",\r\n ");
          }
          charsLeft := REST;
        } else if i != 0 {
          WriteString(", ");
          charsLeft := charsLeft - 2;
        }
        assert v[i..][1..] == v[i+1..] && charsLeft == LeftAfter(was, i == 0);
        ValuesStep(text, v[i..], was, i == 0);
        Appended(old(out), text, Separator(was, i == 0));
        text := text + Separator(was, i == 0);
        assert out == old(out) + text;
        Appended(old(out), text, Fold(v[i], charsLeft).text);
        text := text + Fold(v[i], charsLeft).text;
        charsLeft := WriteValue(v[i], charsLeft);
      }
      assert text + "" == text;
    }

    /** The folding loop of writeHeader for one value. */
    method WriteValue(s0: string, left0: int) returns (charsLeft: int)
      modifies this
      ensures var f := Fold(s0, left0);
              charsLeft == f.charsLeft && out == old(out) + f.text && n == old(n) + |f.text|
    {
      hide CutLine, Fold, LastIndex, FoldBefore;
      var s := s0;
      charsLeft := left0;
      ghost var text := "";
      FoldNothing(Fold(s, charsLeft));
      while |s| > charsLeft
        invariant out == old(out) + text && n == old(n) + |text|
        invariant Fold(s0, left0) == FoldBefore(text, Fold(s, charsLeft))
        decreases |s| + if charsLeft < 0 then 1 else 0
      {
        ghost var cut := CutLine(s, charsLeft);
        FoldStep(text, s, charsLeft);
        Appended(old(out), text, cut.out);
        s := WriteLine(s, charsLeft);
        text := text + cut.out;
        charsLeft := REST;
      }
      FoldEnd(text, s, charsLeft);
      WriteString(s);
      Appended(old(out), text, s);
      var i := LastIndex(s, '\n');
      if i != -1 {
        charsLeft := REST - (|s| - i - 1);
      } else {
        charsLeft := charsLeft - |s|;
      }
    }
  }

  ghost function FoldBefore(text: string, f: Folded): Folded {
    f.(text := text + f.text)
  }

  lemma FoldNothing(f: Folded)
    ensures FoldBefore("", f) == f
  {
    assert "" + f.text == f.text;
  }

  lemma FoldEnd(text: string, s: string, charsLeft: int)
    requires |s| <= charsLeft
    ensures var i := LastIndex(s, '\n');
            FoldBefore(text, Fold(s, charsLeft)) ==
            Folded(text + s, if i != -1 then REST - (|s| - i - 1) else charsLeft - |s|)
  {
  }

  lemma FoldStep(text: string, s: string, charsLeft: int)
    requires |s| > charsLeft
    ensures var cut := CutLine(s, charsLeft);
            FoldBefore(text, Fold(s, charsLeft)) == FoldBefore(text + cut.out, Fold(cut.rest, REST))
  {
    hide CutLine;
    var cut := CutLine(s, charsLeft);
    var more := Fold(cut.rest, REST);
    assert text + (cut.out + more.text) == text + cut.out + more.text;
  }

  lemma Appended(out: string, text: string, more: string)
    ensures out + text + more == out + (text + more)
  {
  }

  lemma ValuesStep(text: string, v: seq<string>, charsLeft: int, first: bool)
    requires v != []
    ensures var f := Fold(v[0], LeftAfter(charsLeft, first));
            text + Values(v, charsLeft, first) ==
            text + Separator(charsLeft, first) + f.text + Values(v[1..], f.charsLeft, false)
  {
    hide Fold, Separator;
  }

  // ---- unfolding undoes folding ------------------------------------------------------------

  /** RFC 5322, section 2.2.3: remove each CRLF that is followed by white space. */
  function Unfold(s: string): string {
    if s == "" then ""
    else if |s| >= 3 && s[0] == '\r' && s[1] == '\n' && (s[2] == ' ' || s[2] == '\t') then Unfold(s[2..])
    else [s[0]] + Unfold(s[1..])
  }

  predicate Clean(s: string) {
    forall i :: 0 <= i < |s| ==> s[i] != '\r' && s[i] != '\n'
  }

  function JoinComma(v: seq<string>): string {
    if v == [] then "" else if |v| == 1 then v[0] else v[0] + ", " + JoinComma(v[1..])
  }

  lemma UnfoldBreak(b: string)
    ensures Unfold("\r\n " + b) == " " + Unfold(b)
  {
    var s := "\r\n " + b;
    assert s[2..] == " " + b;
    assert (" " + b)[1..] == b;
  }

  /** t is s with some of its spaces replaced by CRLF and a space. */
  ghost predicate Folds(t: string, s: string)
    decreases |s|
  {
    if s == "" then t == ""
    else
      || (t != "" && t[0] == s[0] && Folds(t[1..], s[1..]))
      || (s[0] == ' ' && |t| >= 3 && t[..3] == "\r\n " && Folds(t[3..], s[1..]))
  }

  lemma {:induction false} FoldsSame(a: string, t: string, s: string)
    requires Folds(t, s)
    ensures Folds(a + t, a + s)
  {
    if a == "" {
      assert a + t == t && a + s == s;
    } else {
      FoldsSame(a[1..], t, s);
      assert (a + t)[1..] == a[1..] + t && (a + s)[1..] == a[1..] + s;
    }
  }

  lemma FoldsBreak(t: string, s: string)
    requires Folds(t, s)
    ensures Folds("\r\n " + t, " " + s)
  {
    var u, v := "\r\n " + t, " " + s;
    assert u[..3] == "\r\n " && u[3..] == t && v[1..] == s;
  }

  lemma {:induction false} FoldsConcat(t: string, s: string, u: string, v: string)
    requires Folds(t, s) && Folds(u, v)
    ensures Folds(t + u, s + v)
    decreases |s|
  {
    if s == "" {
      assert t + u == u && s + v == v;
    } else {
      assert (s + v)[1..] == s[1..] + v;
      if t != "" && t[0] == s[0] && Folds(t[1..], s[1..]) {
        FoldsConcat(t[1..], s[1..], u, v);
        assert (t + u)[1..] == t[1..] + u;
      } else {
        FoldsConcat(t[3..], s[1..], u, v);
        assert (t + u)[3..] == t[3..] + u && (t + u)[..3] == t[..3];
      }
    }
  }

  /** What a cut leaves out is at most one space, where it breaks the line. */
  lemma CutShape(s: string, charsLeft: int) returns (i: nat)
    requires |s| > charsLeft
    ensures i <= |s|
    ensures var c := CutLine(s, charsLeft);
            || c == Cut(s[..i], s[i..])
            || (i < |s| && s[i] == ' ' && c == Cut(s[..i] + "\r\n ", s[i+1..]))
  {
    var newline := Index(s, '\n');
    if 0 <= newline < charsLeft {
      return newline + 1;
    }
    var space := if charsLeft <= 0 then -1 else LastIndex(s[..charsLeft], ' ');
    if space >= 0 {
      return space;
    }
    i := PastShape(s);
  }

  lemma PastShape(s: string) returns (i: nat)
    ensures i <= |s|
    ensures var c := CutPast(s);
            || c == Cut(s[..i], s[i..])
            || (i < |s| && s[i] == ' ' && c == Cut(s[..i] + "\r\n ", s[i+1..]))
  {
    i := if |s| <= REST then |s| else FirstBreak(s, REST);
    if i == |s| {
      assert s[..i] == s && s[i..] == "";
    } else if s[i] != ' ' {
      i := i + 1;
    }
  }

  /** Folding a value, with or without line breaks of its own, only replaces spaces. */
  lemma {:induction false} FoldKeeps(s: string, charsLeft: int)
    ensures Folds(Fold(s, charsLeft).text, s)
    decreases |s| + if charsLeft < 0 then 1 else 0
  {
    hide CutLine, Folds;
    if |s| > charsLeft {
      var i := CutShape(s, charsLeft);
      var cut := CutLine(s, charsLeft);
      FoldKeeps(cut.rest, REST);
      CutFolds(s, i, cut, Fold(cut.rest, REST).text);
    } else {
      FoldsItself(s);
    }
  }

  lemma CutFolds(s: string, i: nat, cut: Cut, more: string)
    requires i <= |s| && Folds(more, cut.rest)
    requires || cut == Cut(s[..i], s[i..])
             || (i < |s| && s[i] == ' ' && cut == Cut(s[..i] + "\r\n ", s[i+1..]))
    ensures Folds(cut.out + more, s)
  {
    hide Folds;
    if cut == Cut(s[..i], s[i..]) {
      FoldsSame(s[..i], more, s[i..]);
      assert s[..i] + s[i..] == s;
    } else {
      FoldsBreak(more, s[i+1..]);
      FoldsSame(s[..i], "\r\n " + more, " " + s[i+1..]);
      assert s[..i] + (" " + s[i+1..]) == s;
      assert s[..i] + "\r\n " + more == s[..i] + ("\r\n " + more);
    }
  }

  lemma FoldsItself(s: string)
    ensures Folds(s, s)
  {
    FoldsSame(s, "", "");
    assert s + "" == s;
  }

  /** What a separator stands for. */
  function Unfolded(charsLeft: int, first: bool): string {
    if !first then ", " else if charsLeft < 1 then " " else ""
  }

  lemma SeparatorFolds(charsLeft: int, first: bool)
    ensures Folds(Separator(charsLeft, first), Unfolded(charsLeft, first))
  {
    if charsLeft >= 1 {
      FoldsItself(Separator(charsLeft, first));
    } else {
      FoldsBreak("", "");
      assert "\r\n " + "" == "\r\n " && " " + "" == " ";
      if !first {
        FoldsSame(",", "\r\n ", " ");
        assert "," + "\r\n " == ",\r\n " && "," + " " == ", ";
      }
    }
  }

  lemma {:induction false} ValuesFold(v: seq<string>, charsLeft: int, first: bool)
    requires v != []
    ensures Folds(Values(v, charsLeft, first), Unfolded(charsLeft, first) + JoinComma(v))
    decreases v
  {
    hide Folds, Fold, Separator, Unfolded;
    var f := Fold(v[0], LeftAfter(charsLeft, first));
    var more := Values(v[1..], f.charsLeft, false);
    SeparatorFolds(charsLeft, first);
    FoldKeeps(v[0], LeftAfter(charsLeft, first));
    if |v| == 1 {
      assert f.text + more == f.text;
      FoldsConcat(Separator(charsLeft, first), Unfolded(charsLeft, first), f.text, v[0]);
    } else {
      ValuesFold(v[1..], f.charsLeft, false);
      NotFirst(f.charsLeft);
      FoldsConcat(f.text, v[0], more, ", " + JoinComma(v[1..]));
      FoldsConcat(Separator(charsLeft, first), Unfolded(charsLeft, first), f.text + more, JoinedMore(v));
      JoinMore(v);
    }
  }

  lemma NotFirst(charsLeft: int)
    ensures Unfolded(charsLeft, false) == ", "
  {
  }

  function JoinedMore(v: seq<string>): string
    requires |v| > 1
  {
    v[0] + (", " + JoinComma(v[1..]))
  }

  lemma JoinMore(v: seq<string>)
    requires |v| > 1
    ensures JoinedMore(v) == JoinComma(v)
  {
    assert v[0] + ", " + JoinComma(v[1..]) == v[0] + (", " + JoinComma(v[1..]));
  }

  /** A field on one line. */
  function FieldText(k: string, body: string): string {
    k + (": " + (body + "\r\n"))
  }

  /** Writing a field only replaces spaces by line breaks with a space, whatever its values contain; a
      name of more than 73 characters gets one space too many. */
  lemma HeaderFolds(k: string, v: seq<string>)
    requires v != []
    ensures Folds(Header(k, v), FieldText(k, Unfolded(LINE - |k| - 2, true) + JoinComma(v)))
  {
    hide Folds, Values, Header, FieldText, JoinComma, Unfolded;
    var left := LINE - |k| - 2;
    ValuesFold(v, left, true);
    FieldFolds(k, Values(v, left, true), Unfolded(left, true) + JoinComma(v));
    HeaderText(k, v);
  }

  lemma FieldFolds(k: string, t: string, s: string)
    requires Folds(t, s)
    ensures Folds(FieldText(k, t), FieldText(k, s))
  {
    hide Folds;
    var end := "\r\n";
    FoldsItself(end);
    FoldsConcat(t, s, end, end);
    FoldsSame(": ", t + end, s + end);
    FoldsSame(k, ": " + (t + end), ": " + (s + end));
  }

  lemma HeaderText(k: string, v: seq<string>)
    requires v != []
    ensures Header(k, v) == FieldText(k, Values(v, LINE - |k| - 2, true))
  {
    hide Values;
    var values := Values(v, LINE - |k| - 2, true);
    assert k + ": " + values + "\r\n" == k + (": " + (values + "\r\n"));
  }

  lemma UnfoldChar(c: char, t: string)
    requires c != '\r'
    ensures Unfold([c] + t) == [c] + Unfold(t)
  {
    assert ([c] + t)[1..] == t;
  }

  /** Unfolding gives back a text without line breaks, however it was folded. */
  lemma {:induction false} FoldsUnfold(t: string, s: string, end: string)
    requires Folds(t, s) && Clean(s)
    ensures Unfold(t + end) == s + Unfold(end)
    decreases |s|
  {
    hide Unfold;
    if s == "" {
      assert t + end == end;
    } else if t != "" && t[0] == s[0] && Folds(t[1..], s[1..]) {
      FoldsUnfold(t[1..], s[1..], end);
      assert t + end == [s[0]] + (t[1..] + end);
      UnfoldChar(s[0], t[1..] + end);
      assert [s[0]] + (s[1..] + Unfold(end)) == s + Unfold(end);
    } else {
      FoldsUnfold(t[3..], s[1..], end);
      assert t + end == "\r\n " + (t[3..] + end);
      UnfoldBreak(t[3..] + end);
      assert " " + (s[1..] + Unfold(end)) == s + Unfold(end);
    }
  }

  /** Folding is undone by unfolding exactly when the field name has at most 73 characters: a longer
      one is followed by an extra space. */
  lemma HeaderUnfolds(k: string, v: seq<string>)
    requires Clean(k) && v != [] && (forall i :: 0 <= i < |v| ==> Clean(v[i]))
    ensures Unfold(Header(k, v)) == FieldText(k, JoinComma(v)) <==> |k| <= 73
  {
    hide Unfold, JoinComma, Header, Clean, FieldText, Unfolded;
    HeaderUnfoldsTo(k, v);
    ExtraSpace(k, JoinComma(v), LINE - |k| - 2);
  }

  /** What unfolding gives, for every name. */
  lemma HeaderUnfoldsTo(k: string, v: seq<string>)
    requires Clean(k) && v != [] && (forall i :: 0 <= i < |v| ==> Clean(v[i]))
    ensures Unfold(Header(k, v)) == FieldText(k, Unfolded(LINE - |k| - 2, true) + JoinComma(v))
  {
    hide Unfold, Folds, Values, JoinComma, Header, Clean, Unfolded, FieldText;
    var left := LINE - |k| - 2;
    ValuesFold(v, left, true);
    JoinClean(v);
    LeadClean(left, JoinComma(v));
    HeaderText(k, v);
    FieldUnfolds(k, Values(v, left, true), Unfolded(left, true) + JoinComma(v));
  }

  lemma FieldUnfolds(k: string, t: string, s: string)
    requires Clean(k) && Clean(s) && Folds(t, s)
    ensures Unfold(FieldText(k, t)) == FieldText(k, s)
  {
    hide Unfold, Folds, Clean;
    var end := "\r\n";
    FoldsSame(": ", t, s);
    FoldsSame(k, ": " + t, ": " + s);
    NamedClean(k, s);
    FoldsUnfold(k + (": " + t), k + (": " + s), end);
    EndUnfolds();
    assert k + (": " + t) + end == k + (": " + (t + end));
    assert k + (": " + s) + end == k + (": " + (s + end));
  }

  lemma NamedClean(k: string, s: string)
    requires Clean(k) && Clean(s)
    ensures Clean(k + (": " + s))
  {
  }

  lemma LeadClean(left: int, s: string)
    requires Clean(s)
    ensures Clean(Unfolded(left, true) + s)
  {
  }

  lemma {:induction false} JoinClean(v: seq<string>)
    requires forall i :: 0 <= i < |v| ==> Clean(v[i])
    ensures Clean(JoinComma(v))
  {
    if |v| > 1 {
      JoinClean(v[1..]);
    }
  }

  lemma EndUnfolds()
    ensures Unfold("\r\n") == "\r\n"
  {
    assert "\r\n"[1..] == "\n" && "\n"[1..] == "";
    assert Unfold("\n") == "\n";
  }

  lemma ExtraSpace(k: string, joined: string, left: int)
    ensures FieldText(k, Unfolded(left, true) + joined) == FieldText(k, joined) <==> left >= 1
  {
    if left >= 1 {
      assert "" + joined == joined;
    } else {
      assert |FieldText(k, " " + joined)| == |FieldText(k, joined)| + 1;
    }
  }
}
