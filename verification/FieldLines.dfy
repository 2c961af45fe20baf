/**
  The lines of folded header fields: how long they are, and that no line is broken early.
 */
module FieldLines {
  import opened Folding

  // ---- where values are cut ------------------------------------------------------------------

  /** A clean string is cut at one of its spaces, or (i == |s|) not at all. */
  lemma CleanCut(s: string, charsLeft: int) returns (i: nat)
    requires Clean(s) && |s| > charsLeft
    ensures i <= |s|
    ensures CutLine(s, charsLeft) == if i == |s| then Cut(s, "") else Cut(s[..i] + "\r\n ", s[i+1..])
    ensures i < |s| ==> s[i] == ' '
    ensures if charsLeft > 0 && ' ' in s[..charsLeft] then i < charsLeft && ' ' !in s[i+1..charsLeft]
            else (i == |s| && |s| <= REST) || (i >= REST && ' ' !in s[REST..i])
  {
    hide CutPast, LastIndex, Index;
    assert Index(s, '\n') == -1;
    if charsLeft > 0 && LastIndex(s[..charsLeft], ' ') >= 0 {
      i := LastIndex(s[..charsLeft], ' ');
      assert s[..charsLeft][i] == s[i];
      assert forall j :: i < j < charsLeft ==> s[j] == s[..charsLeft][j];
    } else {
      i := CleanCutPast(s);
    }
  }

  lemma CleanCutPast(s: string) returns (i: nat)
    requires Clean(s)
    ensures i <= |s|
    ensures CutPast(s) == if i == |s| then Cut(s, "") else Cut(s[..i] + "\r\n ", s[i+1..])
    ensures i < |s| ==> s[i] == ' '
    ensures (i == |s| && |s| <= REST) || (i >= REST && ' ' !in s[REST..i])
  {
    hide FirstBreak;
    i := if |s| <= REST then |s| else FirstBreak(s, REST);
  }

  lemma FoldWhole(s: string, charsLeft: int, more: string)
    requires |s| > charsLeft && CutLine(s, charsLeft) == Cut(s, "")
    ensures Fold(s, charsLeft).text + more == s + more
  {
    hide CutLine;
    assert Fold("", REST).text == "";
    assert s + "" == s;
  }

  lemma FoldAt(s: string, charsLeft: int, i: nat, more: string)
    requires |s| > charsLeft && i < |s| && CutLine(s, charsLeft) == Cut(s[..i] + "\r\n ", s[i+1..])
    ensures Fold(s, charsLeft).text + more == s[..i] + "\r\n " + (Fold(s[i+1..], REST).text + more)
  {
    hide CutLine;
  }

  // ---- line length ---------------------------------------------------------------------------

  predicate Free(s: string, seps: set<char>) {
    forall i :: 0 <= i < |s| ==> s[i] !in seps
  }

  /** Every stretch of s without a separator has at most m characters. */
  ghost predicate AllShort(s: string, seps: set<char>, m: nat) {
    forall a, b | 0 <= a <= b <= |s| :: Free(s[a..b], seps) ==> b - a <= m
  }

  /** No line of a text is longer than 76 characters, not counting the CRLF. */
  ghost predicate LinesFit(text: string) {
    AllShort(text, {'\r', '\n'}, LINE)
  }

  lemma ShortFree(s: string, seps: set<char>, m: nat)
    requires Free(s, seps)
    ensures AllShort(s, seps, m) <==> |s| <= m
  {
    assert s[0..|s|] == s;
  }

  lemma NotFree(s: string, a: nat, b: nat, k: nat, seps: set<char>)
    requires a <= k < b <= |s| && s[k] in seps
    ensures !Free(s[a..b], seps)
  {
    assert s[a..b][k-a] == s[k];
  }

  lemma ShortSplit(x: string, c: char, y: string, seps: set<char>, m: nat)
    requires c in seps
    ensures AllShort(x + [c] + y, seps, m) <==> AllShort(x, seps, m) && AllShort(y, seps, m)
  {
    var s := x + [c] + y;
    var k := |x|;
    if AllShort(s, seps, m) {
      forall a, b | 0 <= a <= b <= |x| && Free(x[a..b], seps) ensures b - a <= m {
        assert s[a..b] == x[a..b];
      }
      forall a, b | 0 <= a <= b <= |y| && Free(y[a..b], seps) ensures b - a <= m {
        assert s[k+1+a..k+1+b] == y[a..b];
      }
    }
    if AllShort(x, seps, m) && AllShort(y, seps, m) {
      forall a, b | 0 <= a <= b <= |s| && Free(s[a..b], seps) ensures b - a <= m {
        if a <= k < b {
          NotFree(s, a, b, k, seps);
          assert false;
        }
        if b <= k {
          assert x[a..b] == s[a..b];
        } else {
          assert y[a-k-1..b-k-1] == s[a..b];
        }
      }
    }
  }

  /** A clean line followed by CRLF fits when it is short enough and what follows fits. */
  lemma LineSplit(line: string, more: string)
    requires Clean(line)
    ensures LinesFit(line + "\r\n" + more) <==> |line| <= LINE && LinesFit(more)
  {
    assert line + "\r\n" + more == line + ['\r'] + ("" + ['\n'] + more);
    ShortSplit(line, '\r', "" + ['\n'] + more, {'\r', '\n'}, LINE);
    ShortSplit("", '\n', more, {'\r', '\n'}, LINE);
    ShortFree(line, {'\r', '\n'}, LINE);
    ShortFree("", {'\r', '\n'}, LINE);
  }

  lemma LastLine(line: string)
    requires Clean(line)
    ensures LinesFit(line + "\r\n") <==> |line| <= LINE
  {
    assert line + "\r\n" == line + "\r\n" + "";
    LineSplit(line, "");
    ShortFree("", {'\r', '\n'}, LINE);
  }

  lemma TooLong(line: string, more: string)
    requires Clean(line) && |line| > LINE
    ensures !LinesFit(line + more)
  {
    assert (line + more)[0..|line|] == line;
  }

  /** A value fits where there is room for c more characters on the line: it fits there whole, or has a
      space early enough to break the line, and no run of more than 75 characters without a space. */
  ghost predicate Fits(s: string, c: int) {
    |s| <= c || (c > 0 && (c == REST || ' ' in s[..c]) && AllShort(s, {' '}, REST))
  }

  lemma FitsRest(s: string)
    ensures Fits(s, REST) <==> AllShort(s, {' '}, REST)
  {
    if |s| <= REST {
      ShortWhole(s);
    }
  }

  lemma ShortWhole(s: string)
    requires |s| <= REST
    ensures AllShort(s, {' '}, REST)
  {
  }

  lemma NoSpaceBefore(s: string, c: nat, i: nat)
    requires c <= i <= |s| && ' ' !in s[..c] && ' ' !in s[c..i]
    ensures Free(s[..i], {' '})
  {
    assert s[..i] == s[..c] + s[c..i];
  }

  /** What is written after a line with room c: the lines fit exactly when the value fits and what
      follows fits behind the last line, on which exactly the room that folding reports is left. */
  lemma {:induction false} FoldFits(line: string, s: string, c: int, more: string) returns (last: string)
    requires Clean(line) && Clean(s) && |line| + c == LINE && c <= REST
    ensures LinesFit(line + Fold(s, c).text + more) <==> Fits(s, c) && LinesFit(last + more)
    ensures Fits(s, c) ==> Clean(last) && |last| + Fold(s, c).charsLeft == LINE
    decreases |s| + if c < 0 then 1 else 0
  {
    hide LinesFit, AllShort, CutLine;
    last := line + s;
    if |s| > c {
      var i := CleanCut(s, c);
      if i == |s| {
        NotWhole(s, c);
        FoldWhole(s, c, more);
        assert line + (s + more) == line + s + more;
        assert line + (Fold(s, c).text + more) == line + Fold(s, c).text + more;
        TooLong(line + s, more);
      } else {
        var rest := s[i+1..];
        last := FoldFits(" ", rest, REST, more);
        FoldAt(s, c, i, more);
        BrokenText(line, s[..i], Fold(rest, REST).text, more, Fold(s, c).text);
        LineSplit(line + s[..i], " " + Fold(rest, REST).text + more);
        FitsRest(rest);
        FitsBroken(s, c, i);
        RoomAt(s, c, i);
      }
    }
  }

  lemma RoomAt(s: string, c: int, i: nat)
    requires |s| > c && i < |s| && CutLine(s, c) == Cut(s[..i] + "\r\n ", s[i+1..])
    ensures Fold(s, c).charsLeft == Fold(s[i+1..], REST).charsLeft
  {
    hide CutLine;
  }

  lemma BrokenText(line: string, a: string, rest: string, more: string, folded: string)
    requires folded + more == a + "\r\n " + (rest + more)
    ensures line + folded + more == line + a + "\r\n" + (" " + rest + more)
  {
    assert line + (folded + more) == line + folded + more;
    assert line + (a + "\r\n " + (rest + more)) == line + a + "\r\n" + (" " + rest + more);
  }

  /** A value that is too long and cannot be cut does not fit. */
  lemma NotWhole(s: string, c: int)
    requires |s| > c && c <= REST
    requires !(c > 0 && ' ' in s[..c])
    requires |s| <= REST || ' ' !in s[REST..|s|]
    ensures !Fits(s, c)
  {
    hide AllShort;
    if c == REST {
      NoSpaceBefore(s, REST, |s|);
      assert s[..|s|] == s;
      ShortFree(s, {' '}, REST);
    }
  }

  /** A value that is cut fits exactly when the line is not too long and the rest fits. */
  lemma FitsBroken(s: string, c: int, i: nat)
    requires |s| > c && c <= REST && i < |s| && s[i] == ' '
    requires if c > 0 && ' ' in s[..c] then i < c else i >= REST && ' ' !in s[REST..i]
    ensures Fits(s, c) <==> i <= c && AllShort(s[i+1..], {' '}, REST)
  {
    hide AllShort;
    assert s == s[..i] + [' '] + s[i+1..];
    ShortSplit(s[..i], ' ', s[i+1..], {' '}, REST);
    if i <= REST {
      ShortWhole(s[..i]);
    } else if c == REST {
      NoSpaceBefore(s, REST, i);
      ShortFree(s[..i], {' '}, REST);
    }
  }

  // ---- fields with any number of values --------------------------------------------------------

  /** Every value, with what separates it from the one before, fits into the room the earlier ones leave:
      after the first, a comma and a space must fit too; a name of 74 characters stands alone. */
  ghost predicate AllFit(v: seq<string>, left: int, first: bool)
    decreases |v|
  {
    if v == [] then left >= 0
    else
      && left >= (if first then 0 else 2)
      && Fits(v[0], LeftAfter(left, first))
      && AllFit(v[1..], Fold(v[0], LeftAfter(left, first)).charsLeft, false)
  }

  lemma {:induction false} RoomLeft(s: string, c: int)
    requires Clean(s)
    ensures 0 <= Fold(s, c).charsLeft <= if c > REST then c else REST
    decreases |s| + if c < 0 then 1 else 0
  {
    hide CutLine;
    if |s| > c {
      var i := CleanCut(s, c);
      RoomLeft(CutLine(s, c).rest, REST);
    }
  }

  lemma {:induction false} ValuesFit(line: string, v: seq<string>, left: int, first: bool)
    requires Clean(line) && |line| + left == LINE && left <= REST
    requires forall i :: 0 <= i < |v| ==> Clean(v[i])
    ensures LinesFit(line + Values(v, left, first) + "\r\n") <==> AllFit(v, left, first)
    decreases |v|
  {
    hide LinesFit, Fits, Fold;
    if v == [] {
      assert line + Values(v, left, first) == line;
      LastLine(line);
    } else {
      var c := LeftAfter(left, first);
      var more := Values(v[1..], Fold(v[0], c).charsLeft, false) + "\r\n";
      var start := if left < 1 then " " else if first then line else line + ", ";
      assert Clean(start) && |start| + c == LINE;
      ValuesText(line, v, left, first, more);
      var last := FoldFits(start, v[0], c, more);
      RoomLeft(v[0], c);
      if Fits(v[0], c) {
        ValuesFit(last, v[1..], Fold(v[0], c).charsLeft, false);
        assert last + more == last + Values(v[1..], Fold(v[0], c).charsLeft, false) + "\r\n";
      }
      SeparatorFits(line, left, first, Fold(v[0], c).text + more, start);
      assert start + (Fold(v[0], c).text + more) == start + Fold(v[0], c).text + more;
    }
  }

  /** The text around the first value. */
  lemma ValuesText(line: string, v: seq<string>, left: int, first: bool, more: string)
    requires v != []
    requires more == Values(v[1..], Fold(v[0], LeftAfter(left, first)).charsLeft, false) + "\r\n"
    ensures line + Values(v, left, first) + "\r\n" ==
            line + (Separator(left, first) + (Fold(v[0], LeftAfter(left, first)).text + more))
  {
    hide Fold, Separator;
  }

  lemma SeparatorFits(line: string, left: int, first: bool, rest: string, start: string)
    requires Clean(line) && |line| + left == LINE
    requires start == if left < 1 then " " else if first then line else line + ", "
    ensures LinesFit(line + (Separator(left, first) + rest)) <==>
            left >= (if first then 0 else 2) && LinesFit(start + rest)
  {
    hide LinesFit;
    if left < 1 {
      var comma := if first then "" else ",";
      assert line + (Separator(left, first) + rest) == line + comma + "\r\n" + (start + rest);
      LineSplit(line + comma, start + rest);
    } else {
      assert line + (Separator(left, first) + rest) == start + rest;
      if left == 1 && !first {
        TooLong(start, rest);
      }
    }
  }

  /** Line length of a field, exactly, for any number of values. */
  lemma FieldLinesFit(k: string, v: seq<string>)
    requires Clean(k) && v != [] && (forall i :: 0 <= i < |v| ==> Clean(v[i]))
    ensures LinesFit(Header(k, v)) <==> AllFit(v, 74 - |k|, true)
  {
    hide LinesFit, Values, AllFit;
    ValuesFit(k + ": ", v, 74 - |k|, true);
  }

  /** Line length of a field with one value.  With a name of at most 73 characters every line fits just
      when the value fits after the name, or has a space early enough to break the first line and no
      run of more than 75 characters without a space.  A name of 74 characters is alone on the first
      line; a longer one never fits. */
  lemma HeaderLinesFit(k: string, s: string)
    requires Clean(k) && Clean(s)
    ensures LinesFit(Header(k, [s])) <==>
            if |k| <= 73 then
              |s| <= 74 - |k| || (' ' in s[..74 - |k|] && AllShort(s, {' '}, REST))
            else |k| == 74 && AllShort(s, {' '}, REST)
  {
    hide LinesFit, AllShort, Fold, Header;
    FieldLinesFit(k, [s]);
    RoomLeft(s, LeftAfter(74 - |k|, true));
    FitsRest(s);
    assert [s][1..] == [];
  }

  // ---- no line is broken early -------------------------------------------------------------------

  /** The length of the word a text starts with. */
  function WordLen(t: string): nat {
    if t == "" || t[0] == ' ' || t[0] == '\r' then 0 else 1 + WordLen(t[1..])
  }

  /** Each line that is broken would have had 76 characters or more with the next word: `used` are taken
      on the first line before t. */
  ghost predicate LateBreaks(t: string, used: int)
    decreases |t|
  {
    var n := Index(t, '\r');
    n < 0 ||
    (n + 3 <= |t| && used + n + 1 + WordLen(t[n+3..]) >= LINE && LateBreaks(t[n+3..], 1))
  }

  lemma {:induction false} IndexAfter(a: string, t: string)
    requires Clean(a)
    ensures Index(a + t, '\r') == if Index(t, '\r') < 0 then -1 else |a| + Index(t, '\r')
  {
    if a == "" {
      assert a + t == t;
    } else {
      assert (a + t)[1..] == a[1..] + t;
      IndexAfter(a[1..], t);
    }
  }

  lemma LateAfter(a: string, t: string, used: int)
    requires Clean(a)
    ensures LateBreaks(a + t, used) <==> LateBreaks(t, used + |a|)
  {
    IndexAfter(a, t);
    var n := Index(t, '\r');
    if n >= 0 && n + 3 <= |t| {
      assert (a + t)[|a| + n + 3..] == t[n+3..];
    }
  }

  lemma LateBreak(t: string, used: int)
    requires used + 1 + WordLen(t) >= LINE && LateBreaks(t, 1)
    ensures LateBreaks("\r\n " + t, used)
  {
    assert ("\r\n " + t)[3..] == t;
  }

  lemma {:induction false} WordAtLeast(t: string, m: nat)
    requires m <= |t| && Clean(t[..m]) && ' ' !in t[..m]
    ensures WordLen(t) >= m
  {
    if m > 0 {
      assert t[0] == t[..m][0];
      assert t[1..][..m-1] == t[..m][1..];
      WordAtLeast(t[1..], m - 1);
    }
  }

  /** A folded text starts with the word it was folded from. */
  lemma {:induction false} FoldsWord(t: string, s: string, more: string)
    requires Folds(t, s) && Clean(s)
    ensures WordLen(t + more) >= WordLen(s)
    decreases |s|
  {
    if s != "" && s[0] != ' ' {
      FoldsWord(t[1..], s[1..], more);
      assert (t + more)[1..] == t[1..] + more;
    }
  }

  lemma {:induction false} FoldLate(s: string, c: int, used: int, more: string)
    requires Clean(s) && used + c >= LINE && c <= REST
    requires forall u :: u + Fold(s, c).charsLeft >= LINE ==> LateBreaks(more, u)
    ensures LateBreaks(Fold(s, c).text + more, used)
    decreases |s| + if c < 0 then 1 else 0
  {
    hide LateBreaks, CutLine, Folds;
    if |s| <= c {
      LateAfter(s, more, used);
    } else {
      var i := CleanCut(s, c);
      if i == |s| {
        FoldWhole(s, c, more);
        RoomWhole(s, c);
        LateAfter(s, more, used);
      } else {
        var rest := s[i+1..];
        var t := Fold(rest, REST).text + more;
        RoomAt(s, c, i);
        FoldLate(rest, REST, 1, more);
        FoldKeeps(rest, REST);
        FoldsWord(Fold(rest, REST).text, rest, more);
        NextWordLong(s, c, i);
        LateBreak(t, used + i);
        LateAfter(s[..i], "\r\n " + t, used);
        FoldAt(s, c, i, more);
        assert s[..i] + "\r\n " + t == s[..i] + ("\r\n " + t);
      }
    }
  }

  lemma RoomWhole(s: string, c: int)
    requires |s| > c && CutLine(s, c) == Cut(s, "")
    ensures Fold(s, c).charsLeft == REST
  {
    hide CutLine;
    assert Fold("", REST) == Folded("", REST);
  }

  lemma NextWordLong(s: string, c: int, i: nat)
    requires Clean(s) && |s| > c && c <= REST && i < |s|
    requires if c > 0 && ' ' in s[..c] then i < c && ' ' !in s[i+1..c] else i >= REST
    ensures i + 1 + WordLen(s[i+1..]) >= c
  {
    if i < c {
      assert s[i+1..][..c-i-1] == s[i+1..c];
      WordAtLeast(s[i+1..], c - i - 1);
    }
  }

  lemma {:induction false} ValuesLate(v: seq<string>, left: int, first: bool, used: int)
    requires (forall i :: 0 <= i < |v| ==> Clean(v[i])) && used + left >= LINE && left <= REST
    ensures LateBreaks(Values(v, left, first), used)
    decreases |v|
  {
    hide LateBreaks, Fold;
    if v == [] {
      NoBreaks(used);
    } else {
      var c := LeftAfter(left, first);
      var room := Fold(v[0], c).charsLeft;
      var more := Values(v[1..], room, false);
      RoomLeft(v[0], c);
      forall u | u + room >= LINE ensures LateBreaks(more, u) {
        ValuesLate(v[1..], room, false, u);
      }
      var t := Fold(v[0], c).text + more;
      if left < 1 {
        FoldLate(v[0], c, 1, more);
        var comma := if first then "" else ",";
        LateBreak(t, used + |comma|);
        LateAfter(comma, "\r\n " + t, used);
        assert Separator(left, first) + t == comma + ("\r\n " + t);
      } else {
        FoldLate(v[0], c, used + |Separator(left, first)|, more);
        LateAfter(Separator(left, first), t, used);
      }
    }
  }

  lemma NoBreaks(used: int)
    ensures LateBreaks("", used)
  {
  }

  /** No line of a field is broken although the next word would have fitted. */
  lemma FieldBreaksLate(k: string, v: seq<string>)
    requires Clean(k) && v != [] && (forall i :: 0 <= i < |v| ==> Clean(v[i]))
    ensures var body := Values(v, 74 - |k|, true);
            Header(k, v) == FieldText(k, body) && LateBreaks(body, |k| + 2)
  {
    hide Values, LateBreaks, Header, FieldText, Clean;
    HeaderText(k, v);
    ValuesLate(v, 74 - |k|, true, |k| + 2);
  }
}
