/**
  base64LineWriter: breaks base64 text into lines of 76 characters (RFC 2045, section 6.8), however
  its input is cut into writes.
 */
module LineWriter {

  const MAX_LINE := 76

  /** The input broken into lines: a break is written only when more text follows a full line. */
  function Wrap(x: string): string {
    if |x| <= MAX_LINE then x else x[..MAX_LINE] + "\r\n" + Wrap(x[MAX_LINE..])
  }

  function LastLen(x: string): (n: nat)
    ensures n <= MAX_LINE
  {
    if |x| <= MAX_LINE then |x| else LastLen(x[MAX_LINE..])
  }

  /** What one write adds when lineLen characters are already on the line. */
  function Added(lineLen: nat, p: string): string
    requires lineLen <= MAX_LINE
    decreases |p| + lineLen
  {
    var room := MAX_LINE - lineLen;
    if |p| <= room then p else p[..room] + "\r\n" + Added(0, p[room..])
  }

  function LenAfter(lineLen: nat, p: string): (n: nat)
    requires lineLen <= MAX_LINE
    ensures n <= MAX_LINE
    decreases |p| + lineLen
  {
    var room := MAX_LINE - lineLen;
    if |p| <= room then lineLen + |p| else LenAfter(0, p[room..])
  }

  class Base64LineWriter {
    /** The text passed on to the underlying writer, which is assumed not to fail. */
    var out: string
    var lineLen: nat

    constructor ()
      ensures out == "" && lineLen == 0
    {
      out, lineLen := "", 0;
    }

    method Write(p0: string) returns (n: nat)
      requires lineLen <= MAX_LINE
      modifies this
      ensures n == |p0|
      ensures out == old(out) + Added(old(lineLen), p0)
      ensures lineLen == LenAfter(old(lineLen), p0) <= MAX_LINE
    {
      hide Added, LenAfter;
      n := 0;
      var p := p0;
      ghost var text := "";
      assert "" + Added(lineLen, p) == Added(lineLen, p);
      while |p| + lineLen > MAX_LINE
        invariant lineLen <= MAX_LINE && n + |p| == |p0|
        invariant out == old(out) + text
        invariant Added(old(lineLen), p0) == text + Added(lineLen, p)
        invariant LenAfter(old(lineLen), p0) == LenAfter(lineLen, p)
        decreases |p| + lineLen
      {
        var room := MAX_LINE - lineLen;
        AddedStep(text, lineLen, p);
        out := out + p[..room];
        out := out + "\r\n";
        Regroup(old(out), text, p[..room], "\r\n");
        text := text + p[..room] + "\r\n";
        p := p[room..];
        n := n + room;
        lineLen := 0;
      }
      AddedEnd(lineLen, p);
      Regroup(old(out), text, p, "");
      out := out + p;
      lineLen := lineLen + |p|;
      return n + |p|;
    }
  }

  lemma Regroup(a: string, b: string, c: string, d: string)
    ensures a + b + c + d == a + (b + c + d) && a + b + c == a + (b + c)
  {
  }

  lemma AddedEnd(lineLen: nat, p: string)
    requires lineLen <= MAX_LINE && |p| + lineLen <= MAX_LINE
    ensures Added(lineLen, p) == p && LenAfter(lineLen, p) == lineLen + |p|
  {
  }

  lemma AddedStep(text: string, lineLen: nat, p: string)
    requires lineLen <= MAX_LINE < |p| + lineLen
    ensures var room := MAX_LINE - lineLen;
            && text + Added(lineLen, p) == text + p[..room] + "\r\n" + Added(0, p[room..])
            && LenAfter(lineLen, p) == LenAfter(0, p[room..])
  {
  }

  // ---- chunks do not matter ------------------------------------------------------------------

  function Concat(chunks: seq<string>): string {
    if chunks == [] then "" else Concat(chunks[..|chunks|-1]) + chunks[|chunks|-1]
  }

  datatype State = State(out: string, lineLen: nat)

  /** The writer after a sequence of writes, by the contract of Write. */
  function AfterWrites(chunks: seq<string>): (s: State)
    ensures s.lineLen <= MAX_LINE
  {
    if chunks == [] then State("", 0)
    else
      var s, p := AfterWrites(chunks[..|chunks|-1]), chunks[|chunks|-1];
      State(s.out + Added(s.lineLen, p), LenAfter(s.lineLen, p))
  }

  lemma {:induction false} AddedFromStart(p: string)
    ensures Added(0, p) == Wrap(p) && LenAfter(0, p) == LastLen(p)
    decreases |p|
  {
    if |p| > MAX_LINE {
      AddedFromStart(p[MAX_LINE..]);
    }
  }

  lemma {:induction false} WrapAppend(x: string, p: string)
    ensures Wrap(x + p) == Wrap(x) + Added(LastLen(x), p)
    ensures LastLen(x + p) == LenAfter(LastLen(x), p)
    decreases |x|
  {
    if |x| > MAX_LINE {
      assert (x + p)[..MAX_LINE] == x[..MAX_LINE] && (x + p)[MAX_LINE..] == x[MAX_LINE..] + p;
      WrapAppend(x[MAX_LINE..], p);
      Regroup(x[..MAX_LINE] + "\r\n", Wrap(x[MAX_LINE..]), Added(LastLen(x), p), "");
    } else if |x + p| > MAX_LINE {
      var room := MAX_LINE - |x|;
      assert (x + p)[..MAX_LINE] == x + p[..room] && (x + p)[MAX_LINE..] == p[room..];
      AddedFromStart(p[room..]);
      assert x + p[..room] + "\r\n" + Wrap(p[room..]) == x + (p[..room] + "\r\n" + Wrap(p[room..]));
    }
  }

  /** Whatever the chunks, the output and the line position depend only on their concatenation. */
  lemma {:induction false} ChunksDoNotMatter(chunks: seq<string>)
    ensures AfterWrites(chunks) == State(Wrap(Concat(chunks)), LastLen(Concat(chunks)))
  {
    if chunks != [] {
      var before := chunks[..|chunks|-1];
      ChunksDoNotMatter(before);
      WrapAppend(Concat(before), chunks[|chunks|-1]);
    }
  }

  lemma AfterWritesStep(chunks: seq<string>, i: nat)
    requires i < |chunks|
    ensures var s, p := AfterWrites(chunks[..i]), chunks[i];
            AfterWrites(chunks[..i+1]) == State(s.out + Added(s.lineLen, p), LenAfter(s.lineLen, p))
  {
    assert chunks[..i+1][..i] == chunks[..i];
  }

  /** What the base64 encoder does with a new line writer: however it cuts its output into writes, the
      text is the whole output broken into lines. */
  method WriteChunks(chunks: seq<string>) returns (w: Base64LineWriter)
    ensures fresh(w) && w.out == Wrap(Concat(chunks)) && w.lineLen == LastLen(Concat(chunks))
  {
    hide Added, LenAfter, AfterWrites;
    w := new Base64LineWriter();
    NoWrites();
    assert chunks[..0] == [];
    for i := 0 to |chunks|
      invariant fresh(w) && State(w.out, w.lineLen) == AfterWrites(chunks[..i])
    {
      AfterWritesStep(chunks, i);
      var _ := w.Write(chunks[i]);
    }
    assert chunks[..|chunks|] == chunks;
    ChunksDoNotMatter(chunks);
  }

  lemma NoWrites()
    ensures AfterWrites([]) == State("", 0)
  {
  }

  // ---- the lines -----------------------------------------------------------------------------

  function Lines(x: string): (l: seq<string>)
    ensures l != []
  {
    if |x| <= MAX_LINE then [x] else [x[..MAX_LINE]] + Lines(x[MAX_LINE..])
  }

  function JoinLines(l: seq<string>): string {
    if l == [] then "" else if |l| == 1 then l[0] else l[0] + "\r\n" + JoinLines(l[1..])
  }

  /** The lines hold the input in order; every line but the last has exactly 76 characters, and the
      last is empty only for empty input. */
  lemma {:induction false} LinesAreFull(x: string)
    ensures var l := Lines(x);
            && Wrap(x) == JoinLines(l)
            && Concat(l) == x
            && (forall i :: 0 <= i < |l| - 1 ==> |l[i]| == MAX_LINE)
            && |l[|l|-1]| <= MAX_LINE && (x != "" ==> l[|l|-1] != "")
    decreases |x|
  {
    var l := Lines(x);
    if |x| <= MAX_LINE {
      assert l[..0] == [] && "" + x == x;
    } else {
      var more := Lines(x[MAX_LINE..]);
      LinesAreFull(x[MAX_LINE..]);
      hide Lines, Concat, LastLen;
      assert l == [x[..MAX_LINE]] + more && l[1..] == more;
      ConcatCons(x[..MAX_LINE], more);
    }
  }

  lemma {:induction false} ConcatCons(first: string, l: seq<string>)
    ensures Concat([first] + l) == first + Concat(l)
  {
    var all := [first] + l;
    if l == [] {
      assert all[..0] == [];
    } else {
      assert all[..|all|-1] == [first] + l[..|l|-1];
      ConcatCons(first, l[..|l|-1]);
    }
  }

  /** Removing CR and LF. */
  function Strip(s: string): string {
    if s == "" then ""
    else (if s[0] == '\r' || s[0] == '\n' then "" else [s[0]]) + Strip(s[1..])
  }

  lemma {:induction false} StripConcat(a: string, b: string)
    ensures Strip(a + b) == Strip(a) + Strip(b)
  {
    if a == "" {
      assert a + b == b;
    } else {
      assert (a + b)[1..] == a[1..] + b;
      StripConcat(a[1..], b);
    }
  }

  lemma {:induction false} StripClean(s: string)
    requires forall i :: 0 <= i < |s| ==> s[i] != '\r' && s[i] != '\n'
    ensures Strip(s) == s
  {
    if s != "" {
      StripClean(s[1..]);
    }
  }

  /** Removing the line breaks gives back the input. */
  lemma {:induction false} WrapStrips(x: string)
    requires forall i :: 0 <= i < |x| ==> x[i] != '\r' && x[i] != '\n'
    ensures Strip(Wrap(x)) == x
    decreases |x|
  {
    if |x| <= MAX_LINE {
      StripClean(x);
    } else {
      var line, rest := x[..MAX_LINE], x[MAX_LINE..];
      StripConcat(line + "\r\n", Wrap(rest));
      StripConcat(line, "\r\n");
      StripClean(line);
      WrapStrips(rest);
      assert "\r\n"[1..] == "\n" && Strip("\n") == "";
    }
  }
}
