/**
  The MIME structure of a message: which multipart layers writeMessage opens and closes.  The output
  is a sequence of events; boundaries are numbered in the order their writers are made.
 */
module Mime {
  import opened Wrappers

  type Head = map<string, string>

  datatype Encoding = Base64 | QuotedPrintable | Unencoded

  /** The header of an entity: its own fields, or a multipart type with the boundary of its parts. */
  datatype Heading = Entity(head: Head) | Multipart(kind: string, boundary: nat)

  /** What reaches the output.  Top is a header written directly, at depth 0; Part is a delimiter of the
      given boundary with the header of the part; Close is its closing delimiter. */
  datatype Event =
    | MessageHead
    | Top(heading: Heading)
    | Blank
    | Part(boundary: nat, heading: Heading)
    | Body(content: string, encoding: Encoding)
    | Close(boundary: nat)

  datatype TextPart = TextPart(contentType: string, content: string, encoding: Encoding)

  datatype File = File(name: string, header: Head, content: string)

  datatype Attachment =
    Attachment(filename: string, contentType: string, contentID: string, inlined: bool, content: string)

  // ---- the message -----------------------------------------------------------------------------

  function NewFile(att: Attachment): File {
    var h := if att.contentType != "" then map["Content-Type" := att.contentType] else map[];
    File(att.filename, if att.contentID != "" then h["Content-ID" := "<" + att.contentID + ">"] else h, att.content)
  }

  /** The files for the attachments that are, or are not, inlined, in order. */
  function FilesOf(atts: seq<Attachment>, inlined: bool): seq<File> {
    if atts == [] then []
    else
      var last := atts[|atts|-1];
      FilesOf(atts[..|atts|-1], inlined) + if last.inlined == inlined then [NewFile(last)] else []
  }

  /** The bodies of a message: HTML first, then plain text, each only if it is there. */
  function BodyParts(html: string, text: string, encoding: Encoding): seq<TextPart> {
    (if html != "" then [TextPart("text/html", html, encoding)] else []) +
    (if text != "" then [TextPart("text/plain", text, encoding)] else [])
  }

  class Message {
    const charset: string
    const encoding: Encoding
    var parts: seq<TextPart>
    var attachments: seq<File>
    var embedded: seq<File>

    constructor ()
      ensures parts == [] && attachments == [] && embedded == []
      ensures charset == "UTF-8" && encoding == QuotedPrintable
    {
      charset, encoding := "UTF-8", QuotedPrintable;
      parts, attachments, embedded := [], [], [];
    }

    function Parts(): Contents
      reads this
    {
      Contents(parts, embedded, attachments, charset)
    }

    method SetBody(contentType: string, body: string)
      modifies this`parts
      ensures parts == [TextPart(contentType, body, encoding)]
    {
      parts := [TextPart(contentType, body, encoding)];
    }

    method AddAlternative(contentType: string, body: string)
      modifies this`parts
      ensures parts == old(parts) + [TextPart(contentType, body, encoding)]
    {
      parts := parts + [TextPart(contentType, body, encoding)];
    }

    /** The part of prepare that fills the lists of a fresh message. */
    method Prepare(htmlBody: string, textBody: string, atts: seq<Attachment>)
      requires parts == [] && attachments == [] && embedded == []
      modifies this
      ensures parts == BodyParts(htmlBody, textBody, encoding)
      ensures embedded == FilesOf(atts, true) && attachments == FilesOf(atts, false)
    {
      if htmlBody != "" {
        SetBody("text/html", htmlBody);
      }
      if htmlBody != "" && textBody != "" {
        AddAlternative("text/plain", textBody);
      } else if textBody != "" {
        SetBody("text/plain", textBody);
      }
      for i := 0 to |atts|
        invariant parts == BodyParts(htmlBody, textBody, encoding)
        invariant embedded == FilesOf(atts[..i], true) && attachments == FilesOf(atts[..i], false)
      {
        assert atts[..i+1][..i] == atts[..i];
        if atts[i].inlined {
          embedded := embedded + [NewFile(atts[i])];
        } else {
          attachments := attachments + [NewFile(atts[i])];
        }
      }
      assert atts[..|atts|] == atts;
    }
  }

  // ---- the tree a message stands for -----------------------------------------------------------

  datatype Contents = Contents(parts: seq<TextPart>, embedded: seq<File>, attachments: seq<File>, charset: string)

  datatype Tree =
    | Leaf(head: Head, content: string, encoding: Encoding)
    | Node(kind: string, boundary: nat, children: seq<Tree>)

  predicate HasMixed(m: Contents) {
    (|m.parts| > 0 && |m.attachments| > 0) || |m.attachments| > 1
  }

  predicate HasRelated(m: Contents) {
    (|m.parts| > 0 && |m.embedded| > 0) || |m.embedded| > 1
  }

  predicate HasAlternative(m: Contents) {
    |m.parts| > 1
  }

  function EncodingName(e: Encoding): string {
    match e
    case Base64 => "base64"
    case QuotedPrintable => "quoted-printable"
    case Unencoded => "8bit"
  }

  function PartHead(p: TextPart, charset: string): Head {
    map["Content-Type" := p.contentType + "; charset=" + charset,
        "Content-Transfer-Encoding" := EncodingName(p.encoding)]
  }

  /** Sets a field that is missing. */
  function Default(h: Head, field: string, value: string): Head {
    if field in h then h else h[field := value]
  }

  /** The fields addFiles fills in.  `typeOf` gives the media type of a file name, never empty. */
  function FilledHead(f: File, isAttachment: bool, typeOf: string -> string): Head {
    var h1 := Default(f.header, "Content-Type", typeOf(f.name) + "; name=\"" + f.name + "\"");
    var h2 := Default(h1, "Content-Transfer-Encoding", EncodingName(Base64));
    var disposition := if isAttachment then "attachment" else "inline";
    var h3 := Default(h2, "Content-Disposition", disposition + "; filename=\"" + f.name + "\"");
    if isAttachment then h3 else Default(h3, "Content-ID", "<" + f.name + ">")
  }

  function PartLeaves(parts: seq<TextPart>, charset: string): seq<Tree> {
    if parts == [] then []
    else
      var p := parts[|parts|-1];
      PartLeaves(parts[..|parts|-1], charset) + [Leaf(PartHead(p, charset), p.content, p.encoding)]
  }

  function Filled(files: seq<File>, isAttachment: bool, typeOf: string -> string): seq<File> {
    if files == [] then []
    else
      var f := files[|files|-1];
      Filled(files[..|files|-1], isAttachment, typeOf) + [f.(header := FilledHead(f, isAttachment, typeOf))]
  }

  function FileLeaves(files: seq<File>, isAttachment: bool, typeOf: string -> string): seq<Tree> {
    if files == [] then []
    else
      var f := files[|files|-1];
      FileLeaves(files[..|files|-1], isAttachment, typeOf) +
      [Leaf(FilledHead(f, isAttachment, typeOf), f.content, Base64)]
  }

  /** Wraps trees in a multipart layer when it is wanted. */
  function Layer(wanted: bool, kind: string, boundary: nat, trees: seq<Tree>): seq<Tree> {
    if wanted then [Node(kind, boundary, trees)] else trees
  }

  function Alternatives(m: Contents, b: nat): seq<Tree> {
    Layer(HasAlternative(m), "alternative", b, PartLeaves(m.parts, m.charset))
  }

  function Related(m: Contents, b: nat, typeOf: string -> string): seq<Tree> {
    Layer(HasRelated(m), "related", b,
          Alternatives(m, if HasRelated(m) then b + 1 else b) + FileLeaves(m.embedded, false, typeOf))
  }

  /** mixed(related(alternative(parts), embedded), attachments), layers only where wanted; `b` numbers
      the first boundary. */
  function Forest(m: Contents, b: nat, typeOf: string -> string): seq<Tree> {
    Layer(HasMixed(m), "mixed", b,
          Related(m, if HasMixed(m) then b + 1 else b, typeOf) + FileLeaves(m.attachments, true, typeOf))
  }

  /** How many boundaries the layers use. */
  function Layers(m: Contents): nat {
    (if HasMixed(m) then 1 else 0) + (if HasRelated(m) then 1 else 0) + (if HasAlternative(m) then 1 else 0)
  }

  // ---- serialising trees -----------------------------------------------------------------------

  /** A header where it belongs: directly, or as a part of the enclosing boundary. */
  function Headline(heading: Heading, at: Option<nat>): seq<Event> {
    if at.None? then [Top(heading), Blank] else [Part(at.value, heading)]
  }

  function Serialise(t: Tree, at: Option<nat>): seq<Event>
    decreases t, 0
  {
    match t
    case Leaf(head, content, encoding) => Headline(Entity(head), at) + [Body(content, encoding)]
    case Node(kind, boundary, children) =>
      Headline(Multipart(kind, boundary), at) + (SerialiseAll(children, Some(boundary)) + [Close(boundary)])
  }

  function SerialiseAll(ts: seq<Tree>, at: Option<nat>): seq<Event>
    decreases ts, 1
  {
    if ts == [] then [] else Serialise(ts[0], at) + SerialiseAll(ts[1..], at)
  }

  lemma {:induction false} SerialiseConcat(a: seq<Tree>, b: seq<Tree>, at: Option<nat>)
    ensures SerialiseAll(a + b, at) == SerialiseAll(a, at) + SerialiseAll(b, at)
  {
    if a == [] {
      assert a + b == b;
    } else {
      assert (a + b)[1..] == a[1..] + b;
      SerialiseConcat(a[1..], b, at);
    }
  }

  lemma SerialiseOne(t: Tree, at: Option<nat>)
    ensures SerialiseAll([t], at) == Serialise(t, at)
  {
    assert [t][1..] == [];
  }

  // ---- the writer ------------------------------------------------------------------------------

  /** The structural state of messageWriter: the open multipart writers, at most three deep. */
  class MessageWriter {
    var out: seq<Event>
    const writers: array<nat>
    var depth: nat
    var made: nat
    const typeOf: string -> string

    constructor (typeOf: string -> string)
      ensures out == [] && depth == 0 && made == 0 && writers.Length == 3 && fresh(writers)
      ensures this.typeOf == typeOf
    {
      out, depth, made := [], 0, 0;
      writers := new nat[3];
      this.typeOf := typeOf;
    }

    predicate Valid()
      reads this
    {
      writers.Length == 3 && depth <= 3
    }

    /** The boundary new parts go under, if a multipart is open. */
    function At(): Option<nat>
      requires Valid()
      reads this, writers
    {
      if depth == 0 then None else Some(writers[depth - 1])
    }

    method CreatePart(h: Heading)
      requires Valid() && depth > 0
      modifies this`out
      ensures out == old(out) + [Part(writers[depth - 1], h)]
    {
      out := out + [Part(writers[depth - 1], h)];
    }

    method OpenMultipart(kind: string)
      requires Valid() && depth < 3
      modifies this, writers
      ensures Valid() && depth == old(depth) + 1 && made == old(made) + 1
      ensures writers[..old(depth)] == old(writers[..depth]) && At() == Some(old(made))
      ensures out == old(out) + Headline(Multipart(kind, old(made)), old(At()))
    {
      writers[depth] := made;
      made := made + 1;
      if depth == 0 {
        out := out + [Top(Multipart(kind, writers[depth]))];
        out := out + [Blank];
      } else {
        CreatePart(Multipart(kind, writers[depth]));
      }
      depth := depth + 1;
    }

    method CloseMultipart()
      requires Valid()
      modifies this`out, this`depth
      ensures Valid() && depth == (if old(depth) > 0 then old(depth) - 1 else 0)
      ensures out == old(out) + if old(depth) > 0 then [Close(writers[old(depth) - 1])] else []
    {
      if depth > 0 {
        out := out + [Close(writers[depth - 1])];
        depth := depth - 1;
      }
    }

    method WriteHeaders(h: Head)
      requires Valid()
      modifies this`out
      ensures out == old(out) + if depth == 0 then [Top(Entity(h))] else [Part(writers[depth - 1], Entity(h))]
    {
      if depth == 0 {
        out := out + [Top(Entity(h))];
      } else {
        CreatePart(Entity(h));
      }
    }

    method WriteBody(content: string, enc: Encoding)
      requires Valid()
      modifies this`out
      ensures out == old(out) + (if depth == 0 then [Blank] else []) + [Body(content, enc)]
    {
      if depth == 0 {
        out := out + [Blank];
      }
      out := out + [Body(content, enc)];
    }

    method WriteLeaf(h: Head, content: string, enc: Encoding)
      requires Valid()
      modifies this`out
      ensures out == old(out) + Serialise(Leaf(h, content, enc), At())
    {
      WriteHeaders(h);
      WriteBody(content, enc);
    }

    method WriteParts(parts: seq<TextPart>, charset: string)
      requires Valid()
      modifies this`out
      ensures out == old(out) + SerialiseAll(PartLeaves(parts, charset), At())
    {
      for i := 0 to |parts|
        invariant out == old(out) + SerialiseAll(PartLeaves(parts[..i], charset), At())
      {
        var p := parts[i];
        var leaf := Leaf(PartHead(p, charset), p.content, p.encoding);
        assert parts[..i+1][..i] == parts[..i];
        SerialiseConcat(PartLeaves(parts[..i], charset), [leaf], At());
        SerialiseOne(leaf, At());
        WriteLeaf(PartHead(p, charset), p.content, p.encoding);
      }
      assert parts[..|parts|] == parts;
    }

    /** Fills in missing header fields of the files, in place, and writes them. */
    method AddFiles(files0: seq<File>, isAttachment: bool) returns (files: seq<File>)
      requires Valid()
      modifies this`out
      ensures out == old(out) + SerialiseAll(FileLeaves(files0, isAttachment, typeOf), At())
      ensures files == Filled(files0, isAttachment, typeOf)
    {
      hide FilledHead, Serialise;
      files := [];
      for i := 0 to |files0|
        invariant out == old(out) + SerialiseAll(FileLeaves(files0[..i], isAttachment, typeOf), At())
        invariant files == Filled(files0[..i], isAttachment, typeOf)
      {
        var f := files0[i];
        var h := FillHeader(f, isAttachment);
        var leaf := Leaf(h, f.content, Base64);
        assert files0[..i+1][..i] == files0[..i];
        SerialiseConcat(FileLeaves(files0[..i], isAttachment, typeOf), [leaf], At());
        SerialiseOne(leaf, At());
        WriteLeaf(h, f.content, Base64);
        files := files + [f.(header := h)];
      }
      assert files0[..|files0|] == files0;
    }

    method FillHeader(f: File, isAttachment: bool) returns (h: Head)
      ensures h == FilledHead(f, isAttachment, typeOf)
    {
      h := f.header;
      if "Content-Type" !in h {
        h := h["Content-Type" := typeOf(f.name) + "; name=\"" + f.name + "\""];
      }
      if "Content-Transfer-Encoding" !in h {
        h := h["Content-Transfer-Encoding" := EncodingName(Base64)];
      }
      if "Content-Disposition" !in h {
        var disp := if isAttachment then "attachment" else "inline";
        h := h["Content-Disposition" := disp + "; filename=\"" + f.name + "\""];
      }
      if !isAttachment {
        if "Content-ID" !in h {
          h := h["Content-ID" := "<" + f.name + ">"];
        }
      }
    }

    /** The innermost layer of writeMessage: the body parts. */
    method WriteAlternatives(m: Message)
      requires Valid() && depth < 3
      modifies this, writers
      ensures Valid() && depth == old(depth) && writers[..depth] == old(writers[..depth])
      ensures out == old(out) + SerialiseAll(Alternatives(m.Parts(), old(made)), At())
      ensures made == old(made) + if HasAlternative(m.Parts()) then 1 else 0
    {
      var wanted := |m.parts| > 1;
      ghost var leaves := PartLeaves(m.parts, m.charset);
      if wanted {
        OpenMultipart("alternative");
      }
      WriteParts(m.parts, m.charset);
      if wanted {
        CloseMultipart();
        SerialiseOne(Node("alternative", old(made), leaves), old(At()));
      }
      assert At() == old(At());
    }

    /** The middle layer: the body parts and the embedded files. */
    method WriteRelated(m: Message)
      requires Valid() && depth < 2
      modifies this, writers, m`embedded
      ensures Valid() && depth == old(depth) && writers[..depth] == old(writers[..depth])
      ensures out == old(out) + SerialiseAll(Related(old(m.Parts()), old(made), typeOf), At())
      ensures made == old(made) + (if HasRelated(old(m.Parts())) then 1 else 0) +
                      if HasAlternative(old(m.Parts())) then 1 else 0
      ensures m.embedded == Filled(old(m.embedded), false, typeOf)
    {
      hide SerialiseAll, FileLeaves, Filled, Serialise, Alternatives, Headline;
      var wanted := (|m.parts| > 0 && |m.embedded| > 0) || |m.embedded| > 1;
      if wanted {
        OpenMultipart("related");
      }
      ghost var inner := Alternatives(m.Parts(), made);
      ghost var files := FileLeaves(m.embedded, false, typeOf);
      ghost var at, start := At(), out;
      WriteAlternatives(m);
      assert At() == at;
      m.embedded := AddFiles(m.embedded, false);
      SerialiseConcat(inner, files, at);
      assert out == start + SerialiseAll(inner + files, at);
      if wanted {
        CloseMultipart();
        SerialiseNode("related", old(made), inner + files, old(At()), old(out), start, out);
      }
      assert At() == old(At());
    }

    /** writeMessage: the outer layer, with the attachments. */
    method WriteMessage(m: Message)
      requires Valid() && depth == 0
      modifies this, writers, m`embedded, m`attachments
      ensures Valid() && depth == 0
      ensures out == old(out) + [MessageHead] + SerialiseAll(Forest(old(m.Parts()), old(made), typeOf), None)
      ensures ReadAll(out[|old(out)| + 1..], None) == (Forest(old(m.Parts()), old(made), typeOf), [])
      ensures made == old(made) + Layers(old(m.Parts()))
      ensures m.embedded == Filled(old(m.embedded), false, typeOf)
      ensures m.attachments == Filled(old(m.attachments), true, typeOf)
    {
      hide SerialiseAll, FileLeaves, Filled, Serialise, Related, Headline;
      out := out + [MessageHead];
      ghost var begin := out;
      var wanted := (|m.parts| > 0 && |m.attachments| > 0) || |m.attachments| > 1;
      if wanted {
        OpenMultipart("mixed");
      }
      ghost var inner := Related(m.Parts(), made, typeOf);
      ghost var files := FileLeaves(m.attachments, true, typeOf);
      ghost var at, start := At(), out;
      WriteRelated(m);
      assert At() == at;
      m.attachments := AddFiles(m.attachments, true);
      SerialiseConcat(inner, files, at);
      assert out == start + SerialiseAll(inner + files, at);
      if wanted {
        CloseMultipart();
        SerialiseNode("mixed", old(made), inner + files, None, begin, start, out);
      }
      ghost var forest := Forest(old(m.Parts()), old(made), typeOf);
      MessageReadsBack(old(m.Parts()), old(made), typeOf);
      assert out[|old(out)| + 1..] == SerialiseAll(forest, None);
    }
  }

  /** Closing a layer completes the serialisation of its node. */
  lemma SerialiseNode(kind: string, b: nat, trees: seq<Tree>, at: Option<nat>,
                      before: seq<Event>, start: seq<Event>, after: seq<Event>)
    requires start == before + Headline(Multipart(kind, b), at)
    requires after == start + SerialiseAll(trees, Some(b)) + [Close(b)]
    ensures after == before + SerialiseAll([Node(kind, b, trees)], at)
  {
    SerialiseOne(Node(kind, b, trees), at);
  }

  // ---- what a reader sees ------------------------------------------------------------------------

  /** The header an event starts an entity with, at the given place. */
  function HeadingAt(e: Event, at: Option<nat>): Option<Heading> {
    match e
    case Top(h) => if at.None? then Some(h) else None
    case Part(b, h) => if at == Some(b) then Some(h) else None
    case _ => None
  }

  /** A MIME reader: the entities at one place, up to the first event that does not start one. */
  function ReadAll(s: seq<Event>, at: Option<nat>): (r: (seq<Tree>, seq<Event>))
    ensures |r.1| <= |s|
    decreases |s|, 1
  {
    var t := ReadOne(s, at);
    if t.None? then ([], s)
    else
      var more := ReadAll(t.value.1, at);
      ([t.value.0] + more.0, more.1)
  }

  function ReadOne(s: seq<Event>, at: Option<nat>): (r: Option<(Tree, seq<Event>)>)
    ensures r.Some? ==> |r.value.1| < |s|
    decreases |s|, 0
  {
    var k := if at.None? then 2 else 1;
    if |s| <= k || HeadingAt(s[0], at).None? || (at.None? && s[1] != Blank) then None
    else
      match HeadingAt(s[0], at).value
      case Entity(h) => if s[k].Body? then Some((Leaf(h, s[k].content, s[k].encoding), s[k+1..])) else None
      case Multipart(kind, b) =>
        var inner := ReadAll(s[k..], Some(b));
        if inner.1 != [] && inner.1[0] == Close(b) then Some((Node(kind, b, inner.0), inner.1[1..])) else None
  }

  /** A place where no further entity starts. */
  predicate Ends(s: seq<Event>, at: Option<nat>) {
    s == [] || HeadingAt(s[0], at).None?
  }

  lemma {:induction false} ReadSerialised(t: Tree, at: Option<nat>, rest: seq<Event>)
    ensures ReadOne(Serialise(t, at) + rest, at) == Some((t, rest))
    decreases t, 0
  {
    var s := Serialise(t, at) + rest;
    var k := if at.None? then 2 else 1;
    match t
    case Leaf(head, content, encoding) =>
      assert s[k+1..] == rest;
    case Node(kind, b, children) =>
      var close := [Close(b)] + rest;
      assert s[k..] == SerialiseAll(children, Some(b)) + close;
      ReadSerialisedAll(children, Some(b), close);
      assert close[1..] == rest;
  }

  /** The output is balanced: reading back a serialised forest gives exactly that forest. */
  lemma {:induction false} ReadSerialisedAll(ts: seq<Tree>, at: Option<nat>, rest: seq<Event>)
    requires Ends(rest, at)
    ensures ReadAll(SerialiseAll(ts, at) + rest, at) == (ts, rest)
    decreases ts, 1
  {
    if ts == [] {
      assert SerialiseAll(ts, at) + rest == rest;
    } else {
      var tail := SerialiseAll(ts[1..], at) + rest;
      assert SerialiseAll(ts, at) + rest == Serialise(ts[0], at) + tail;
      ReadSerialised(ts[0], at, tail);
      ReadSerialisedAll(ts[1..], at, rest);
      assert [ts[0]] + ts[1..] == ts;
    }
  }

  // ---- results about every message -----------------------------------------------------------------

  lemma {:induction false} PartLeafCount(parts: seq<TextPart>, charset: string)
    ensures |PartLeaves(parts, charset)| == |parts|
    ensures forall t :: t in PartLeaves(parts, charset) ==> t.Leaf?
  {
    if parts != [] {
      PartLeafCount(parts[..|parts|-1], charset);
    }
  }

  lemma {:induction false} FileLeafCount(files: seq<File>, isAttachment: bool, typeOf: string -> string)
    ensures |FileLeaves(files, isAttachment, typeOf)| == |files|
    ensures forall t :: t in FileLeaves(files, isAttachment, typeOf) ==> t.Leaf?
  {
    if files != [] {
      FileLeafCount(files[..|files|-1], isAttachment, typeOf);
    }
  }

  lemma LeafCounts(m: Contents, typeOf: string -> string)
    ensures |PartLeaves(m.parts, m.charset)| == |m.parts|
    ensures |FileLeaves(m.embedded, false, typeOf)| == |m.embedded|
    ensures |FileLeaves(m.attachments, true, typeOf)| == |m.attachments|
  {
    PartLeafCount(m.parts, m.charset);
    FileLeafCount(m.embedded, false, typeOf);
    FileLeafCount(m.attachments, true, typeOf);
  }

  /** A message is written as a single MIME entity exactly when it has a body part, or has some file but
      not a lone attachment next to embedded files. */
  lemma OneEntity(m: Contents, b: nat, typeOf: string -> string)
    ensures |Forest(m, b, typeOf)| == 1 <==>
            || |m.parts| > 0
            || (|m.embedded| + |m.attachments| > 0 && !(|m.embedded| > 0 && |m.attachments| == 1))
  {
    LeafCounts(m, typeOf);
  }

  /** addFiles never overwrites a field; it makes sure of the three MIME fields, and of a Content-ID
      for an embedded file, and adds nothing else. */
  lemma FilledHeadKeeps(f: File, isAttachment: bool, typeOf: string -> string)
    ensures var h := FilledHead(f, isAttachment, typeOf);
            && (forall k :: k in f.header ==> k in h && h[k] == f.header[k])
            && h.Keys == f.header.Keys + {"Content-Type", "Content-Transfer-Encoding", "Content-Disposition"}
                         + if isAttachment then {} else {"Content-ID"}
  {
  }

  lemma DefaultIs(h: Head, field: string, value: string, k: string)
    ensures var d := Default(h, field, value);
            && (k in d <==> k in h || k == field)
            && (k in d ==> d[k] == if k in h then h[k] else value)
  {
  }

  /** The value a field of a file gets when it is missing. */
  function Missing(f: File, isAttachment: bool, typeOf: string -> string, k: string): string {
    if k == "Content-Type" then typeOf(f.name) + "; name=\"" + f.name + "\""
    else if k == "Content-Transfer-Encoding" then "base64"
    else if k == "Content-ID" then "<" + f.name + ">"
    else (if isAttachment then "attachment" else "inline") + "; filename=\"" + f.name + "\""
  }

  /** The values it adds: the type by the file's name, base64, attachment or inline, and the name. */
  lemma FilledHeadAdds(f: File, isAttachment: bool, typeOf: string -> string, k: string)
    requires k in FilledHead(f, isAttachment, typeOf) && k !in f.header
    ensures FilledHead(f, isAttachment, typeOf)[k] == Missing(f, isAttachment, typeOf, k)
  {
    hide Default;
    var v1 := typeOf(f.name) + "; name=\"" + f.name + "\"";
    var v3 := (if isAttachment then "attachment" else "inline") + "; filename=\"" + f.name + "\"";
    var h1 := Default(f.header, "Content-Type", v1);
    var h2 := Default(h1, "Content-Transfer-Encoding", EncodingName(Base64));
    var h3 := Default(h2, "Content-Disposition", v3);
    var h4 := Default(h3, "Content-ID", "<" + f.name + ">");
    DefaultIs(f.header, "Content-Type", v1, k);
    DefaultIs(h1, "Content-Transfer-Encoding", EncodingName(Base64), k);
    DefaultIs(h2, "Content-Disposition", v3, k);
    DefaultIs(h3, "Content-ID", "<" + f.name + ">", k);
    assert FilledHead(f, isAttachment, typeOf) == if isAttachment then h3 else h4;
  }

  function AllFiles(atts: seq<Attachment>): seq<File> {
    seq(|atts|, i requires 0 <= i < |atts| => NewFile(atts[i]))
  }

  /** Every attachment of a message ends up in exactly one of the two lists. */
  lemma {:induction false} EveryFileOnce(atts: seq<Attachment>)
    ensures multiset(FilesOf(atts, true)) + multiset(FilesOf(atts, false)) == multiset(AllFiles(atts))
  {
    hide NewFile;
    if atts != [] {
      var before := atts[..|atts|-1];
      EveryFileOnce(before);
      assert AllFiles(atts) == AllFiles(before) + [NewFile(atts[|atts|-1])];
    }
  }

  /** The places, in increasing order, of the attachments that are, or are not, inlined. */
  ghost predicate ArePlaces(places: seq<nat>, atts: seq<Attachment>, inlined: bool) {
    && (forall k :: 0 <= k < |places| ==> places[k] < |atts|)
    && (forall j, k :: 0 <= j < k < |places| ==> places[j] < places[k])
    && (forall i :: 0 <= i < |atts| ==> (i in places <==> atts[i].inlined == inlined))
  }

  /** Inline attachments are embedded and the others are attached, each list in the order given; a file
      has the name and the content, and a type and an identifier only when they are given. */
  lemma {:induction false} FilesInOrder(atts: seq<Attachment>, inlined: bool) returns (places: seq<nat>)
    ensures ArePlaces(places, atts, inlined) && |FilesOf(atts, inlined)| == |places|
    ensures forall k :: 0 <= k < |places| ==> FilesOf(atts, inlined)[k] == NewFile(atts[places[k]])
  {
    hide NewFile;
    places := [];
    if atts != [] {
      var n := |atts| - 1;
      places := FilesInOrder(atts[..n], inlined);
      if atts[n].inlined == inlined {
        places := places + [n];
      }
    }
  }

  lemma NewFileIs(att: Attachment)
    ensures var f := NewFile(att);
            && f.name == att.filename && f.content == att.content
            && (forall k :: k in f.header <==>
                  (k == "Content-Type" && att.contentType != "") || (k == "Content-ID" && att.contentID != ""))
            && (att.contentType != "" ==> f.header["Content-Type"] == att.contentType)
            && (att.contentID != "" ==> f.header["Content-ID"] == "<" + att.contentID + ">")
  {
  }

  /** The body parts in the four cases. */
  lemma BodyPartsAre(html: string, text: string, encoding: Encoding)
    ensures BodyParts(html, text, encoding) ==
            var h, t := TextPart("text/html", html, encoding), TextPart("text/plain", text, encoding);
            if html == "" && text == "" then [] else if text == "" then [h] else if html == "" then [t] else [h, t]
  {
  }

  // ---- what the entities hold --------------------------------------------------------------------

  /** An entity without parts of its own, and the kinds of the multiparts it is in, from the outside. */
  datatype Placed = Placed(layers: seq<string>, head: Head, content: string, encoding: Encoding)

  /** The entities of trees in order. */
  function Entities(ts: seq<Tree>, layers: seq<string>): seq<Placed>
    decreases ts, 1
  {
    if ts == [] then [] else EntitiesOf(ts[0], layers) + Entities(ts[1..], layers)
  }

  function EntitiesOf(t: Tree, layers: seq<string>): seq<Placed>
    decreases t, 0
  {
    match t
    case Leaf(head, content, encoding) => [Placed(layers, head, content, encoding)]
    case Node(kind, _, children) => Entities(children, layers + [kind])
  }

  lemma {:induction false} EntitiesConcat(a: seq<Tree>, b: seq<Tree>, layers: seq<string>)
    ensures Entities(a + b, layers) == Entities(a, layers) + Entities(b, layers)
  {
    if a == [] {
      assert a + b == b;
    } else {
      assert (a + b)[1..] == a[1..] + b;
      EntitiesConcat(a[1..], b, layers);
    }
  }

  lemma EntitiesOfLayer(wanted: bool, kind: string, b: nat, ts: seq<Tree>, layers: seq<string>)
    ensures Entities(Layer(wanted, kind, b, ts), layers) ==
            Entities(ts, if wanted then layers + [kind] else layers)
  {
    if wanted {
      var one := [Node(kind, b, ts)];
      assert one[1..] == [];
      assert Entities(one, layers) == EntitiesOf(one[0], layers) + [];
    }
  }

  lemma OneEntityOnly(leaf: Tree, layers: seq<string>)
    requires leaf.Leaf?
    ensures Entities([leaf], layers) == [Placed(layers, leaf.head, leaf.content, leaf.encoding)]
  {
    assert [leaf][1..] == [];
  }

  /** The entities of body parts: type and character set, encoding and content are the part's. */
  function Texts(parts: seq<TextPart>, charset: string, layers: seq<string>): seq<Placed> {
    seq(|parts|, i requires 0 <= i < |parts| =>
      var p := parts[i];
      Placed(layers,
             map["Content-Type" := p.contentType + "; charset=" + charset,
                 "Content-Transfer-Encoding" :=
                   if p.encoding.Base64? then "base64"
                   else if p.encoding.QuotedPrintable? then "quoted-printable" else "8bit"],
             p.content, p.encoding))
  }

  /** The entities of files: base64, with the header completed. */
  function Files(files: seq<File>, isAttachment: bool, typeOf: string -> string, layers: seq<string>): seq<Placed> {
    seq(|files|, i requires 0 <= i < |files| =>
      Placed(layers, FilledHead(files[i], isAttachment, typeOf), files[i].content, Base64))
  }

  lemma {:induction false} PartEntities(parts: seq<TextPart>, charset: string, layers: seq<string>)
    ensures Entities(PartLeaves(parts, charset), layers) == Texts(parts, charset, layers)
  {
    hide Entities;
    if parts != [] {
      var before, p := parts[..|parts|-1], parts[|parts|-1];
      var leaf := Leaf(PartHead(p, charset), p.content, p.encoding);
      PartEntities(before, charset, layers);
      EntitiesConcat(PartLeaves(before, charset), [leaf], layers);
      OneEntityOnly(leaf, layers);
      hide PartLeaves;
    } else {
      NoEntities(layers);
    }
  }

  lemma NoEntities(layers: seq<string>)
    ensures Entities([], layers) == []
  {
  }

  lemma {:induction false} FileEntities(files: seq<File>, isAttachment: bool, typeOf: string -> string,
                                        layers: seq<string>)
    ensures Entities(FileLeaves(files, isAttachment, typeOf), layers) == Files(files, isAttachment, typeOf, layers)
  {
    hide FilledHead, Entities;
    if files != [] {
      var before, f := files[..|files|-1], files[|files|-1];
      var leaf := Leaf(FilledHead(f, isAttachment, typeOf), f.content, Base64);
      FileEntities(before, isAttachment, typeOf, layers);
      EntitiesConcat(FileLeaves(before, isAttachment, typeOf), [leaf], layers);
      OneEntityOnly(leaf, layers);
      hide FileLeaves;
    } else {
      NoEntities(layers);
    }
  }

  /** The layers inside one more multipart, when there is a reason for it. */
  function Within(layers: seq<string>, kind: string, reason: bool): seq<string> {
    if reason then layers + [kind] else layers
  }

  lemma AlternativesHold(m: Contents, b: nat, layers: seq<string>)
    ensures Entities(Alternatives(m, b), layers) ==
            Texts(m.parts, m.charset, Within(layers, "alternative", |m.parts| > 1))
  {
    hide Entities, PartLeaves, Texts;
    EntitiesOfLayer(HasAlternative(m), "alternative", b, PartLeaves(m.parts, m.charset), layers);
    PartEntities(m.parts, m.charset, Within(layers, "alternative", |m.parts| > 1));
  }

  lemma RelatedHold(m: Contents, b: nat, typeOf: string -> string, layers: seq<string>)
    ensures var inside := Within(layers, "related", |m.embedded| > 1 || (|m.embedded| == 1 && m.parts != []));
            Entities(Related(m, b, typeOf), layers) ==
            Texts(m.parts, m.charset, Within(inside, "alternative", |m.parts| > 1)) +
            Files(m.embedded, false, typeOf, inside)
  {
    hide Entities, Alternatives, FileLeaves, Texts, Files;
    var c := if HasRelated(m) then b + 1 else b;
    var inside := Within(layers, "related", |m.embedded| > 1 || (|m.embedded| == 1 && m.parts != []));
    var files := FileLeaves(m.embedded, false, typeOf);
    EntitiesOfLayer(HasRelated(m), "related", b, Alternatives(m, c) + files, layers);
    EntitiesConcat(Alternatives(m, c), files, inside);
    AlternativesHold(m, c, inside);
    FileEntities(m.embedded, false, typeOf, inside);
  }

  /** What a message is written as: each body part, then each embedded file, then each attachment, once
      and in order, with its own content and encoding.  There is a "mixed" multipart around everything
      when there are several attachments, or one beside body parts; inside it a "related" one around
      parts and embedded files when there are several of those, or one beside body parts; and inside
      that an "alternative" one around several parts. */
  lemma MessageHolds(m: Contents, b: nat, typeOf: string -> string)
    ensures var mixed := Within([], "mixed", |m.attachments| > 1 || (|m.attachments| == 1 && m.parts != []));
            var related := Within(mixed, "related", |m.embedded| > 1 || (|m.embedded| == 1 && m.parts != []));
            var alternative := Within(related, "alternative", |m.parts| > 1);
            Entities(Forest(m, b, typeOf), []) ==
            Texts(m.parts, m.charset, alternative) +
            Files(m.embedded, false, typeOf, related) +
            Files(m.attachments, true, typeOf, mixed)
  {
    hide Entities, Related, FileLeaves, Texts, Files;
    var c := if HasMixed(m) then b + 1 else b;
    var mixed := Within([], "mixed", |m.attachments| > 1 || (|m.attachments| == 1 && m.parts != []));
    var files := FileLeaves(m.attachments, true, typeOf);
    EntitiesOfLayer(HasMixed(m), "mixed", b, Related(m, c, typeOf) + files, []);
    EntitiesConcat(Related(m, c, typeOf), files, mixed);
    RelatedHold(m, c, typeOf, mixed);
    FileEntities(m.attachments, true, typeOf, mixed);
  }

  function Depth(t: Tree): nat
    decreases t, 0
  {
    match t
    case Leaf(_, _, _) => 0
    case Node(_, _, children) => 1 + MaxDepth(children)
  }

  function MaxDepth(ts: seq<Tree>): nat
    decreases ts, 1
  {
    if ts == [] then 0
    else
      var d, more := Depth(ts[0]), MaxDepth(ts[1..]);
      if d > more then d else more
  }

  /** Every multipart node of the trees has at least two children. */
  predicate NoIdleLayer(ts: seq<Tree>)
    decreases ts, 1
  {
    ts == [] || (NoIdleNode(ts[0]) && NoIdleLayer(ts[1..]))
  }

  predicate NoIdleNode(t: Tree)
    decreases t, 0
  {
    t.Leaf? || (|t.children| >= 2 && NoIdleLayer(t.children))
  }

  lemma {:induction false} LeavesAreFlat(ts: seq<Tree>)
    requires forall t :: t in ts ==> t.Leaf?
    ensures MaxDepth(ts) == 0 && NoIdleLayer(ts)
  {
    if ts != [] {
      LeavesAreFlat(ts[1..]);
    }
  }

  lemma {:induction false} DepthConcat(a: seq<Tree>, b: seq<Tree>, d: nat)
    requires MaxDepth(a) <= d && MaxDepth(b) <= d && NoIdleLayer(a) && NoIdleLayer(b)
    ensures MaxDepth(a + b) <= d && NoIdleLayer(a + b)
  {
    if a == [] {
      assert a + b == b;
    } else {
      assert (a + b)[1..] == a[1..] + b;
      DepthConcat(a[1..], b, d);
    }
  }

  lemma LayerDepth(wanted: bool, kind: string, b: nat, ts: seq<Tree>, d: nat)
    requires MaxDepth(ts) <= d && NoIdleLayer(ts) && (wanted ==> |ts| >= 2)
    ensures var l := Layer(wanted, kind, b, ts); MaxDepth(l) <= d + 1 && NoIdleLayer(l)
  {
    if wanted {
      assert [Node(kind, b, ts)][1..] == [];
    }
  }

  /** Layers are at most three deep, and none is opened for fewer than two children. */
  lemma ForestShape(m: Contents, b: nat, typeOf: string -> string)
    ensures MaxDepth(Forest(m, b, typeOf)) <= 3 && NoIdleLayer(Forest(m, b, typeOf))
  {
    var parts, embedded := PartLeaves(m.parts, m.charset), FileLeaves(m.embedded, false, typeOf);
    var attached := FileLeaves(m.attachments, true, typeOf);
    LeafCounts(m, typeOf);
    PartLeafCount(m.parts, m.charset);
    FileLeafCount(m.embedded, false, typeOf);
    FileLeafCount(m.attachments, true, typeOf);
    LeavesAreFlat(parts);
    LeavesAreFlat(embedded);
    LeavesAreFlat(attached);
    hide MaxDepth, NoIdleLayer, PartLeaves, FileLeaves;
    var b1 := if HasMixed(m) then b + 1 else b;
    var b2 := if HasRelated(m) then b1 + 1 else b1;
    LayerDepth(HasAlternative(m), "alternative", b2, parts, 0);
    var a := Alternatives(m, b2);
    DepthConcat(a, embedded, 1);
    LayerDepth(HasRelated(m), "related", b1, a + embedded, 1);
    var r := Related(m, b1, typeOf);
    DepthConcat(r, attached, 2);
    LayerDepth(HasMixed(m), "mixed", b, r + attached, 2);
  }

  /** What a MIME reader makes of the output of WriteMessage: one tree exactly under the condition of
      OneEntity, and always exactly the trees of the message. */
  lemma MessageReadsBack(m: Contents, b: nat, typeOf: string -> string)
    ensures ReadAll(SerialiseAll(Forest(m, b, typeOf), None), None) == (Forest(m, b, typeOf), [])
  {
    var s := SerialiseAll(Forest(m, b, typeOf), None);
    assert s + [] == s;
    ReadSerialisedAll(Forest(m, b, typeOf), None, []);
  }
}
