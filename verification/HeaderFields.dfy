/**
  Address fields from end to end: addresses are parsed, formatted, written as a folded field of bytes,
  and read back from the unfolded field.
 */
module HeaderFields {
  import opened Wrappers
  import opened Text
  import opened Grammar
  import opened Printer
  import opened RoundTrip
  import opened Headers
  import Folding

  // ---- bytes -------------------------------------------------------------------------------

  function Byte(b: int): char
    requires 0 <= b < 0x100
  {
    b as char
  }

  /** The bytes of one element of a text: its UTF-8 encoding, or the stray byte itself, which is never
      an ASCII one. */
  function RuneBytes(c: int): (b: string)
    ensures |b| == Size(c)
    ensures forall i :: 0 <= i < |b| ==> b[i] as int == c || b[i] as int >= 0x80
  {
    if !Valid(c) then [Byte(0x80 + c % 0x80)]
    else if c < 0x80 then [Byte(c)]
    else if c < 0x800 then [Byte(0xC0 + c / 0x40), Byte(0x80 + c % 0x40)]
    else if c < 0x10000 then [Byte(0xE0 + c / 0x1000), Byte(0x80 + c / 0x40 % 0x40), Byte(0x80 + c % 0x40)]
    else
      [Byte(0xF0 + c / 0x40000), Byte(0x80 + c / 0x1000 % 0x40), Byte(0x80 + c / 0x40 % 0x40), Byte(0x80 + c % 0x40)]
  }

  function Bytes(t: Text): string {
    if t == [] then "" else RuneBytes(t[0]) + Bytes(t[1..])
  }

  function AllBytes(values: seq<Text>): (b: seq<string>)
    ensures |b| == |values| && forall i :: 0 <= i < |b| ==> b[i] == Bytes(values[i])
  {
    seq(|values|, i requires 0 <= i < |values| => Bytes(values[i]))
  }

  /** Sizes are numbers of bytes. */
  lemma {:induction false} BytesLength(t: Text)
    ensures |Bytes(t)| == ByteLen(t)
  {
    if t != [] {
      BytesLength(t[1..]);
    }
  }

  lemma {:induction false} BytesConcat(a: Text, b: Text)
    ensures Bytes(a + b) == Bytes(a) + Bytes(b)
  {
    if a == [] {
      assert a + b == b;
    } else {
      assert (a + b)[1..] == a[1..] + b;
      BytesConcat(a[1..], b);
      assert RuneBytes(a[0]) + (Bytes(a[1..]) + Bytes(b)) == RuneBytes(a[0]) + Bytes(a[1..]) + Bytes(b);
    }
  }

  predicate OnOneLine(t: Text) {
    forall i :: 0 <= i < |t| ==> t[i] != 10 && t[i] != 13
  }

  lemma {:induction false} BytesClean(t: Text)
    requires OnOneLine(t)
    ensures Folding.Clean(Bytes(t))
  {
    if t != [] {
      BytesClean(t[1..]);
    }
  }

  lemma {:induction false} BytesJoin(values: seq<Text>)
    ensures Bytes(Join(values, [COMMA, SP])) == Folding.JoinComma(AllBytes(values))
  {
    if |values| > 1 {
      var sep, more := [COMMA, SP], Join(values[1..], [COMMA, SP]);
      BytesJoin(values[1..]);
      assert AllBytes(values)[1..] == AllBytes(values[1..]);
      BytesConcat(values[0] + sep, more);
      BytesConcat(values[0], sep);
      SeparatorBytes();
    }
  }

  lemma SeparatorBytes()
    ensures Bytes([COMMA, SP]) == ", "
  {
    assert [COMMA, SP][1..] == [SP] && [SP][1..] == [];
    assert Bytes([SP]) == " ";
  }

  // ---- address fields ----------------------------------------------------------------------

  /** A formatted address never contains a line break. */
  lemma FormatOnOneLine(a: Address, enc: HeaderEncoder)
    requires IsMailbox(a.address) && IsPlain(a.name) && KeepsPlain(enc)
    ensures OnOneLine(Format(a.address, a.name, enc))
  {
    MailboxOnOneLine(a.address);
    hide IsMailbox, OnOneLine, Escape, KeepsPlain;
    if a.name != [] {
      FormatShape(a.address, a.name, enc);
      EscapeOnOneLine(a.name);
      MarksOnOneLine();
      OneLineJoined([QUOTE], Escape(a.name));
      OneLineJoined([QUOTE] + Escape(a.name), [QUOTE]);
      OneLineJoined(Quote(a.name), [SP, LT]);
      OneLineJoined(a.address, [GT]);
      OneLineJoined(Quote(a.name) + [SP, LT], a.address + [GT]);
    }
  }

  lemma MarksOnOneLine()
    ensures OnOneLine([QUOTE]) && OnOneLine([SP, LT]) && OnOneLine([GT])
  {
  }

  lemma OneLineJoined(a: Text, b: Text)
    requires OnOneLine(a) && OnOneLine(b)
    ensures OnOneLine(a + b)
  {
  }

  lemma MailboxOnOneLine(x: Text)
    requires IsMailbox(x)
    ensures OnOneLine(x)
  {
    hide LastAt;
    assert x == LocalOf(x) + [AT] + DomainOf(x);
    forall i | 0 <= i < |x| ensures x[i] != 10 && x[i] != 13 {
      if i > |LocalOf(x)| {
        assert IsAtext(DomainOf(x)[i - |LocalOf(x)| - 1], true, false);
      }
    }
  }

  lemma {:induction false} EscapeOnOneLine(name: Text)
    requires IsPlain(name)
    ensures OnOneLine(Escape(name))
  {
    if name != [] {
      assert IsPlainRune(name[0]);
      EscapeOnOneLine(name[1..]);
    }
  }

  /** The addresses a list of inputs parses to. */
  ghost predicate ParsesTo(inputs: seq<Text>, l: seq<Address>, dec: Decoder) {
    |l| == |inputs| && forall i :: 0 <= i < |l| ==> ParseSingle(inputs[i], dec).value == Ok(l[i])
  }

  lemma {:induction false} ReformatIs(inputs: seq<Text>, l: seq<Address>, enc: HeaderEncoder, dec: Decoder)
    requires ParsesTo(inputs, l, dec)
    ensures Reformat(inputs, dec, enc) == Ok(FormatAll(l, enc))
  {
    hide ParseSingle, Format;
    if inputs != [] {
      ReformatIs(inputs[1..], l[1..], enc, dec);
    }
  }

  lemma {:induction false} FormatAllOnOneLine(l: seq<Address>, enc: HeaderEncoder)
    requires AllMailboxes(l) && AllPlain(l) && KeepsPlain(enc)
    ensures forall i :: 0 <= i < |l| ==> OnOneLine(FormatAll(l, enc)[i])
  {
    hide IsMailbox, IsPlain, KeepsPlain, Format, OnOneLine;
    if l != [] {
      FormatOnOneLine(l[0], enc);
      FormatAllOnOneLine(l[1..], enc);
    }
  }

  /** An address field from end to end.  setAddressHeader accepts the inputs and stores values without
      line breaks; with a field name of at most 73 bytes (and only then) unfolding the written field
      gives the name and the values joined by ", "; and when no local part needs quotes, reading that
      as a list gives exactly the addresses of the inputs. */
  lemma FieldReadsBack(k: string, inputs: seq<Text>, l: seq<Address>, enc: HeaderEncoder, dec: Decoder)
    requires Folding.Clean(k) && inputs != [] && ParsesTo(inputs, l, dec) && AllPlain(l) && KeepsPlain(enc)
    ensures Reformat(inputs, dec, enc).Ok?
    ensures var values := Reformat(inputs, dec, enc).value;
            var body := Join(values, [COMMA, SP]);
            && (forall i :: 0 <= i < |values| ==> OnOneLine(values[i]))
            && (Folding.Unfold(Folding.Header(k, AllBytes(values))) == Folding.FieldText(k, Bytes(body)) <==>
                |k| <= 73)
            && ((forall i :: 0 <= i < |l| ==> IsDotAtom(LocalOf(l[i].address))) ==>
                ParseList(body, dec).value == Ok(l))
  {
    ReformatIs(inputs, l, enc, dec);
    forall i | 0 <= i < |l| ensures IsMailbox(l[i].address) {
      SingleSound(inputs[i], dec);
    }
    FieldUnfolds(k, l, enc);
    BodyReadsBack(l, enc, dec);
    hide ParseSingle, IsMailbox, IsPlain, KeepsPlain, Format, OnOneLine, Bytes, ParseList, IsDotAtom, LocalOf, Join;
  }

  lemma BodyReadsBack(l: seq<Address>, enc: HeaderEncoder, dec: Decoder)
    requires l != [] && AllMailboxes(l) && AllPlain(l) && KeepsPlain(enc)
    ensures (forall i :: 0 <= i < |l| ==> IsDotAtom(LocalOf(l[i].address))) ==>
              ParseList(Join(FormatAll(l, enc), [COMMA, SP]), dec).value == Ok(l)
  {
    hide IsMailbox, IsPlain, KeepsPlain, Format, ListFrom, IsDotAtom, LocalOf, Join;
    if forall i :: 0 <= i < |l| ==> IsDotAtom(LocalOf(l[i].address)) {
      JoinedParses(l, enc, dec, []);
      assert [] + l == l;
    }
  }

  lemma FieldUnfolds(k: string, l: seq<Address>, enc: HeaderEncoder)
    requires Folding.Clean(k) && l != [] && AllMailboxes(l) && AllPlain(l) && KeepsPlain(enc)
    ensures var values := FormatAll(l, enc);
            var field := Folding.FieldText(k, Bytes(Join(values, [COMMA, SP])));
            && (forall i :: 0 <= i < |values| ==> OnOneLine(values[i]))
            && (Folding.Unfold(Folding.Header(k, AllBytes(values))) == field <==> |k| <= 73)
  {
    hide IsMailbox, IsPlain, KeepsPlain, Format, OnOneLine, Bytes, Join;
    var values := FormatAll(l, enc);
    FormatAllOnOneLine(l, enc);
    forall i | 0 <= i < |values| ensures Folding.Clean(AllBytes(values)[i]) {
      BytesClean(values[i]);
    }
    BytesJoin(values);
    Folding.HeaderUnfolds(k, AllBytes(values));
  }
}
