/** The octets of a message as a pair of functions: `Print` lays a message out, `DecodeSpec`
    reads one. Sections 6 and 15 of RFC 5389. */
module Wire {
  import opened Base
  import opened MessageTypes

  const COOKIE: uint32 := 0x2112A442
  const HEADER_SIZE: nat := 20
  const ATTR_HEADER_SIZE: nat := 4
  const OLD_XOR_MAPPED: uint16 := 0x8020
  const XOR_MAPPED_ADDRESS: uint16 := 0x0020

  type TxId = b: Bytes | |b| == 12 witness Zeros(12)

  datatype Attr = Attr(typ: uint16, value: Bytes)

  datatype Msg = Msg(typ: MessageType, tid: TxId, attrs: seq<Attr>)

  /** The next multiple of four. */
  function Padded(n: nat): (r: nat)
    ensures n <= r < n + 4
  {
    var m := 4 * (n / 4);
    if m < n then m + 4 else m
  }

  /** The pre-standard number of XOR-MAPPED-ADDRESS is read as the current one. */
  function CompatType(t: uint16): uint16 {
    if t == OLD_XOR_MAPPED then XOR_MAPPED_ADDRESS else t
  }

  // The grammar of a body: type, length, value and up to three octets of padding of any content.

  datatype Tlv = Tlv(typ: uint16, value: Bytes, pad: Bytes) {
    predicate Valid() {
      |value| < 0x1_0000 && |pad| == Padded(|value|) - |value|
    }
    function Octets(): Bytes {
      Put16(typ) + Put16(|value| % 0x1_0000) + value + pad
    }
    function Meaning(): Attr {
      Attr(CompatType(typ), value)
    }
  }

  function Flatten(ts: seq<Tlv>): Bytes {
    if ts == [] then [] else ts[0].Octets() + Flatten(ts[1..])
  }

  function Meanings(ts: seq<Tlv>): seq<Attr> {
    seq(|ts|, i requires 0 <= i < |ts| => ts[i].Meaning())
  }

  ghost predicate IsBody(b: Bytes, ts: seq<Tlv>) {
    (forall i :: 0 <= i < |ts| ==> ts[i].Valid()) && Flatten(ts) == b
  }

  // Printing.

  function ToTlv(a: Attr): Tlv {
    Tlv(a.typ, a.value, Zeros(Padded(|a.value|) - |a.value|))
  }

  function EncodeAttr(a: Attr): (r: Bytes)
    ensures |r| == AttrSize(a) && r[4..4 + |a.value|] == a.value
  {
    ToTlv(a).Octets()
  }

  function AttrSize(a: Attr): nat {
    ATTR_HEADER_SIZE + Padded(|a.value|)
  }

  function EncodeAttrs(attrs: seq<Attr>): (r: Bytes)
    ensures |r| == AttrsSize(attrs)
  {
    if attrs == [] then [] else EncodeAttr(attrs[0]) + EncodeAttrs(attrs[1..])
  }

  function AttrsSize(attrs: seq<Attr>): nat {
    if attrs == [] then 0 else AttrSize(attrs[0]) + AttrsSize(attrs[1..])
  }

  /** The header of a message whose body claims `size` octets; the field keeps 16 bits of it. */
  function Header(typ: MessageType, size: nat, tid: TxId): (r: Bytes)
    ensures |r| == HEADER_SIZE
  {
    Put16(Value(typ)) + Put16(size % 0x1_0000) + Put32(COOKIE) + tid
  }

  function Print(m: Msg): Bytes {
    Header(m.typ, AttrsSize(m.attrs), m.tid) + EncodeAttrs(m.attrs)
  }

  /** `raw` with the length field of its header overwritten. */
  function SetLength(raw: Bytes, size: nat): (r: Bytes)
    requires |raw| >= 4
    ensures |r| == |raw|
  {
    raw[..2] + Put16(size % 0x1_0000) + raw[4..]
  }

  // Reading.

  datatype DecodeError = HeaderEof | BadCookie | MessageEof | AttrHeaderEof | AttrValueEof

  /** The attributes read before the first error, and that error. */
  datatype Parse = Parse(attrs: seq<Attr>, err: Option<DecodeError>)

  /** Either nothing was stored, or the header was and the body was read as far as it goes. */
  datatype Decoded =
    | Refused(err: DecodeError)
    | Read(typ: MessageType, size: uint16, tid: TxId, body: Parse)
  {
    predicate Ok() {
      Read? && body.err.None?
    }
    function Message(): Msg
      requires Read?
    {
      Msg(typ, tid, body.attrs)
    }
  }

  function ParseAttrs(b: Bytes): Parse
    decreases |b|
  {
    if b == [] then Parse([], None)
    else if |b| < ATTR_HEADER_SIZE then Parse([], Some(AttrHeaderEof))
    else
      var len := Get16(b, 2);
      if |b| - ATTR_HEADER_SIZE < Padded(len) then Parse([], Some(AttrValueEof))
      else
        var rest := ParseAttrs(b[ATTR_HEADER_SIZE + Padded(len)..]);
        Parse([Attr(CompatType(Get16(b, 0)), b[4..4 + len])] + rest.attrs, rest.err)
  }

  function DecodeSpec(raw: Bytes): Decoded {
    if |raw| < HEADER_SIZE then Refused(HeaderEof)
    else
      var size := Get16(raw, 2);
      if Get32(raw, 4) != COOKIE then Refused(BadCookie)
      else if |raw| < HEADER_SIZE + size then Refused(MessageEof)
      else Read(ReadValue(Get16(raw, 0)), size, raw[8..20], ParseAttrs(Body(raw)))
  }

  // Reading is sound and complete for the grammar.

  /** What the parser sees at the front of an attribute followed by anything. */
  lemma OctetsFields(t: Tlv, rest: Bytes)
    requires t.Valid()
    ensures var b := t.Octets() + rest;
            && Get16(b, 0) == t.typ
            && Get16(b, 2) == |t.value|
            && b[4..4 + |t.value|] == t.value
            && b[4 + Padded(|t.value|)..] == rest
  {
    var b := t.Octets() + rest;
    assert b[0..2] == Put16(t.typ) && b[2..4] == Put16(|t.value|);
    Get16Unique(b, 0, t.typ);
    Get16Unique(b, 2, |t.value|);
  }

  lemma ParseOne(t: Tlv, rest: Bytes)
    requires t.Valid()
    ensures var r := ParseAttrs(rest);
            ParseAttrs(t.Octets() + rest) == Parse([t.Meaning()] + r.attrs, r.err)
  {
    OctetsFields(t, rest);
  }

  lemma {:induction false} ParseComplete(ts: seq<Tlv>)
    requires forall i :: 0 <= i < |ts| ==> ts[i].Valid()
    ensures ParseAttrs(Flatten(ts)) == Parse(Meanings(ts), None)
  {
    hide Padded, Get16, Put16, Tlv.Octets, CompatType;
    if ts != [] {
      ParseComplete(ts[1..]);
      ParseOne(ts[0], Flatten(ts[1..]));
      assert Meanings(ts) == [ts[0].Meaning()] + Meanings(ts[1..]);
    }
  }

  /** The attribute at the front of a body the parser accepts. */
  lemma FrontOctets(b: Bytes) returns (t: Tlv)
    requires |b| >= 4 && |b| - 4 >= Padded(Get16(b, 2))
    ensures t.Valid() && |t.value| == Get16(b, 2)
    ensures t.Meaning() == Attr(CompatType(Get16(b, 0)), b[4..4 + Get16(b, 2)])
    ensures b == t.Octets() + b[4 + Padded(Get16(b, 2))..]
  {
    hide Get16, Put16, Padded;
    var len := Get16(b, 2);
    t := Tlv(Get16(b, 0), b[4..4 + len], b[4 + len..4 + Padded(len)]);
    Get16Unique(b, 0, t.typ);
    Get16Unique(b, 2, len);
  }

  lemma {:induction false} ParseSound(b: Bytes) returns (ts: seq<Tlv>)
    requires ParseAttrs(b).err.None?
    ensures IsBody(b, ts)
    ensures ParseAttrs(b).attrs == Meanings(ts)
    decreases |b|
  {
    hide Padded, Get16, Put16, Tlv.Octets, CompatType;
    ts := [];
    if b != [] {
      var t := FrontOctets(b);
      var rest := ParseSound(b[4 + Padded(|t.value|)..]);
      ts := [t] + rest;
      assert ts[1..] == rest;
      assert Meanings(ts) == [t.Meaning()] + Meanings(rest);
    }
  }

  /** No attribute starts here: the four octets of its header are not there, or not all of its padded value. */
  predicate Stuck(rest: Bytes) {
    rest != [] && (|rest| < ATTR_HEADER_SIZE || |rest| - ATTR_HEADER_SIZE < Padded(Get16(rest, 2)))
  }

  /** Where the attributes end in something that is not one, those before it are read, and the error tells which
      part of it is missing. */
  lemma {:induction false} ParseBroken(ts: seq<Tlv>, rest: Bytes)
    requires (forall i :: 0 <= i < |ts| ==> ts[i].Valid()) && Stuck(rest)
    ensures ParseAttrs(Flatten(ts) + rest) == Parse(Meanings(ts), Some(if |rest| < ATTR_HEADER_SIZE then AttrHeaderEof else AttrValueEof))
  {
    hide Padded, Get16, Put16, Tlv.Octets, CompatType;
    if ts == [] {
      assert Flatten(ts) + rest == rest;
    } else {
      ParseBroken(ts[1..], rest);
      Associates(ts[0].Octets(), Flatten(ts[1..]), rest);
      ParseOne(ts[0], Flatten(ts[1..]) + rest);
      assert Meanings(ts) == [ts[0].Meaning()] + Meanings(ts[1..]);
    }
  }

  /** Every sequence of octets is a list of attributes followed by nothing or by something that is not one. */
  lemma {:induction false} ParseSplit(b: Bytes) returns (ts: seq<Tlv>, rest: Bytes)
    ensures (forall i :: 0 <= i < |ts| ==> ts[i].Valid()) && b == Flatten(ts) + rest && (rest == [] || Stuck(rest))
    decreases |b|
  {
    hide Padded, Get16, Put16, Tlv.Octets, CompatType;
    ts, rest := [], b;
    if b != [] && !Stuck(b) {
      var t := FrontOctets(b);
      var more;
      more, rest := ParseSplit(b[4 + Padded(|t.value|)..]);
      ts := [t] + more;
      assert ts[1..] == more;
      Associates(t.Octets(), Flatten(more), rest);
    }
  }

  lemma {:induction false} ParseSize(b: Bytes)
    requires ParseAttrs(b).err.None?
    ensures AttrsSize(ParseAttrs(b).attrs) == |b|
    decreases |b|
  {
    if b != [] {
      var len := Get16(b, 2);
      ParseSize(b[4 + Padded(len)..]);
      var attrs := ParseAttrs(b).attrs;
      assert attrs[1..] == ParseAttrs(b[4 + Padded(len)..]).attrs;
    }
  }

  function Body(raw: Bytes): Bytes
    requires |raw| >= HEADER_SIZE && |raw| >= HEADER_SIZE + Get16(raw, 2)
  {
    raw[20..20 + Get16(raw, 2)]
  }

  lemma {:induction false} SizeMultipleOfFour(attrs: seq<Attr>)
    ensures AttrsSize(attrs) % 4 == 0
  {
    if attrs != [] {
      SizeMultipleOfFour(attrs[1..]);
    }
  }

  ghost predicate WellFormed(raw: Bytes) {
    && |raw| >= HEADER_SIZE
    && raw[4..8] == Put32(COOKIE)
    && |raw| >= HEADER_SIZE + Get16(raw, 2)
    && exists ts: seq<Tlv> :: IsBody(Body(raw), ts)
  }

  /** A buffer decodes exactly when it holds a header with the cookie, the declared size is there
      and the body splits into attributes with nothing left over. The split is then the result,
      whatever the padding held, and the declared size is what its attributes take. */
  lemma DecodeIff(raw: Bytes)
    ensures DecodeSpec(raw).Ok() <==> WellFormed(raw)
    ensures WellFormed(raw) ==>
              forall ts :: IsBody(Body(raw), ts) ==> DecodeSpec(raw).body.attrs == Meanings(ts)
    ensures DecodeSpec(raw).Ok() ==>
              && DecodeSpec(raw).size % 4 == 0
              && DecodeSpec(raw).size == AttrsSize(DecodeSpec(raw).body.attrs)
  {
    hide ParseAttrs, Flatten, AttrsSize, Padded, Put16, Get32;
    if |raw| >= HEADER_SIZE && |raw| >= HEADER_SIZE + Get16(raw, 2) {
      Get32Unique(raw, 4, COOKIE);
      var body := Body(raw);
      if ParseAttrs(body).err.None? {
        var ts := ParseSound(body);
        ParseSize(body);
        SizeMultipleOfFour(ParseAttrs(body).attrs);
      }
      forall ts | IsBody(body, ts)
        ensures ParseAttrs(body) == Parse(Meanings(ts), None)
      {
        ParseComplete(ts);
      }
    }
  }

  /** Which buffers are refused, for what, and what is read of the others. */
  lemma DecodeHeader(raw: Bytes)
    ensures DecodeSpec(raw) == Refused(HeaderEof) <==> |raw| < 20
    ensures DecodeSpec(raw) == Refused(BadCookie) <==> |raw| >= 20 && raw[4..8] != [0x21, 0x12, 0xA4, 0x42]
    ensures DecodeSpec(raw) == Refused(MessageEof) <==>
              |raw| >= 20 && raw[4..8] == [0x21, 0x12, 0xA4, 0x42] && |raw| < 20 + (raw[2] as int) * 256 + raw[3]
    ensures var d := DecodeSpec(raw);
            d.Read? ==> d.typ == Deinterleave(((raw[0] as int) * 256 + raw[1]) as bv16) && d.size == (raw[2] as int) * 256 + raw[3] && d.tid == raw[8..20]
  {
    hide ParseAttrs;
    if |raw| >= 20 {
      Get32Unique(raw, 4, COOKIE);
      assert Put32(COOKIE) == [0x21, 0x12, 0xA4, 0x42];
    }
  }

  /** Only the number that XOR-MAPPED-ADDRESS had before the standard is read as another, the current one. */
  lemma OnlyOldNumberReplaced(t: uint16)
    ensures CompatType(t) == if t == 0x8020 then 0x0020 else t
  {
  }

  /** Every octet of an attribute: type and length with the high octet first, the value, and zeros up to a multiple of
      four. */
  lemma AttrOctets(a: Attr, i: nat)
    requires i < |EncodeAttr(a)|
    ensures EncodeAttr(a)[i] ==
            if i == 0 then a.typ / 256 else if i == 1 then a.typ % 256
            else if i == 2 then |a.value| % 0x1_0000 / 256 else if i == 3 then |a.value| % 0x1_0000 % 256
            else if i < 4 + |a.value| then a.value[i - 4] else 0
  {
    hide Padded;
  }

  lemma AttrLength(a: Attr)
    ensures |EncodeAttr(a)| % 4 == 0 && 4 + |a.value| <= |EncodeAttr(a)| < 8 + |a.value|
  {
    hide EncodeAttr;
  }

  /** Every octet of a header. */
  lemma HeaderOctets(typ: MessageType, size: nat, tid: TxId, i: nat)
    requires i < 20
    ensures Header(typ, size, tid)[i] ==
            if i == 0 then Value(typ) / 256 else if i == 1 then Value(typ) % 256
            else if i == 2 then size % 0x1_0000 / 256 else if i == 3 then size % 0x1_0000 % 256
            else if i < 8 then [0x21, 0x12, 0xA4, 0x42][i - 4] else tid[i - 8]
  {
    hide Value;
    assert Put32(COOKIE) == [0x21, 0x12, 0xA4, 0x42];
  }

  lemma HeaderExample()
    ensures Header(MessageType(1, 0), 8, [1, 2, 3, 4, 5, 6, 7, 8, 9, 10, 11, 12])
         == [0, 1, 0, 8, 0x21, 0x12, 0xA4, 0x42, 1, 2, 3, 4, 5, 6, 7, 8, 9, 10, 11, 12]
  {
    BindingWords();
    hide Interleave;
    assert Put16(Value(MessageType(1, 0))) == [0, 1] && Put16(8) == [0, 8] && Put32(COOKIE) == [0x21, 0x12, 0xA4, 0x42];
  }

  lemma AttrExample()
    ensures EncodeAttrs([Attr(0x8022, [97, 98, 99])]) == [0x80, 0x22, 0, 3, 97, 98, 99, 0]
  {
    EncodeOne(Attr(0x8022, [97, 98, 99]));
    assert Put16(0x8022) == [0x80, 0x22] && Put16(3) == [0, 3] && Zeros(1) == [0];
  }

  /** A Binding request with a SOFTWARE attribute of three octets. */
  lemma PrintExample()
    ensures Print(Msg(MessageType(1, 0), [1, 2, 3, 4, 5, 6, 7, 8, 9, 10, 11, 12], [Attr(0x8022, [97, 98, 99])]))
         == [0, 1, 0, 8, 0x21, 0x12, 0xA4, 0x42, 1, 2, 3, 4, 5, 6, 7, 8, 9, 10, 11, 12, 0x80, 0x22, 0, 3, 97, 98, 99, 0]
  {
    hide Header, EncodeAttr, Interleave;
    HeaderExample();
    AttrExample();
  }

  // Printing then reading.

  function CompatAll(attrs: seq<Attr>): (r: seq<Attr>)
    ensures |r| == |attrs|
    ensures forall i :: 0 <= i < |attrs| ==> r[i] == Attr(CompatType(attrs[i].typ), attrs[i].value)
  {
    seq(|attrs|, i requires 0 <= i < |attrs| => Attr(CompatType(attrs[i].typ), attrs[i].value))
  }

  function ToTlvs(attrs: seq<Attr>): (r: seq<Tlv>)
    ensures |r| == |attrs|
  {
    seq(|attrs|, i requires 0 <= i < |attrs| => ToTlv(attrs[i]))
  }

  lemma {:induction false} EncodeIsFlatten(attrs: seq<Attr>)
    ensures EncodeAttrs(attrs) == Flatten(ToTlvs(attrs))
  {
    if attrs != [] {
      EncodeIsFlatten(attrs[1..]);
      assert ToTlvs(attrs)[1..] == ToTlvs(attrs[1..]);
    }
  }

  lemma ParseEncoded(attrs: seq<Attr>)
    requires forall i :: 0 <= i < |attrs| ==> |attrs[i].value| < 0x1_0000
    ensures ParseAttrs(EncodeAttrs(attrs)) == Parse(CompatAll(attrs), None)
  {
    EncodeIsFlatten(attrs);
    ParseComplete(ToTlvs(attrs));
    assert Meanings(ToTlvs(attrs)) == CompatAll(attrs);
  }

  lemma {:induction false} ValueWithin(attrs: seq<Attr>, i: nat)
    requires i < |attrs|
    ensures AttrSize(attrs[i]) <= AttrsSize(attrs)
  {
    if i > 0 {
      ValueWithin(attrs[1..], i - 1);
    }
  }

  lemma HeaderFields(typ: MessageType, size: nat, tid: TxId, rest: Bytes)
    ensures var raw := Header(typ, size, tid) + rest;
            && Get16(raw, 0) == Value(typ)
            && Get16(raw, 2) == size % 0x1_0000
            && Get32(raw, 4) == COOKIE
            && raw[8..20] == tid
  {
    var raw := Header(typ, size, tid) + rest;
    Get16Unique(raw, 0, Value(typ));
    Get16Unique(raw, 2, size % 0x1_0000);
    Get32Unique(raw, 4, COOKIE);
    assert raw[4..8] == Put32(COOKIE);
  }

  /** What the wire keeps of a message whose attributes fit the 16-bit length field. */
  lemma DecodePrinted(m: Msg, trailing: Bytes)
    requires AttrsSize(m.attrs) < 0x1_0000
    ensures DecodeSpec(Print(m) + trailing)
         == Read(ReadValue(Value(m.typ)), AttrsSize(m.attrs), m.tid, Parse(CompatAll(m.attrs), None))
  {
    hide ParseAttrs, EncodeAttrs, AttrsSize, CompatAll, Get16, Get32;
    var raw, size := Print(m) + trailing, AttrsSize(m.attrs);
    assert raw == Header(m.typ, size, m.tid) + (EncodeAttrs(m.attrs) + trailing);
    HeaderFields(m.typ, size, m.tid, EncodeAttrs(m.attrs) + trailing);
    assert Body(raw) == EncodeAttrs(m.attrs);
    ParsePrinted(m.attrs);
  }

  lemma ParsePrinted(attrs: seq<Attr>)
    requires AttrsSize(attrs) < 0x1_0000
    ensures ParseAttrs(EncodeAttrs(attrs)) == Parse(CompatAll(attrs), None)
  {
    forall i | 0 <= i < |attrs| ensures |attrs[i].value| < 0x1_0000 {
      ValueWithin(attrs, i);
    }
    ParseEncoded(attrs);
  }

  predicate Representable(m: Msg) {
    && m.typ.InRange()
    && AttrsSize(m.attrs) < 0x1_0000
    && forall i :: 0 <= i < |m.attrs| ==> m.attrs[i].typ != OLD_XOR_MAPPED
  }

  ghost predicate SurvivesWire(m: Msg) {
    var d := DecodeSpec(Print(m));
    d.Ok() && d.size == AttrsSize(m.attrs) && d.Message() == m
  }

  /** Printing then decoding gives the message back exactly when the type has 14 bits, the
      attributes fit in 16 bits of length and none uses the renumbered type. */
  lemma RoundTripIff(m: Msg)
    ensures SurvivesWire(m) <==> Representable(m)
  {
    assert Print(m) + [] == Print(m);
    TypeRoundTrip(m.typ);
    if AttrsSize(m.attrs) < 0x1_0000 {
      DecodePrinted(m, []);
      var c := CompatAll(m.attrs);
      if forall i :: 0 <= i < |m.attrs| ==> m.attrs[i].typ != OLD_XOR_MAPPED {
        assert c == m.attrs;
      } else {
        var i :| 0 <= i < |m.attrs| && m.attrs[i].typ == OLD_XOR_MAPPED;
        assert c[i] != m.attrs[i];
      }
    }
  }

  // Appending.

  lemma TailOfAppend<T>(a: seq<T>, b: seq<T>)
    requires a != []
    ensures (a + b)[0] == a[0] && (a + b)[1..] == a[1..] + b
  {
  }

  lemma {:induction false} EncodeAppend(a: seq<Attr>, b: seq<Attr>)
    ensures EncodeAttrs(a + b) == EncodeAttrs(a) + EncodeAttrs(b)
    ensures AttrsSize(a + b) == AttrsSize(a) + AttrsSize(b)
  {
    if a == [] {
      assert a + b == b;
    } else {
      EncodeAppend(a[1..], b);
      TailOfAppend(a, b);
      Associates(EncodeAttr(a[0]), EncodeAttrs(a[1..]), EncodeAttrs(b));
    }
  }

  lemma EncodeOne(a: Attr)
    ensures EncodeAttrs([a]) == EncodeAttr(a)
    ensures AttrsSize([a]) == AttrSize(a)
  {
  }

  lemma EncodeSnoc(attrs: seq<Attr>, a: Attr)
    ensures EncodeAttrs(attrs + [a]) == EncodeAttrs(attrs) + EncodeAttr(a)
    ensures AttrsSize(attrs + [a]) == AttrsSize(attrs) + AttrSize(a)
  {
    EncodeAppend(attrs, [a]);
    EncodeOne(a);
  }

  // The length field.

  lemma SetLengthTwice(view: Bytes, size: nat, size': nat)
    requires |view| >= 4
    ensures SetLength(SetLength(view, size), size') == SetLength(view, size')
  {
  }

  lemma SetLengthAppend(view: Bytes, size: nat, more: Bytes)
    requires |view| >= 4
    ensures SetLength(view + more, size) == SetLength(view, size) + more
  {
  }

  lemma HeaderLength(typ: MessageType, size: nat, size': nat, tid: TxId, rest: Bytes)
    ensures SetLength(Header(typ, size, tid) + rest, size') == Header(typ, size', tid) + rest
  {
  }

  /** `raw` with an attribute after a body of `length` octets, in place of whatever followed it, and the new
      length in the header. */
  function Extend(raw: Bytes, length: nat, a: Attr): (r: Bytes)
    requires HEADER_SIZE + length <= |raw|
    ensures |r| == HEADER_SIZE + length + AttrSize(a)
  {
    SetLength(raw[..HEADER_SIZE + length] + EncodeAttr(a), length + AttrSize(a))
  }

  lemma ExtendWhole(raw: Bytes, length: nat, a: Attr)
    requires |raw| == HEADER_SIZE + length
    ensures Extend(raw, length, a) == SetLength(raw + EncodeAttr(a), length + AttrSize(a))
  {
    assert raw[..HEADER_SIZE + length] == raw;
  }

  // Attributes by type.

  /** The index of the first attribute of type `t`, or the number of attributes if there is none. */
  function First(attrs: seq<Attr>, t: uint16): (i: nat)
    ensures i <= |attrs| && (i < |attrs| ==> attrs[i].typ == t)
    ensures forall j :: 0 <= j < i ==> attrs[j].typ != t
  {
    if attrs == [] || attrs[0].typ == t then 0 else 1 + First(attrs[1..], t)
  }

  predicate Has(attrs: seq<Attr>, t: uint16) {
    First(attrs, t) < |attrs|
  }

  function FirstValue(attrs: seq<Attr>, t: uint16): Option<Bytes> {
    if Has(attrs, t) then Some(attrs[First(attrs, t)].value) else None
  }

  lemma FirstUnique(attrs: seq<Attr>, t: uint16, i: nat)
    requires i < |attrs| && attrs[i].typ == t && forall j :: 0 <= j < i ==> attrs[j].typ != t
    ensures First(attrs, t) == i
  {
  }
}
