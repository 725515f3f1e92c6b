/** XOR-MAPPED-ADDRESS and MAPPED-ADDRESS: sections 15.2 and 15.1 of RFC 5389. */
module Addresses {
  import opened Base
  import opened Wire
  import opened Slices
  import opened Buffers
  import opened AttributeLists
  import opened Messages

  const FAMILY_IPV4: uint16 := 1
  const FAMILY_IPV6: uint16 := 2
  const COOKIE_HIGH: uint16 := 0x2112

  // Writing.

  /** A 16-octet address that maps an IPv4 one. */
  predicate IsMappedIPv4(ip: Bytes)
    requires |ip| == 16
  {
    ip[..10] == Zeros(10) && ip[10] == 0xff && ip[11] == 0xff
  }

  /** The octets that travel, if the length is that of an address. */
  function WireIP(ip: Bytes): Option<Bytes> {
    if |ip| == 16 then Some(if IsMappedIPv4(ip) then ip[12..16] else ip)
    else if |ip| == 4 then Some(ip)
    else None
  }

  function Family(ip: Bytes): uint16 {
    if |ip| == 16 then FAMILY_IPV6 else FAMILY_IPV4
  }

  /** The cookie followed by the transaction id. */
  function XorKey(tid: TxId): (r: Bytes)
    ensures |r| == 16
  {
    Put32(COOKIE) + tid
  }

  /** Only 16 bits of the port travel. */
  function XorValue(ip: Bytes, port: int, tid: TxId): Bytes {
    Put16(Family(ip)) + Put16(Xor16(port % 0x1_0000, COOKIE_HIGH)) + XorBytes(ip, XorKey(tid))
  }

  function PlainValue(ip: Bytes, port: int): Bytes {
    Put16(Family(ip)) + Put16(port % 0x1_0000) + ip
  }

  // Reading.

  datatype Reading = Address(ip: Bytes, port: uint16) | AttributeMissing | BadFamily | UnexpectedEof | SizeOverflow

  function IPLength(family: uint16): nat {
    if family == FAMILY_IPV6 then 16 else 4
  }

  /** `b` cut or filled up with zeros to `n` octets. */
  function Fit(b: Bytes, n: nat): (r: Bytes)
    ensures |r| == n
  {
    if |b| >= n then b[..n] else b + Zeros(n - |b|)
  }

  function ReadXor(value: Bytes, tid: TxId): Reading
    requires |value| >= 2
  {
    var family := Get16(value, 0);
    if family != FAMILY_IPV6 && family != FAMILY_IPV4 then BadFamily
    else if |value| <= 4 then UnexpectedEof
    else if |value| - 4 > IPLength(family) then SizeOverflow
    else Address(Fit(XorBytes(value[4..], XorKey(tid)), IPLength(family)), Xor16(Get16(value, 2), COOKIE_HIGH))
  }

  function ReadPlain(value: Bytes): Reading {
    if |value| <= 4 then UnexpectedEof
    else
      var family := Get16(value, 0);
      if family != FAMILY_IPV6 && family != FAMILY_IPV4 then BadFamily
      else Address(Fit(value[4..], IPLength(family)), Get16(value, 2))
  }

  // Octet by octet.

  /** An address of 4 or 16 octets travels as it is, but for a mapped IPv4 one: ten zeros, two octets of ones and the
      four that travel. */
  lemma WireIPCases(ip: Bytes)
    ensures WireIP(ip) ==
            if |ip| == 4 then Some(ip)
            else if |ip| != 16 then None
            else if (forall i :: 0 <= i < 10 ==> ip[i] == 0) && ip[10] == 0xff && ip[11] == 0xff then Some([ip[12], ip[13], ip[14], ip[15]])
            else Some(ip)
  {
    if |ip| == 16 {
      assert ip[..10] == Zeros(10) <==> forall i :: 0 <= i < 10 ==> ip[i] == 0;
      assert ip[12..16] == [ip[12], ip[13], ip[14], ip[15]];
    }
  }

  /** The cookie and the id, as they stand in the header of a message. */
  lemma KeyInHeader(m: Msg)
    ensures |Print(m)| >= 20 && Print(m)[4..20] == XorKey(m.tid) && Put16(COOKIE_HIGH) == Print(m)[4..6]
  {
    hide Put16, AttrsSize, EncodeAttrs;
    assert Print(m)[4..8] == Put32(COOKIE);
    assert Print(m)[4..20] == Put32(COOKIE) + m.tid;
    HighOfCookie();
    assert Print(m)[4..6] == Put32(COOKIE)[..2];
  }

  lemma HighOfCookie()
    ensures Put16(COOKIE_HIGH) == Put32(COOKIE)[..2]
  {
  }

  /** Family, port and address stand in this order, the port and the address each combined with the octets of the
      header that follow its length field. */
  lemma XorOctets(m: Msg, ip: Bytes, port: int)
    requires |ip| == 4 || |ip| == 16
    ensures var v, p := XorValue(ip, port, m.tid), port % 0x1_0000;
            && |v| == 4 + |ip| && v[0] == 0 && v[1] == (if |ip| == 4 then 1 else 2) && |Print(m)| >= 20
            && v[2] == Xor8(p / 256, Print(m)[4]) && v[3] == Xor8(p % 256, Print(m)[5])
            && forall i :: 0 <= i < |ip| ==> v[4 + i] == Xor8(ip[i], Print(m)[4 + i])
  {
    hide Print, Xor8, Xor16, XorKey;
    KeyInHeader(m);
    Xor16Octets(port % 0x1_0000, COOKIE_HIGH);
    var v := XorValue(ip, port, m.tid);
    forall i | 0 <= i < |ip| ensures v[4 + i] == Xor8(ip[i], Print(m)[4 + i]) {
      assert Print(m)[4..20][i] == Print(m)[4 + i];
    }
    assert Print(m)[4..6][0] == Print(m)[4] && Print(m)[4..6][1] == Print(m)[5];
  }

  /** Which values are read, for what the others are refused, and each octet of what is read. */
  lemma ReadXorOctets(m: Msg, value: Bytes)
    requires |value| >= 2
    ensures var known := value[0] == 0 && (value[1] == 1 || value[1] == 2);
            var len := if value[1] == 2 then 16 else 4;
            var r := ReadXor(value, m.tid);
            && (r == BadFamily <==> !known)
            && (r == UnexpectedEof <==> known && |value| <= 4)
            && (r == SizeOverflow <==> known && |value| > 4 + len)
            && (r.Address? <==> known && 4 < |value| <= 4 + len)
            && (r.Address? ==>
                  && |r.ip| == len && |Print(m)| >= 20
                  && r.port / 256 == Xor8(value[2], Print(m)[4]) && r.port % 256 == Xor8(value[3], Print(m)[5])
                  && forall i :: 0 <= i < len ==> r.ip[i] == if 4 + i < |value| then Xor8(value[4 + i], Print(m)[4 + i]) else 0)
  {
    hide Print, Xor8, Xor16, XorKey;
    KeyInHeader(m);
    var r := ReadXor(value, m.tid);
    if r.Address? {
      Xor16Octets(Get16(value, 2), COOKIE_HIGH);
      assert Print(m)[4..6][0] == Print(m)[4] && Print(m)[4..6][1] == Print(m)[5];
      forall i | 0 <= i < |r.ip| ensures r.ip[i] == if 4 + i < |value| then Xor8(value[4 + i], Print(m)[4 + i]) else 0 {
        assert Print(m)[4..20][i] == Print(m)[4 + i];
      }
    }
  }

  lemma PlainOctets(ip: Bytes, port: int)
    requires |ip| == 4 || |ip| == 16
    ensures var p := port % 0x1_0000; PlainValue(ip, port) == [0, if |ip| == 4 then 1 else 2, p / 256, p % 256] + ip
  {
  }

  /** The same for MAPPED-ADDRESS, where octets that do not fit are dropped. */
  lemma ReadPlainOctets(value: Bytes)
    ensures |value| <= 4 ==> ReadPlain(value) == UnexpectedEof
    ensures |value| > 4 ==>
              var known := value[0] == 0 && (value[1] == 1 || value[1] == 2);
              var len := if value[1] == 2 then 16 else 4;
              var r := ReadPlain(value);
              && (r == BadFamily <==> !known) && (r.Address? <==> known)
              && (known ==>
                    && |r.ip| == len && r.port == (value[2] as int) * 256 + value[3]
                    && forall i :: 0 <= i < len ==> r.ip[i] == if 4 + i < |value| then value[4 + i] else 0)
  {
  }

  /** 192.0.2.1, port 32853. */
  lemma XorExample(tid: TxId)
    ensures XorValue([192, 0, 2, 1], 32853, tid) == [0, 1, 0xa1, 0x47, 0xe1, 0x12, 0xa6, 0x43]
    ensures ReadXor([0, 1, 0xa1, 0x47, 0xe1, 0x12, 0xa6, 0x43], tid) == Address([192, 0, 2, 1], 32853)
  {
    ExampleOctets();
    hide Xor8, Xor16;
    Xor16Octets(32853, COOKIE_HIGH);
    var v := XorValue([192, 0, 2, 1], 32853, tid);
    assert Put32(COOKIE) == [0x21, 0x12, 0xA4, 0x42];
    assert v == [0, 1, 0xa1, 0x47, 0xe1, 0x12, 0xa6, 0x43];
    XorRoundTrip([192, 0, 2, 1], 32853, tid);
  }

  /** The six octets of the example, each bit by bit from the highest. */
  lemma ExampleOctets()
    ensures Xor8(0x80, 0x21) == 0xa1 && Xor8(0x55, 0x12) == 0x47
    ensures Xor8(192, 0x21) == 0xe1 && Xor8(0, 0x12) == 0x12 && Xor8(2, 0xA4) == 0xa6 && Xor8(1, 0x42) == 0x43
  {
    hide Xor;
    ExampleOctet0();
    ExampleOctet1();
    ExampleOctet2();
    ExampleOctet3();
    ExampleOctet4();
    ExampleOctet5();
  }

  /** One more low bit of two numbers and of their exclusive-or. */
  lemma XorNext(a: nat, b: nat, r: nat, n: nat, a': nat, b': nat, r': nat)
    requires Xor(a, b, n) == r && a' / 2 == a && b' / 2 == b && r' == 2 * r + (a' % 2 + b' % 2) % 2
    ensures Xor(a', b', n + 1) == r'
  {
  }

  lemma ExampleOctet0()
    ensures Xor(128, 33, 8) == 161
  {
    hide Xor;
    XorNone(0, 0);
    XorNext(0, 0, 0, 0, 1, 0, 1);
    XorNext(1, 0, 1, 1, 2, 0, 2);
    XorNext(2, 0, 2, 2, 4, 1, 5);
    XorNext(4, 1, 5, 3, 8, 2, 10);
    XorNext(8, 2, 10, 4, 16, 4, 20);
    XorNext(16, 4, 20, 5, 32, 8, 40);
    XorNext(32, 8, 40, 6, 64, 16, 80);
    XorNext(64, 16, 80, 7, 128, 33, 161);
  }

  lemma ExampleOctet1()
    ensures Xor(85, 18, 8) == 71
  {
    hide Xor;
    XorNone(0, 0);
    XorNext(0, 0, 0, 0, 0, 0, 0);
    XorNext(0, 0, 0, 1, 1, 0, 1);
    XorNext(1, 0, 1, 2, 2, 0, 2);
    XorNext(2, 0, 2, 3, 5, 1, 4);
    XorNext(5, 1, 4, 4, 10, 2, 8);
    XorNext(10, 2, 8, 5, 21, 4, 17);
    XorNext(21, 4, 17, 6, 42, 9, 35);
    XorNext(42, 9, 35, 7, 85, 18, 71);
  }

  lemma ExampleOctet2()
    ensures Xor(192, 33, 8) == 225
  {
    hide Xor;
    XorNone(0, 0);
    XorNext(0, 0, 0, 0, 1, 0, 1);
    XorNext(1, 0, 1, 1, 3, 0, 3);
    XorNext(3, 0, 3, 2, 6, 1, 7);
    XorNext(6, 1, 7, 3, 12, 2, 14);
    XorNext(12, 2, 14, 4, 24, 4, 28);
    XorNext(24, 4, 28, 5, 48, 8, 56);
    XorNext(48, 8, 56, 6, 96, 16, 112);
    XorNext(96, 16, 112, 7, 192, 33, 225);
  }

  lemma ExampleOctet3()
    ensures Xor(0, 18, 8) == 18
  {
    hide Xor;
    XorNone(0, 0);
    XorNext(0, 0, 0, 0, 0, 0, 0);
    XorNext(0, 0, 0, 1, 0, 0, 0);
    XorNext(0, 0, 0, 2, 0, 0, 0);
    XorNext(0, 0, 0, 3, 0, 1, 1);
    XorNext(0, 1, 1, 4, 0, 2, 2);
    XorNext(0, 2, 2, 5, 0, 4, 4);
    XorNext(0, 4, 4, 6, 0, 9, 9);
    XorNext(0, 9, 9, 7, 0, 18, 18);
  }

  lemma ExampleOctet4()
    ensures Xor(2, 164, 8) == 166
  {
    hide Xor;
    XorNone(0, 0);
    XorNext(0, 0, 0, 0, 0, 1, 1);
    XorNext(0, 1, 1, 1, 0, 2, 2);
    XorNext(0, 2, 2, 2, 0, 5, 5);
    XorNext(0, 5, 5, 3, 0, 10, 10);
    XorNext(0, 10, 10, 4, 0, 20, 20);
    XorNext(0, 20, 20, 5, 0, 41, 41);
    XorNext(0, 41, 41, 6, 1, 82, 83);
    XorNext(1, 82, 83, 7, 2, 164, 166);
  }

  lemma ExampleOctet5()
    ensures Xor(1, 66, 8) == 67
  {
    hide Xor;
    XorNone(0, 0);
    XorNext(0, 0, 0, 0, 0, 0, 0);
    XorNext(0, 0, 0, 1, 0, 1, 1);
    XorNext(0, 1, 1, 2, 0, 2, 2);
    XorNext(0, 2, 2, 3, 0, 4, 4);
    XorNext(0, 4, 4, 4, 0, 8, 8);
    XorNext(0, 8, 8, 5, 0, 16, 16);
    XorNext(0, 16, 16, 6, 0, 33, 33);
    XorNext(0, 33, 33, 7, 1, 66, 67);
  }

  // Round trips.

  lemma ValueFields(family: uint16, port: uint16, ip: Bytes)
    ensures var v := Put16(family) + Put16(port) + ip;
            Get16(v, 0) == family && Get16(v, 2) == port && v[4..] == ip
  {
    var v := Put16(family) + Put16(port) + ip;
    assert v[0..2] == Put16(family) && v[2..4] == Put16(port);
    Get16Unique(v, 0, family);
    Get16Unique(v, 2, port);
  }

  /** Reading back what was written gives the address that travels and the low 16 bits of the port. */
  lemma XorRoundTrip(ip: Bytes, port: int, tid: TxId)
    requires |ip| == 4 || |ip| == 16
    ensures ReadXor(XorValue(ip, port, tid), tid) == Address(ip, port % 0x1_0000)
  {
    hide Put16, Get16, XorBytes, Xor16, XorKey;
    var p: uint16 := port % 0x1_0000;
    ValueFields(Family(ip), Xor16(p, COOKIE_HIGH), XorBytes(ip, XorKey(tid)));
    Xor16Involutive(p, COOKIE_HIGH);
    XorBytesInvolutive(ip, XorKey(tid));
  }

  lemma PlainRoundTrip(ip: Bytes, port: int)
    requires |ip| == 4 || |ip| == 16
    ensures ReadPlain(PlainValue(ip, port)) == Address(ip, port % 0x1_0000)
  {
    hide Put16, Get16;
    ValueFields(Family(ip), port % 0x1_0000, ip);
  }

  /** A decoder of these octets finds this id, and this value in the first attribute of the type. */
  ghost predicate Arrives(raw: Bytes, t: uint16, value: Bytes, tid: TxId) {
    var d := DecodeSpec(raw);
    d.Ok() && d.tid == tid && FirstValue(d.body.attrs, t) == Some(value)
  }

  /** An attribute added behind others of other types is the one a decoder finds, under its own type or
      under the type that replaced it. */
  lemma ReceivedAsSent(m: Msg, t: uint16, value: Bytes)
    requires AttrsSize(m.attrs + [Attr(t, value)]) < 0x1_0000
    requires forall i :: 0 <= i < |m.attrs| ==> CompatType(m.attrs[i].typ) != CompatType(t)
    ensures Arrives(Print(m.(attrs := m.attrs + [Attr(t, value)])), CompatType(t), value, m.tid)
  {
    hide AttrsSize, ParseAttrs, Print;
    var full := m.(attrs := m.attrs + [Attr(t, value)]);
    assert Print(full) + [] == Print(full);
    DecodePrinted(full, []);
    FirstUnique(CompatAll(full.attrs), CompatType(t), |m.attrs|);
  }

  /** An XOR-MAPPED-ADDRESS written for any address length the source accepts comes back over the wire. */
  lemma XorOverTheWire(m: Msg, t: uint16, ip: Bytes, port: int)
    requires WireIP(ip).Some?
    requires var v := XorValue(WireIP(ip).value, port, m.tid); AttrsSize(m.attrs + [Attr(t, v)]) < 0x1_0000
    requires forall i :: 0 <= i < |m.attrs| ==> CompatType(m.attrs[i].typ) != CompatType(t)
    ensures var v := XorValue(WireIP(ip).value, port, m.tid);
            && Arrives(Print(m.(attrs := m.attrs + [Attr(t, v)])), CompatType(t), v, m.tid)
            && |v| >= 2 && ReadXor(v, m.tid) == Address(WireIP(ip).value, port % 0x1_0000)
  {
    hide AttrsSize, Print, Arrives, ReadXor;
    XorRoundTrip(WireIP(ip).value, port, m.tid);
    ReceivedAsSent(m, t, XorValue(WireIP(ip).value, port, m.tid));
  }

  lemma PlainOverTheWire(m: Msg, t: uint16, ip: Bytes, port: int)
    requires WireIP(ip).Some?
    requires var v := PlainValue(WireIP(ip).value, port); AttrsSize(m.attrs + [Attr(t, v)]) < 0x1_0000
    requires forall i :: 0 <= i < |m.attrs| ==> CompatType(m.attrs[i].typ) != CompatType(t)
    ensures var v := PlainValue(WireIP(ip).value, port);
            && Arrives(Print(m.(attrs := m.attrs + [Attr(t, v)])), CompatType(t), v, m.tid)
            && ReadPlain(v) == Address(WireIP(ip).value, port % 0x1_0000)
  {
    hide AttrsSize, Print, Arrives, ReadPlain;
    PlainRoundTrip(WireIP(ip).value, port);
    ReceivedAsSent(m, t, PlainValue(WireIP(ip).value, port));
  }

  // The steps that write.

  method IsZeros(p: Bytes) returns (b: bool)
    ensures b <==> p == Zeros(|p|)
  {
    for i := 0 to |p|
      invariant forall j :: 0 <= j < i ==> p[j] == 0
    {
      if p[i] != 0 {
        assert p[i] != Zeros(|p|)[i];
        return false;
      }
    }
    assert p == Zeros(|p|);
    b := true;
  }

  method ChooseIP(ip: Bytes) returns (r: Option<Bytes>)
    ensures r == WireIP(ip)
  {
    if |ip| == 16 {
      var zeros := IsZeros(ip[0..10]);
      assert ip[0..10] == ip[..10];
      r := Some(if zeros && ip[10] == 0xff && ip[11] == 0xff then ip[12..16] else ip);
    } else {
      r := if |ip| != 4 then None else Some(ip);
    }
  }

  /** Family, port and address octets, one after the other, in a large enough scratch buffer. */
  method FillValue(family: uint16, port: uint16, ip: Bytes) returns (value: Slice<byte>)
    requires |ip| <= 16
    ensures value.Valid() && fresh(value.arr) && value.View() == Put16(family) + Put16(port) + ip
  {
    hide Put16;
    value := FromBytes(Zeros(160));
    ghost var mem := value.arr[..];
    Poke(value, 0, Put16(family));
    Poke(value, 2, Put16(port));
    SpliceSplice(mem, value.off, Put16(family), Put16(port));
    Poke(value, 4, ip);
    SpliceSplice(mem, value.off, Put16(family) + Put16(port), ip);
    SpliceAt(mem, value.off, Put16(family) + Put16(port) + ip);
    value := value.Sub(0, 4 + |ip|);
  }

  method AddXor(msg: Message, t: uint16, ip: Bytes, port: int, ghost m: Msg, ghost keep: set<array<byte>>)
    returns (err: bool)
    requires msg.Backed(m) && (WireIP(ip).Some? ==> msg.length + ATTR_HEADER_SIZE + 4 + |WireIP(ip).value| < LENGTH_LIMIT)
    modifies msg, msg.raw.arr, msg.attributes.arr
    ensures err <==> WireIP(ip).None?
    ensures if err then msg.Backed(m) && msg.length == old(msg.length) && msg.raw.View() == old(msg.raw.View())
            else
              var a := Attr(t, XorValue(WireIP(ip).value, port, m.tid));
              && msg.Backed(m.(attrs := m.attrs + [a])) && msg.raw.View() == Extend(old(msg.raw.View()), old(msg.length), a)
              && (old(msg.Holds(m)) ==> msg.Holds(m.(attrs := m.attrs + [a])))
    ensures old(Avoids(msg.raw, msg.attributes.View(), keep)) ==> Avoids(msg.raw, msg.attributes.View(), keep)
    ensures (msg.raw.arr == old(msg.raw.arr) || fresh(msg.raw.arr)) && (msg.attributes.arr == old(msg.attributes.arr) || fresh(msg.attributes.arr))
  {
    hide Print, AttrsSize, Put16, Put32, XorBytes, Xor16, Extend, Ahead;
    var r := ChooseIP(ip);
    if r.None? {
      return true;
    }
    err := false;
    var key := Put32(COOKIE) + msg.transactionID;
    var value := FillValue(Family(r.value), Xor16(port % 0x1_0000, COOKIE_HIGH), XorBytes(r.value, key));
    assert Padded(value.len) == value.len;
    PrintedLength(m);
    msg.Add(t, value, m, keep);
  }

  method AddPlain(msg: Message, t: uint16, ip: Bytes, port: int, ghost m: Msg, ghost keep: set<array<byte>>)
    returns (err: bool)
    requires msg.Backed(m) && (WireIP(ip).Some? ==> msg.length + ATTR_HEADER_SIZE + 4 + |WireIP(ip).value| < LENGTH_LIMIT)
    modifies msg, msg.raw.arr, msg.attributes.arr
    ensures err <==> WireIP(ip).None?
    ensures if err then msg.Backed(m) && msg.length == old(msg.length) && msg.raw.View() == old(msg.raw.View())
            else
              var a := Attr(t, PlainValue(WireIP(ip).value, port));
              && msg.Backed(m.(attrs := m.attrs + [a])) && msg.raw.View() == Extend(old(msg.raw.View()), old(msg.length), a)
              && (old(msg.Holds(m)) ==> msg.Holds(m.(attrs := m.attrs + [a])))
    ensures old(Avoids(msg.raw, msg.attributes.View(), keep)) ==> Avoids(msg.raw, msg.attributes.View(), keep)
    ensures (msg.raw.arr == old(msg.raw.arr) || fresh(msg.raw.arr)) && (msg.attributes.arr == old(msg.attributes.arr) || fresh(msg.attributes.arr))
  {
    hide Print, AttrsSize, Put16, Extend, Ahead;
    var r := ChooseIP(ip);
    if r.None? {
      return true;
    }
    err := false;
    var value := FillValue(Family(r.value), port % 0x1_0000, r.value);
    assert Padded(value.len) == value.len;
    PrintedLength(m);
    msg.Add(t, value, m, keep);
  }

  // The steps that read, into an address that is reused.

  /** No octet of `s` or of its spare capacity is one of `v`. */
  predicate Beside(s: Slice<byte>, v: Slice<byte>) {
    s.arr != v.arr || s.off + s.cap <= v.off || v.off + v.len <= s.off
  }

  /** None is one of the message or of its values. */
  ghost predicate Outside(s: Slice<byte>, raw: Slice<byte>, list: seq<RawAttribute>) {
    Beside(s, raw) && forall i :: 0 <= i < |list| ==> Beside(s, list[i].value)
  }

  /** A window of `n` zero octets, in the same array if it has room. */
  method ZeroIP(s: Slice<byte>, n: nat) returns (r: Slice<byte>)
    requires s.Valid()
    modifies s.arr
    ensures r.Valid() && r.View() == Zeros(n) && r.len == n
    ensures r.Resliced(s) || fresh(r.arr)
    ensures forall k :: 0 <= k < s.arr.Length && !(s.off <= k < s.off + s.cap) ==> s.arr[k] == old(s.arr[k])
  {
    r := Lengthen(s, n);
    r := r.Sub(0, n);
    ghost var mem := r.arr[..];
    Clear(r);
    SpliceAt(mem, r.off, Zeros(n));
  }

  /** A window of at least `n` octets: all of the capacity, then one more at a time. */
  method Lengthen(s: Slice<byte>, n: nat) returns (r: Slice<byte>)
    requires s.Valid()
    ensures r.Valid() && r.len >= n && (r.Resliced(s) || fresh(r.arr))
  {
    r := s;
    if r.len < n {
      r := r.Sub(0, r.cap);
      while r.len < n
        invariant r.Valid() && ((r.Resliced(s) && r.len == r.cap) || fresh(r.arr))
        decreases n - r.len
      {
        r := AppendZero(r);
      }
    }
  }

  /** One more octet; the old array is written only if the capacity allows. */
  method AppendZero(s: Slice<byte>) returns (r: Slice<byte>)
    requires s.Valid()
    modifies if s.len < s.cap then {s.arr} else {}
    ensures r.Valid() && r.len == s.len + 1
    ensures if s.len < s.cap then r.Resliced(s) else fresh(r.arr)
  {
    if s.len < s.cap {
      r := Append(s, [0], 0);
    } else {
      r := Reallocate(s, s.len + 1, 0);
    }
  }

  /** Copies octets over zeros, as many as fit. */
  method CopyIP(r: Slice<byte>, octets: Bytes)
    requires r.Valid() && r.View() == Zeros(r.len)
    modifies r.arr
    ensures r.View() == Fit(octets, r.len)
    ensures forall k :: 0 <= k < r.arr.Length && !(r.off <= k < r.off + r.len) ==> r.arr[k] == old(r.arr[k])
  {
    ghost var mem := r.arr[..];
    Poke(r, 0, octets[..Min(r.len, |octets|)]);
    Stored(mem, r.off, r.len, octets);
  }

  lemma Stored(mem: Bytes, off: nat, n: nat, octets: Bytes)
    requires off + n <= |mem| && mem[off..off + n] == Zeros(n)
    ensures var k := Min(n, |octets|); Splice(mem, off, octets[..k])[off..off + n] == Fit(octets, n)
  {
    var k := Min(n, |octets|);
    var now := Splice(mem, off, octets[..k])[off..off + n];
    forall i | 0 <= i < n ensures now[i] == Fit(octets, n)[i] {
      assert mem[off..off + n][i] == mem[off + i];
    }
  }

  class MappedAddress {
    var ip: Slice<byte>
    var port: int

    constructor (ip: Slice<byte>, port: int)
      ensures this.ip == ip && this.port == port
    {
      this.ip, this.port := ip, port;
    }

    /** Takes the address from the first attribute of type `t`, whatever was here before. */
    method GetXor(msg: Message, t: uint16, ghost m: Msg) returns (r: Reading)
      requires msg.Carries(m) && ip.Valid() && Outside(ip, msg.raw, msg.attributes.View())
      requires var v := FirstValue(m.attrs, t); v.Some? ==> |v.value| >= 2
      modifies this, ip.arr
      ensures var v := FirstValue(m.attrs, t); r == if v.Some? then ReadXor(v.value, m.tid) else AttributeMissing
      ensures ip.Valid() && (r.Address? ==> ip.View() == r.ip && port == r.port)
      ensures msg.Carries(m) && msg.raw.View() == old(msg.raw.View())
    {
      hide AttrsSize, FirstValue, ReadXor, Ahead, Anchored;
      var v := msg.Get(t, m);
      if v.None? {
        return AttributeMissing;
      }
      ghost var was := ip;
      r := TakeXor(v.value, msg.transactionID);
      forall i | 0 <= i < |msg.attributes.View()| ensures ShowsOne(msg.attributes.View()[i], m.attrs[i]) {
        assert old(ShowsOne(msg.attributes.View()[i], m.attrs[i]));
        assert Beside(was, msg.attributes.View()[i].value);
      }
    }

    method GetPlain(msg: Message, t: uint16, ghost m: Msg) returns (r: Reading)
      requires msg.Carries(m) && ip.Valid() && Outside(ip, msg.raw, msg.attributes.View())
      modifies this, ip.arr
      ensures var v := FirstValue(m.attrs, t); r == if v.Some? then ReadPlain(v.value) else AttributeMissing
      ensures ip.Valid() && (r.Address? ==> ip.View() == r.ip && port == r.port)
      ensures msg.Carries(m) && msg.raw.View() == old(msg.raw.View())
    {
      hide AttrsSize, FirstValue, ReadPlain, Ahead, Anchored;
      var v := msg.Get(t, m);
      if v.None? {
        return AttributeMissing;
      }
      ghost var was := ip;
      r := TakePlain(v.value);
      forall i | 0 <= i < |msg.attributes.View()| ensures ShowsOne(msg.attributes.View()[i], m.attrs[i]) {
        assert old(ShowsOne(msg.attributes.View()[i], m.attrs[i]));
        assert Beside(was, msg.attributes.View()[i].value);
      }
    }

    method TakeXor(value: Bytes, tid: TxId) returns (r: Reading)
      requires ip.Valid() && |value| >= 2
      modifies this, ip.arr
      ensures forall k :: 0 <= k < old(ip.arr).Length && !(old(ip.off) <= k < old(ip.off + ip.cap)) ==> old(ip.arr)[k] == old(ip.arr[k])
      ensures r == ReadXor(value, tid)
      ensures ip.Valid() && (r.Address? ==> ip.View() == r.ip && port == r.port)
    {
      hide Get16, Put32, XorBytes, Xor16;
      var family := Get16(value, 0);
      if family != FAMILY_IPV6 && family != FAMILY_IPV4 {
        return BadFamily;
      }
      var ipLen := if family == FAMILY_IPV6 then 16 else 4;
      ip := ZeroIP(ip, ipLen);
      if |value| <= 4 {
        return UnexpectedEof;
      }
      if |value| - 4 > ip.len {
        return SizeOverflow;
      }
      port := Xor16(Get16(value, 2), COOKIE_HIGH);
      var key := Put32(COOKIE) + tid;
      CopyIP(ip, XorBytes(value[4..], key));
      r := Address(ip.View(), port);
    }

    method TakePlain(value: Bytes) returns (r: Reading)
      requires ip.Valid()
      modifies this, ip.arr
      ensures forall k :: 0 <= k < old(ip.arr).Length && !(old(ip.off) <= k < old(ip.off + ip.cap)) ==> old(ip.arr)[k] == old(ip.arr[k])
      ensures r == ReadPlain(value)
      ensures ip.Valid() && (r.Address? ==> ip.View() == r.ip && port == r.port)
    {
      hide Get16;
      if |value| <= 4 {
        return UnexpectedEof;
      }
      var family := Get16(value, 0);
      if family != FAMILY_IPV6 && family != FAMILY_IPV4 {
        return BadFamily;
      }
      var ipLen := if family == FAMILY_IPV6 then 16 else 4;
      ip := ZeroIP(ip, ipLen);
      port := Get16(value, 2);
      CopyIP(ip, value[4..]);
      r := Address(ip.View(), port);
    }
  }
}
