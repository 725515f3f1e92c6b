/** Building a message from setters in a buffer that was used before. */
module Builds {
  import opened Base
  import opened MessageTypes
  import opened Wire
  import opened Buffers
  import opened AttributeLists
  import opened Messages
  import opened Hmacs
  import opened IntegritySpec
  import opened Integrity
  import opened Addresses

  datatype Setter =
    | ToType(typ: MessageType)
    | ToId(tid: TxId)
    | Raw(t: uint16, value: Bytes)
    | XorAddress(t: uint16, ip: Bytes, port: int)
    | PlainAddress(t: uint16, ip: Bytes, port: int)
    | Sign(key: Bytes)
    | Stamp

  /** The message so far, and whether the last setter succeeded. */
  datatype Built = Built(m: Msg, ok: bool)

  function Extended(m: Msg, t: uint16, value: Bytes): Built {
    Built(m.(attrs := m.attrs + [Attr(t, value)]), true)
  }

  function ApplyOne<S>(h: Hash<S>, crc: Bytes -> uint32, m: Msg, s: Setter): Built {
    match s
    case ToType(typ) => Built(m.(typ := typ), true)
    case ToId(tid) => Built(m.(tid := tid), true)
    case Raw(t, value) => Extended(m, t, value)
    case XorAddress(t, ip, port) =>
      if WireIP(ip).None? then Built(m, false) else Extended(m, t, XorValue(WireIP(ip).value, port, m.tid))
    case PlainAddress(t, ip, port) =>
      if WireIP(ip).None? then Built(m, false) else Extended(m, t, PlainValue(WireIP(ip).value, port))
    case Sign(key) => if Has(m.attrs, FINGERPRINT) then Built(m, false) else Built(Signed(h, key, m), true)
    case Stamp => Built(Stamped(crc, m), true)
  }

  /** What a list of setters makes of a message, stopping at the first that fails. */
  function ApplyAll<S>(h: Hash<S>, crc: Bytes -> uint32, m: Msg, ss: seq<Setter>): Built
    decreases |ss|
  {
    if ss == [] then Built(m, true)
    else
      var r := ApplyOne(h, crc, m, ss[0]);
      if r.ok then ApplyAll(h, crc, r.m, ss[1..]) else r
  }

  /** Setters are applied in order, and none after the first that fails. */
  lemma {:induction false} AllInOrder<S>(h: Hash<S>, crc: Bytes -> uint32, m: Msg, a: seq<Setter>, s: Setter, b: seq<Setter>)
    ensures var first := ApplyAll(h, crc, m, a);
            ApplyAll(h, crc, m, a + ([s] + b)) ==
            if !first.ok then first
            else
              var next := ApplyOne(h, crc, first.m, s);
              if next.ok then ApplyAll(h, crc, next.m, b) else next
    decreases |a|
  {
    hide ApplyOne;
    var ss := a + ([s] + b);
    if a == [] {
      assert ss == [s] + b && ss[1..] == b;
    } else {
      assert ss[0] == a[0] && ss[1..] == a[1..] + ([s] + b);
      var r := ApplyOne(h, crc, m, a[0]);
      if r.ok {
        AllInOrder(h, crc, r.m, a[1..], s, b);
      }
    }
  }

  // What each setter does, as a decoder sees it.

  /** A setter fails exactly for an address of another length, or a code after a FINGERPRINT, and then changes
      nothing. */
  lemma SetterFails<S>(h: Hash<S>, crc: Bytes -> uint32, m: Msg, s: Setter)
    ensures !ApplyOne(h, crc, m, s).ok <==>
              || ((s.XorAddress? || s.PlainAddress?) && |s.ip| != 4 && |s.ip| != 16)
              || (s.Sign? && exists i :: 0 <= i < |m.attrs| && m.attrs[i].typ == FINGERPRINT)
    ensures !ApplyOne(h, crc, m, s).ok ==> ApplyOne(h, crc, m, s).m == m
  {
    hide Mac, ToSign, ToStamp, FingerprintValue, XorValue, PlainValue;
  }

  /** What is decoded after a setter that set a field. */
  lemma FieldFound<S>(h: Hash<S>, crc: Bytes -> uint32, m: Msg, s: Setter)
    requires (s.ToType? || s.ToId?) && Representable(ApplyOne(h, crc, m, s).m)
    ensures var d := DecodeSpec(Print(ApplyOne(h, crc, m, s).m));
            && d.Ok() && d.body.attrs == m.attrs
            && d.typ == (if s.ToType? then s.typ else m.typ) && d.tid == if s.ToId? then s.tid else m.tid
  {
    hide DecodeSpec, Print;
    RoundTripIff(ApplyOne(h, crc, m, s).m);
  }

  /** What is decoded after a setter that added an attribute: the attributes there were, and one more of which this
      is the type. */
  lemma AttributeFound<S>(h: Hash<S>, crc: Bytes -> uint32, m: Msg, s: Setter)
    requires !s.ToType? && !s.ToId? && ApplyOne(h, crc, m, s).ok && Representable(ApplyOne(h, crc, m, s).m)
    ensures var d := DecodeSpec(Print(ApplyOne(h, crc, m, s).m));
            && d.Ok() && d.typ == m.typ && d.tid == m.tid && |d.body.attrs| == |m.attrs| + 1 && d.body.attrs[..|m.attrs|] == m.attrs
            && var a := d.body.attrs[|m.attrs|];
            && a.typ == (if s.Sign? then 0x0008 else if s.Stamp? then 0x8028 else s.t)
            && (s.Raw? ==> a.value == s.value)
            && (s.XorAddress? ==> |a.value| >= 2 && ReadXor(a.value, m.tid) == Address(WireIP(s.ip).value, s.port % 0x1_0000))
            && (s.PlainAddress? ==> ReadPlain(a.value) == Address(WireIP(s.ip).value, s.port % 0x1_0000))
  {
    var r := ApplyOne(h, crc, m, s).m;
    hide DecodeSpec, Print, Mac, ToSign, ToStamp, FingerprintValue, XorValue, PlainValue, ReadXor, ReadPlain, Representable;
    RoundTripIff(r);
    assert r.attrs[..|m.attrs|] == m.attrs;
    if s.XorAddress? {
      XorRoundTrip(WireIP(s.ip).value, s.port, m.tid);
      XorLong(WireIP(s.ip).value, s.port, m.tid);
    }
    if s.PlainAddress? {
      PlainRoundTrip(WireIP(s.ip).value, s.port);
    }
  }

  lemma XorLong(ip: Bytes, port: int, tid: TxId)
    ensures |XorValue(ip, port, tid)| >= 2
  {
  }

  /** What is added by signing and stamping passes the check it is for. */
  lemma CheckFound<S>(h: Hash<S>, crc: Bytes -> uint32, m: Msg, s: Setter)
    requires (s.Sign? && !Has(m.attrs, MESSAGE_INTEGRITY) && |Mac(h, s.key, ToSign(m))| == INTEGRITY_SIZE) || (s.Stamp? && !Has(m.attrs, FINGERPRINT))
    requires ApplyOne(h, crc, m, s).ok
    ensures var r := ApplyOne(h, crc, m, s).m;
            && |Print(r)| >= HEADER_SIZE + AttrsSize(r.attrs)
            && (s.Sign? ==> IntegrityVerdict(h, s.key, Print(r), r.attrs).None?)
            && (s.Stamp? ==> FingerprintVerdict(crc, Print(r), r.attrs).None?)
  {
    hide Mac, ToSign, ToStamp, FingerprintValue, Print, AttrsSize, IntegrityVerdict, FingerprintVerdict;
    var r := ApplyOne(h, crc, m, s).m;
    PrintedLength(r);
    if s.Sign? {
      assert Print(r) + [] == Print(r) && r.attrs + [] == r.attrs;
      IntegritySurvives(h, s.key, m, [], []);
    } else {
      FingerprintSurvives(crc, m);
    }
  }

  lemma OneGrows<S>(h: Hash<S>, crc: Bytes -> uint32, m: Msg, s: Setter)
    ensures AttrsSize(m.attrs) <= AttrsSize(ApplyOne(h, crc, m, s).m.attrs)
    ensures s.Raw? ==> AttrsSize(ApplyOne(h, crc, m, s).m.attrs) == AttrsSize(m.attrs) + ATTR_HEADER_SIZE + Padded(|s.value|)
  {
    hide AttrsSize, Mac, ToSign, ToStamp, FingerprintValue, XorValue, PlainValue, Padded;
    var r := ApplyOne(h, crc, m, s).m.attrs;
    if |r| > |m.attrs| {
      assert r == m.attrs + [r[|m.attrs|]];
      EncodeSnoc(m.attrs, r[|m.attrs|]);
    } else {
      assert r == m.attrs;
    }
  }

  lemma {:induction false} AllGrows<S>(h: Hash<S>, crc: Bytes -> uint32, m: Msg, ss: seq<Setter>)
    ensures AttrsSize(m.attrs) <= AttrsSize(ApplyAll(h, crc, m, ss).m.attrs)
    decreases |ss|
  {
    hide AttrsSize, ApplyOne;
    if ss != [] {
      var r := ApplyOne(h, crc, m, ss[0]);
      OneGrows(h, crc, m, ss[0]);
      if r.ok {
        AllGrows(h, crc, r.m, ss[1..]);
      }
    }
  }

  /** The room each setter that succeeds takes. */
  function Room(s: Setter): nat {
    match s
    case ToType(_) => 0
    case ToId(_) => 0
    case Raw(_, value) => ATTR_HEADER_SIZE + Padded(|value|)
    case XorAddress(_, ip, _) => if WireIP(ip).None? then 0 else ATTR_HEADER_SIZE + 4 + |WireIP(ip).value|
    case PlainAddress(_, ip, _) => if WireIP(ip).None? then 0 else ATTR_HEADER_SIZE + 4 + |WireIP(ip).value|
    case Sign(_) => ATTR_HEADER_SIZE + INTEGRITY_SIZE
    case Stamp => ATTR_HEADER_SIZE + FINGERPRINT_SIZE
  }

  lemma PaddedSmall()
    ensures Padded(4) == 4 && Padded(8) == 8 && Padded(20) == 20
  {
  }

  lemma SetterSize<S>(h: Hash<S>, crc: Bytes -> uint32, m: Msg, s: Setter)
    requires s.Sign? ==> |Mac(h, s.key, ToSign(m))| == INTEGRITY_SIZE
    ensures var r := ApplyOne(h, crc, m, s); r.ok ==> AttrsSize(r.m.attrs) == AttrsSize(m.attrs) + Room(s)
  {
    hide AttrsSize, Mac, ToSign, ToStamp, FingerprintValue, Padded, Put16, XorBytes, Xor16, XorKey, Has;
    PaddedSmall();
    var r := ApplyOne(h, crc, m, s).m.attrs;
    if |r| > |m.attrs| {
      var a := r[|m.attrs|];
      assert r == m.attrs + [a];
      EncodeSnoc(m.attrs, a);
    }
  }

  /** Every setter but the one that needs a key. */
  method ApplyUnkeyed<S(!new)>(msg: Message, ghost h: Hash<S>, crc: Bytes -> uint32, s: Setter, ghost m: Msg, ghost keep: set<array<byte>>)
    returns (ok: bool)
    requires !s.Sign? && msg.Holds(m) && AttrsSize(ApplyOne(h, crc, m, s).m.attrs) < LENGTH_LIMIT
    modifies msg, msg.raw.arr, msg.attributes.arr
    ensures var r := ApplyOne(h, crc, m, s); ok == r.ok && msg.Holds(r.m)
    ensures old(Avoids(msg.raw, msg.attributes.View(), keep)) ==> Avoids(msg.raw, msg.attributes.View(), keep)
    ensures (msg.raw.arr == old(msg.raw.arr) || fresh(msg.raw.arr)) && (msg.attributes.arr == old(msg.attributes.arr) || fresh(msg.attributes.arr))
  {
    hide Mac, ToSign, ToStamp, FingerprintValue, XorValue, PlainValue, AttrsSize, Print, SetLength, Padded, Has, Ahead, Anchored, Extend;
    SetterSize(h, crc, m, s);
    PrintedLength(m);
    ok := true;
    match s {
      case ToType(typ) => msg.SetType(typ, m);
      case ToId(tid) => msg.SetTransactionID(tid, m);
      case Raw(t, value) => msg.AddBytes(t, value, m, keep);
      case XorAddress(t, ip, port) =>
        var err := AddXor(msg, t, ip, port, m, keep);
        ok := !err;
      case PlainAddress(t, ip, port) =>
        var err := AddPlain(msg, t, ip, port, m, keep);
        ok := !err;
      case Stamp => AddFingerprint(msg, crc, m, keep);
    }
  }

  method ApplySetter<S(!new)>(msg: Message, mac: Hmac<S>, crc: Bytes -> uint32, s: Setter, ghost m: Msg) returns (ok: bool)
    requires msg.Holds(m) && AttrsSize(ApplyOne(mac.alg, crc, m, s).m.attrs) < LENGTH_LIMIT
    requires mac.Sound() && mac.alg.size == INTEGRITY_SIZE && Private(mac, msg.raw, msg.attributes.View())
    modifies msg, msg.raw.arr, msg.attributes.arr, mac, mac.outer, mac.inner, mac.ipad.arr, mac.opad.arr
    ensures var r := ApplyOne(mac.alg, crc, m, s); ok == r.ok && msg.Holds(r.m)
    ensures mac.Sound() && Private(mac, msg.raw, msg.attributes.View())
    ensures (mac.ipad.arr == old(mac.ipad.arr) || fresh(mac.ipad.arr)) && (mac.opad.arr == old(mac.opad.arr) || fresh(mac.opad.arr))
    ensures (msg.raw.arr == old(msg.raw.arr) || fresh(msg.raw.arr)) && (msg.attributes.arr == old(msg.attributes.arr) || fresh(msg.attributes.arr))
  {
    hide Lawful, Mac, ToSign, ToStamp, FingerprintValue, AttrsSize, Print, SetLength, Padded, Has, Ahead, Anchored, Extend;
    PrintedLength(m);
    if s.Sign? {
      MacSizeOf(mac, s.key, ToSign(m));
    }
    SetterSize(mac.alg, crc, m, s);
    if s.Sign? {
      var err := AddIntegrity(msg, mac, s.key, m);
      ok := !err;
    } else {
      ok := ApplyUnkeyed(msg, mac.alg, crc, s, m, {mac.ipad.arr, mac.opad.arr});
    }
  }

  /** Applies setters in order, up to the first that fails. */
  method ApplyEach<S(!new)>(msg: Message, mac: Hmac<S>, crc: Bytes -> uint32, ss: seq<Setter>, ghost start: Msg) returns (ok: bool)
    requires msg.Holds(start) && AttrsSize(ApplyAll(mac.alg, crc, start, ss).m.attrs) < LENGTH_LIMIT
    requires mac.Sound() && mac.alg.size == INTEGRITY_SIZE && Private(mac, msg.raw, msg.attributes.View())
    modifies msg, msg.raw.arr, msg.attributes.arr, mac, mac.outer, mac.inner, mac.ipad.arr, mac.opad.arr
    ensures mac.Sound()
    ensures var r := ApplyAll(mac.alg, crc, start, ss); ok == r.ok && msg.Holds(r.m)
    ensures (msg.raw.arr == old(msg.raw.arr) || fresh(msg.raw.arr)) && (msg.attributes.arr == old(msg.attributes.arr) || fresh(msg.attributes.arr))
  {
    hide Lawful, AttrsSize, Print, ApplyOne, ApplyAll, Ahead, Anchored;
    ghost var m := start;
    ghost var goal := ApplyAll(mac.alg, crc, m, ss);
    assert ss[0..] == ss;
    for i := 0 to |ss|
      invariant msg.Holds(m) && goal == ApplyAll(mac.alg, crc, m, ss[i..])
      invariant mac.Sound() && Private(mac, msg.raw, msg.attributes.View())
      invariant (mac.ipad.arr == old(mac.ipad.arr) || fresh(mac.ipad.arr)) && (mac.opad.arr == old(mac.opad.arr) || fresh(mac.opad.arr))
      invariant (msg.raw.arr == old(msg.raw.arr) || fresh(msg.raw.arr)) && (msg.attributes.arr == old(msg.attributes.arr) || fresh(msg.attributes.arr))
    {
      ghost var r := ApplyOne(mac.alg, crc, m, ss[i]);
      AllStep(mac.alg, crc, m, ss, i);
      ok := ApplySetter(msg, mac, crc, ss[i], m);
      if !ok {
        return;
      }
      m := r.m;
    }
    AllDone(mac.alg, crc, m, ss[|ss|..]);
    ok := true;
  }

  /** Builds a message from setters in whatever buffer the object has, up to the first that fails.
      The result depends on the type and id the object had and on the setters, and on nothing that
      was in the buffer or its spare capacity. */
  method Build<S(!new)>(msg: Message, mac: Hmac<S>, crc: Bytes -> uint32, ss: seq<Setter>) returns (ok: bool)
    requires msg.raw.Valid() && msg.attributes.Valid()
    requires AttrsSize(ApplyAll(mac.alg, crc, Msg(msg.typ, msg.transactionID, []), ss).m.attrs) < LENGTH_LIMIT
    requires mac.Sound() && mac.alg.size == INTEGRITY_SIZE && Private(mac, msg.raw, [])
    modifies msg, msg.raw.arr, msg.attributes.arr, mac, mac.outer, mac.inner, mac.ipad.arr, mac.opad.arr
    ensures mac.Sound()
    ensures var r := ApplyAll(mac.alg, crc, Msg(old(msg.typ), old(msg.transactionID), []), ss); ok == r.ok && msg.Holds(r.m)
    ensures (msg.raw.arr == old(msg.raw.arr) || fresh(msg.raw.arr)) && (msg.attributes.arr == old(msg.attributes.arr) || fresh(msg.attributes.arr))
  {
    hide Lawful, AttrsSize, Print, ApplyAll, Ahead, Anchored, Header;
    msg.Reset();
    msg.WriteHeader();
    ok := ApplyEach(msg, mac, crc, ss, Msg(msg.typ, msg.transactionID, []));
  }

  lemma AllDone<S>(h: Hash<S>, crc: Bytes -> uint32, m: Msg, ss: seq<Setter>)
    requires ss == []
    ensures ApplyAll(h, crc, m, ss) == Built(m, true)
  {
  }

  lemma AllStep<S>(h: Hash<S>, crc: Bytes -> uint32, m: Msg, ss: seq<Setter>, i: nat)
    requires i < |ss|
    ensures var r, all := ApplyOne(h, crc, m, ss[i]), ApplyAll(h, crc, m, ss[i..]);
            && all == (if r.ok then ApplyAll(h, crc, r.m, ss[i + 1..]) else r)
            && AttrsSize(r.m.attrs) <= AttrsSize(all.m.attrs)
  {
    hide ApplyOne, AttrsSize;
    assert ss[i..][0] == ss[i] && ss[i..][1..] == ss[i + 1..];
    AllGrows(h, crc, ApplyOne(h, crc, m, ss[i]).m, ss[i + 1..]);
  }
}
