/** From one message object over the wire to another. */
module Pipeline {
  import opened Base
  import opened MessageTypes
  import opened Wire
  import opened Slices
  import opened Buffers
  import opened AttributeLists
  import opened Messages
  import opened Hmacs
  import opened IntegritySpec
  import opened Integrity
  import opened Addresses
  import opened Builds

  lemma {:induction false} LocatedAnchored(list: seq<RawAttribute>, attrs: seq<Attr>, raw: Slice<byte>, body: Slice<byte>)
    requires body.arr == raw.arr && body.off == raw.off + HEADER_SIZE
    requires Located(list, attrs, body)
    ensures Anchored(list, raw, AttrsSize(attrs))
  {
    hide AttrsSize, Padded;
    forall i | 0 <= i < |list|
      ensures raw.off + HEADER_SIZE <= list[i].value.off && list[i].value.off + list[i].value.len <= raw.off + HEADER_SIZE + AttrsSize(attrs)
    {
      assert LocatedOne(list[i], attrs[..i], attrs[i], body);
      NextSize(attrs, i);
      PrefixSize(attrs, i + 1, |attrs|);
      assert attrs[..|attrs|] == attrs;
    }
  }

  /** A copy of the octets of one message, decoded into another, which may share its array. */
  method CloneTo(msg: Message, b: Message, ghost keep: set<array<byte>>) returns (err: Option<DecodeError>)
    requires msg.raw.Valid() && b.raw.Valid() && b.attributes.Valid() && b.raw.arr !in keep
    modifies b, b.raw.arr, b.attributes.arr
    ensures b.raw.Valid() && b.raw.View() == old(msg.raw.View())
    ensures b.raw.arr == old(b.raw.arr) || fresh(b.raw.arr)
    ensures err.None? <==> DecodeSpec(b.raw.View()).Ok()
    ensures err.None? ==> b.Readable(DecodeSpec(b.raw.View()).Message())
    ensures err.None? ==> Avoids(b.raw, b.attributes.View(), keep)
  {
    hide DecodeSpec;
    var data := msg.raw.View();
    var r := Append(b.raw.Sub(0, 0), data, 0);
    b.raw := r;
    assert r.View() == data;
    err := b.Decode();
    if err.None? {
      DecodedReadable(b, data, keep);
    }
  }

  lemma DecodedReadable(b: Message, data: Bytes, keep: set<array<byte>>)
    requires b.raw.Valid() && b.raw.View() == data && DecodeSpec(data).Ok() && b.attributes.Valid()
    requires var d := DecodeSpec(data);
             && b.typ == d.typ && b.length == d.size && b.transactionID == d.tid && HEADER_SIZE + b.length <= b.raw.len
             && Shows(b.attributes.View(), d.body.attrs)
             && Located(b.attributes.View(), d.body.attrs, b.raw.Sub(HEADER_SIZE, HEADER_SIZE + b.length))
    ensures b.Readable(DecodeSpec(data).Message())
    ensures b.raw.arr !in keep ==> Avoids(b.raw, b.attributes.View(), keep)
  {
    hide AttrsSize, ParseAttrs, Put16, Get16, Get32, ReadValue;
    var d := DecodeSpec(data);
    DecodeIff(data);
    LocatedAnchored(b.attributes.View(), d.body.attrs, b.raw, b.raw.Sub(HEADER_SIZE, HEADER_SIZE + b.length));
    Get16Unique(data, 2, d.size);
    forall i | 0 <= i < |b.attributes.View()| ensures b.attributes.View()[i].value.arr == b.raw.arr {
      assert LocatedOne(b.attributes.View()[i], d.body.attrs[..i], d.body.attrs[i], b.raw.Sub(HEADER_SIZE, HEADER_SIZE + b.length));
    }
  }

  method AddAll(msg: Message, later: seq<Attr>, ghost m: Msg, ghost keep: set<array<byte>>)
    requires msg.Holds(m) && AttrsSize(m.attrs + later) < LENGTH_LIMIT
    modifies msg, msg.raw.arr, msg.attributes.arr
    ensures msg.Holds(m.(attrs := m.attrs + later))
    ensures old(Avoids(msg.raw, msg.attributes.View(), keep)) ==> Avoids(msg.raw, msg.attributes.View(), keep)
    ensures (msg.raw.arr == old(msg.raw.arr) || fresh(msg.raw.arr)) && (msg.attributes.arr == old(msg.attributes.arr) || fresh(msg.attributes.arr))
  {
    hide AttrsSize, Print, SetLength, Padded, Ahead, Anchored, Extend;
    assert m.attrs + later[..0] == m.attrs;
    for i := 0 to |later|
      invariant msg.Holds(m.(attrs := m.attrs + later[..i]))
      invariant old(Avoids(msg.raw, msg.attributes.View(), keep)) ==> Avoids(msg.raw, msg.attributes.View(), keep)
      invariant (msg.raw.arr == old(msg.raw.arr) || fresh(msg.raw.arr)) && (msg.attributes.arr == old(msg.attributes.arr) || fresh(msg.attributes.arr))
    {
      ghost var mid := m.(attrs := m.attrs + later[..i]);
      NextAdded(m.attrs, later, i);
      PrintedLength(mid);
      assert later[i] == Attr(later[i].typ, later[i].value);
      msg.AddBytes(later[i].typ, later[i].value, mid, keep);
    }
    assert later[..|later|] == later;
  }

  lemma NextAdded(attrs: seq<Attr>, later: seq<Attr>, i: nat)
    requires i < |later|
    ensures attrs + later[..i + 1] == attrs + later[..i] + [later[i]]
    ensures AttrsSize(attrs + later[..i]) + AttrSize(later[i]) <= AttrsSize(attrs + later)
  {
    hide AttrsSize;
    assert attrs + later[..i + 1] == attrs + later[..i] + [later[i]];
    EncodeSnoc(attrs + later[..i], later[i]);
    assert attrs + later == attrs + later[..i + 1] + later[i + 1..];
    EncodeAppend(attrs + later[..i + 1], later[i + 1..]);
  }

  lemma HoldsReadable(msg: Message, m: Msg)
    requires msg.Holds(m) && AttrsSize(m.attrs) < 0x1_0000
    ensures msg.Readable(m)
  {
    hide AttrsSize, EncodeAttrs, Put16, Put32, Value;
    assert Print(m)[2..4] == Put16(AttrsSize(m.attrs));
  }

  /** Integrity, any further attributes, then the fingerprint. */
  method SignAndStamp<S(!new)>(msg: Message, mac: Hmac<S>, crc: Bytes -> uint32, key: Bytes, later: seq<Attr>, ghost m: Msg)
    requires msg.Holds(m) && !Has(m.attrs, FINGERPRINT)
    requires AttrsSize(m.attrs) + AttrsSize(later) + 32 < LENGTH_LIMIT
    requires mac.Sound() && mac.alg.size == INTEGRITY_SIZE && Private(mac, msg.raw, msg.attributes.View())
    modifies msg, msg.raw.arr, msg.attributes.arr, mac, mac.outer, mac.inner, mac.ipad.arr, mac.opad.arr
    ensures msg.Holds(SignedAndStamped(mac.alg, key, crc, m, later))
    ensures mac.Sound() && Private(mac, msg.raw, msg.attributes.View())
    ensures (mac.ipad.arr == old(mac.ipad.arr) || fresh(mac.ipad.arr)) && (mac.opad.arr == old(mac.opad.arr) || fresh(mac.opad.arr))
    ensures (msg.raw.arr == old(msg.raw.arr) || fresh(msg.raw.arr)) && (msg.attributes.arr == old(msg.attributes.arr) || fresh(msg.attributes.arr))
  {
    hide Lawful, Mac, ToSign, ToStamp, FingerprintValue, AttrsSize, Print, Has, Ahead, Anchored, SetLength, Extend;
    MacSizeOf(mac, key, ToSign(m));
    PrintedLength(m);
    StampedSize(mac.alg, key, crc, m, later);
    var err := AddIntegrity(msg, mac, key, m);
    ExtendAndStamp(msg, crc, later, Signed(mac.alg, key, m), {mac.ipad.arr, mac.opad.arr});
  }

  method ExtendAndStamp(msg: Message, crc: Bytes -> uint32, later: seq<Attr>, ghost m: Msg, ghost keep: set<array<byte>>)
    requires msg.Holds(m) && AttrsSize(m.attrs + later) + ATTR_HEADER_SIZE + FINGERPRINT_SIZE < LENGTH_LIMIT
    modifies msg, msg.raw.arr, msg.attributes.arr
    ensures msg.Holds(Stamped(crc, m.(attrs := m.attrs + later)))
    ensures old(Avoids(msg.raw, msg.attributes.View(), keep)) ==> Avoids(msg.raw, msg.attributes.View(), keep)
    ensures (msg.raw.arr == old(msg.raw.arr) || fresh(msg.raw.arr)) && (msg.attributes.arr == old(msg.attributes.arr) || fresh(msg.attributes.arr))
  {
    hide ToStamp, FingerprintValue, AttrsSize, Print, Ahead, Anchored, SetLength, Extend;
    AddAll(msg, later, m, keep);
    PrintedLength(m.(attrs := m.attrs + later));
    AddFingerprint(msg, crc, m.(attrs := m.attrs + later), keep);
  }

  lemma StampedSize<S>(h: Hash<S>, key: Bytes, crc: Bytes -> uint32, m: Msg, later: seq<Attr>)
    requires |Mac(h, key, ToSign(m))| == INTEGRITY_SIZE
    ensures AttrsSize(Signed(h, key, m).attrs + later) == AttrsSize(m.attrs) + AttrsSize(later) + 24
    ensures AttrsSize(SignedAndStamped(h, key, crc, m, later).attrs) == AttrsSize(m.attrs) + AttrsSize(later) + 32
  {
    hide AttrsSize, Mac, ToSign, ToStamp, FingerprintValue;
    var tag := Attr(MESSAGE_INTEGRITY, Mac(h, key, ToSign(m)));
    EncodeSnoc(m.attrs, tag);
    EncodeAppend(Signed(h, key, m).attrs, later);
    var mid := m.(attrs := Signed(h, key, m).attrs + later);
    EncodeSnoc(mid.attrs, Attr(FINGERPRINT, Put32(FingerprintValue(crc, ToStamp(mid)))));
  }

  /** The two checks of a message, under the key it was signed with. */
  predicate Ours(cs: seq<Checker>, key: Bytes) {
    forall i :: 0 <= i < |cs| ==> cs[i] == ByIntegrity(key) || cs[i] == ByFingerprint
  }

  /** Signs, extends and stamps a message, and checks it: the two checks succeed, in any order and any number
      of times. */
  method SignStampAndCheck<S(!new)>(msg: Message, mac: Hmac<S>, crc: Bytes -> uint32, key: Bytes, later: seq<Attr>,
                                    cs: seq<Checker>, ghost m: Msg) returns (err: Option<CheckError>)
    requires msg.Holds(m) && !Has(m.attrs, MESSAGE_INTEGRITY) && !Has(m.attrs, FINGERPRINT) && !Has(later, FINGERPRINT)
    requires AttrsSize(m.attrs) + AttrsSize(later) + 32 < 0x1_0000 && Ours(cs, key)
    requires mac.Sound() && mac.alg.size == INTEGRITY_SIZE && Private(mac, msg.raw, msg.attributes.View())
    modifies msg, msg.raw.arr, msg.attributes.arr, mac, mac.outer, mac.inner, mac.ipad.arr, mac.opad.arr
    ensures msg.Holds(SignedAndStamped(mac.alg, key, crc, m, later))
    ensures err.None? && mac.Sound() && Private(mac, msg.raw, msg.attributes.View())
    ensures (mac.ipad.arr == old(mac.ipad.arr) || fresh(mac.ipad.arr)) && (mac.opad.arr == old(mac.opad.arr) || fresh(mac.opad.arr))
    ensures (msg.raw.arr == old(msg.raw.arr) || fresh(msg.raw.arr)) && (msg.attributes.arr == old(msg.attributes.arr) || fresh(msg.attributes.arr))
  {
    hide Lawful, Mac, ToSign, AttrsSize, Print, Has, SignedAndStamped, Verdict, DecodeSpec, Ahead, Anchored;
    MacSizeOf(mac, key, ToSign(m));
    StampedSize(mac.alg, key, crc, m, later);
    BothVerdicts(mac.alg, key, crc, m, later, cs);
    SignAndStamp(msg, mac, crc, key, later, m);
    ghost var full := SignedAndStamped(mac.alg, key, crc, m, later);
    HoldsReadable(msg, full);
    err := CheckAll(msg, mac, crc, cs, full);
    HoldsAgain(msg, full);
  }

  lemma HoldsAgain(msg: Message, m: Msg)
    requires msg.Readable(m) && msg.raw.View() == Print(m)
    ensures msg.Holds(m)
  {
  }

  /** The message has these octets and reads as they do. */
  ghost predicate Delivered(b: Message, raw: Bytes)
    reads b, b.raw.arr, b.attributes.arr, if b.attributes.Valid() then ValueArrays(b.attributes.View()) else {}
  {
    b.raw.Valid() && b.raw.View() == raw && DecodeSpec(raw).Ok() && b.Readable(DecodeSpec(raw).Message())
  }

  /** Signs, extends and stamps a message, copies its octets to another and decodes them there. Then both hold
      those octets, and the two checks succeed on both, in any order and any number of times. */
  method SendAndCheck<S(!new)>(msg: Message, b: Message, mac: Hmac<S>, crc: Bytes -> uint32, key: Bytes, later: seq<Attr>,
                               cs: seq<Checker>, ghost m: Msg)
    returns (decodeErr: Option<DecodeError>, sent: Option<CheckError>, received: Option<CheckError>)
    requires msg.Holds(m) && !Has(m.attrs, MESSAGE_INTEGRITY) && !Has(m.attrs, FINGERPRINT) && !Has(later, FINGERPRINT)
    requires AttrsSize(m.attrs) + AttrsSize(later) + 32 < 0x1_0000 && Ours(cs, key)
    requires mac.Sound() && mac.alg.size == INTEGRITY_SIZE && Private(mac, msg.raw, msg.attributes.View())
    requires b != msg && b.raw.Valid() && b.attributes.Valid() && Avoids(b.raw, [], {mac.ipad.arr, mac.opad.arr, msg.raw.arr})
    requires msg.attributes.arr != b.attributes.arr
    modifies msg, msg.raw.arr, msg.attributes.arr, b, b.raw.arr, b.attributes.arr
    modifies mac, mac.outer, mac.inner, mac.ipad.arr, mac.opad.arr
    ensures decodeErr.None? && sent.None? && received.None?
    ensures var raw := Print(SignedAndStamped(mac.alg, key, crc, m, later));
            msg.raw.Valid() && msg.raw.View() == raw && Delivered(b, raw)
  {
    hide Lawful, Mac, ToSign, AttrsSize, Print, Has, SignedAndStamped, Verdict, DecodeSpec, Ahead, Anchored;
    MacSizeOf(mac, key, ToSign(m));
    StampedSize(mac.alg, key, crc, m, later);
    BothVerdicts(mac.alg, key, crc, m, later, cs);
    sent := SignStampAndCheck(msg, mac, crc, key, later, cs, m);
    decodeErr, received := ReceiveAndCheck(msg, b, mac, crc, cs);
  }

  /** Decodes a copy and, if it decodes, checks it: the verdict is that on the octets alone. */
  method ReceiveAndCheck<S(!new)>(msg: Message, b: Message, mac: Hmac<S>, crc: Bytes -> uint32, cs: seq<Checker>)
    returns (decodeErr: Option<DecodeError>, err: Option<CheckError>)
    requires mac.Sound() && b != msg && msg.raw.Valid() && b.raw.Valid() && b.attributes.Valid()
    requires Avoids(b.raw, [], {mac.ipad.arr, mac.opad.arr, msg.raw.arr})
    modifies b, b.raw.arr, b.attributes.arr, mac, mac.outer, mac.inner, mac.ipad.arr, mac.opad.arr
    ensures b.raw.Valid() && b.raw.View() == old(msg.raw.View())
    ensures var raw, d := old(msg.raw.View()), DecodeSpec(old(msg.raw.View()));
            && (decodeErr.None? <==> d.Ok())
            && (d.Ok() ==>
                  && b.Readable(d.Message()) && |raw| >= HEADER_SIZE + AttrsSize(d.body.attrs)
                  && (err.None? <==> forall i :: 0 <= i < |cs| ==> Verdict(mac.alg, crc, raw, d.body.attrs, cs[i]).None?))
  {
    hide Lawful, AttrsSize, Verdict, DecodeSpec, Ahead, Anchored;
    err := None;
    decodeErr := CloneTo(msg, b, {mac.ipad.arr, mac.opad.arr});
    if decodeErr.None? {
      err := CheckAll(b, mac, crc, cs, DecodeSpec(b.raw.View()).Message());
    }
  }

  lemma BothVerdicts<S>(h: Hash<S>, key: Bytes, crc: Bytes -> uint32, m: Msg, later: seq<Attr>, cs: seq<Checker>)
    requires |Mac(h, key, ToSign(m))| == INTEGRITY_SIZE && Ours(cs, key)
    requires !Has(m.attrs, MESSAGE_INTEGRITY) && !Has(m.attrs, FINGERPRINT) && !Has(later, FINGERPRINT)
    requires AttrsSize(SignedAndStamped(h, key, crc, m, later).attrs) < 0x1_0000
    ensures var full := SignedAndStamped(h, key, crc, m, later);
            var raw, d := Print(full), DecodeSpec(Print(full));
            && |raw| >= HEADER_SIZE + AttrsSize(full.attrs) && d.Ok() && d.body.attrs == CompatAll(full.attrs)
            && AttrsSize(d.body.attrs) == AttrsSize(full.attrs)
            && forall i :: 0 <= i < |cs| ==>
                 Verdict(h, crc, raw, full.attrs, cs[i]).None? && Verdict(h, crc, raw, d.body.attrs, cs[i]).None?
  {
    hide Mac, ToSign, AttrsSize, Print, SignedAndStamped, IntegrityVerdict, FingerprintVerdict, DecodeSpec;
    var full := SignedAndStamped(h, key, crc, m, later);
    BothSurvive(h, key, crc, m, later);
    assert Print(full) + [] == Print(full);
    DecodePrinted(full, []);
  }

  // Claims that may be wrong.

  /** A message whose first MESSAGE-INTEGRITY holds any 20 octets is checked, copied, decoded and checked again. Both
      checks succeed if and only if those are the code of what is in front of them, and otherwise report a mismatch. */
  method CheckClaimedCode<S(!new)>(msg: Message, b: Message, mac: Hmac<S>, key: Bytes, ghost m: Msg, ghost v: Bytes, ghost later: seq<Attr>)
    returns (decodeErr: Option<DecodeError>, sent: Option<CheckError>, received: Option<CheckError>)
    requires msg.Holds(m.(attrs := m.attrs + ([Attr(MESSAGE_INTEGRITY, v)] + later))) && msg.length < 0x1_0000
    requires |v| == INTEGRITY_SIZE && !Has(m.attrs, MESSAGE_INTEGRITY)
    requires mac.Sound() && Private(mac, msg.raw, msg.attributes.View())
    requires b != msg && b.raw.Valid() && b.attributes.Valid() && Avoids(b.raw, [], {mac.ipad.arr, mac.opad.arr, msg.raw.arr})
    requires msg.attributes.arr != b.attributes.arr
    modifies msg`length, msg.raw.arr, b, b.raw.arr, b.attributes.arr, mac, mac.outer, mac.inner, mac.ipad.arr, mac.opad.arr
    ensures decodeErr.None? && b.raw.Valid() && b.raw.View() == old(msg.raw.View())
    ensures sent == received == if v == Mac(mac.alg, key, ToSign(m)) then None else Some(IntegrityMismatch)
  {
    ghost var full := m.(attrs := m.attrs + ([Attr(MESSAGE_INTEGRITY, v)] + later));
    IntegrityExact(mac.alg, key, m, v, later, []);
    Claimed(msg, full);
    hide Lawful, Mac, ToSign, AttrsSize, Print, Has, IntegrityVerdict, DecodeSpec, Ahead, Anchored;
    sent := CheckIntegrity(msg, mac, key, full);
    decodeErr := CloneTo(msg, b, {mac.ipad.arr, mac.opad.arr});
    received := CheckIntegrity(b, mac, key, DecodeSpec(b.raw.View()).Message());
  }

  /** What a decoder makes of an encoding that fits. */
  lemma Claimed(msg: Message, full: Msg)
    requires msg.Holds(full) && msg.length < 0x1_0000
    ensures msg.Readable(full) && Print(full) + [] == Print(full)
    ensures var d := DecodeSpec(Print(full)); d.Ok() && d.body.attrs == CompatAll(full.attrs)
  {
    hide AttrsSize, Print, ParseAttrs;
    HoldsReadable(msg, full);
    assert Print(full) + [] == Print(full);
    DecodePrinted(full, []);
  }

  /** The same for any value in a FINGERPRINT at the end. */
  method CheckClaimedStamp(msg: Message, b: Message, crc: Bytes -> uint32, ghost m: Msg, ghost v: uint32)
    returns (decodeErr: Option<DecodeError>, sent: Option<CheckError>, received: Option<CheckError>)
    requires msg.Holds(m.(attrs := m.attrs + [Attr(FINGERPRINT, Put32(v))])) && msg.length < 0x1_0000 && !Has(m.attrs, FINGERPRINT)
    requires b != msg && b.raw.Valid() && b.attributes.Valid() && b.raw.arr != msg.raw.arr
    modifies b, b.raw.arr, b.attributes.arr
    ensures decodeErr.None? && b.raw.Valid() && b.raw.View() == old(msg.raw.View())
    ensures sent == received == if v == FingerprintValue(crc, ToStamp(m)) then None else Some(FingerprintMismatch)
  {
    ghost var full := m.(attrs := m.attrs + [Attr(FINGERPRINT, Put32(v))]);
    FingerprintExact(crc, m, v);
    Claimed(msg, full);
    hide ToStamp, FingerprintValue, AttrsSize, Print, Has, FingerprintVerdict, DecodeSpec, Ahead, Anchored, Put32;
    sent := CheckFingerprint(msg, crc, full);
    decodeErr := CloneTo(msg, b, {});
    received := CheckFingerprint(b, crc, DecodeSpec(b.raw.View()).Message());
  }

  // Signing what was decoded.

  lemma ExtendedLength(raw: Bytes, length: nat, a: Attr)
    requires HEADER_SIZE + length <= |raw| && length + AttrSize(a) < 0x1_0000
    ensures Extend(raw, length, a)[2..4] == Put16(length + AttrSize(a))
  {
    hide EncodeAttr, AttrSize, Put16;
  }

  /** The code for a buffer as it is, whatever is in its padding. */
  function TagFor<S>(h: Hash<S>, key: Bytes, raw: Bytes, size: nat): Attr
    requires |raw| >= HEADER_SIZE
  {
    Attr(MESSAGE_INTEGRITY, Mac(h, key, SetLength(raw, size + ATTR_HEADER_SIZE + INTEGRITY_SIZE)))
  }

  /** A buffer signed as it is reads as what it was and the code, and checks if nothing followed its body. */
  lemma SignedAsIs<S>(h: Hash<S>, key: Bytes, raw: Bytes, attrs: seq<Attr>)
    requires HEADER_SIZE + AttrsSize(attrs) <= |raw| && AttrsSize(attrs) + 24 < 0x1_0000 && !Has(attrs, MESSAGE_INTEGRITY)
    requires |TagFor(h, key, raw, AttrsSize(attrs)).value| == INTEGRITY_SIZE
    ensures var tag := TagFor(h, key, raw, AttrsSize(attrs));
            var raw' := Extend(raw, AttrsSize(attrs), tag);
            && AttrsSize(attrs + [tag]) == AttrsSize(attrs) + 24 && raw'[2..4] == Put16(AttrsSize(attrs) + 24)
            && |raw'| == HEADER_SIZE + AttrsSize(attrs + [tag])
            && (|raw| == HEADER_SIZE + AttrsSize(attrs) ==> IntegrityVerdict(h, key, raw', attrs + [tag]).None?)
  {
    var size := AttrsSize(attrs);
    var tag := TagFor(h, key, raw, size);
    assert AttrSize(tag) == 24;
    hide Mac, AttrsSize, Has, SetLength, Extend, IntegrityVerdict;
    SignedVerdict(h, key, raw, attrs, SetLength(raw, size + ATTR_HEADER_SIZE + INTEGRITY_SIZE), tag);
    ExtendedLength(raw, size, tag);
  }

  /** Signs a message with the octets it has and checks it. The message is extended by the code of those octets,
      the check gives the verdict on the result, and that is success if nothing followed the body. */
  method SignAndCheck<S(!new)>(msg: Message, mac: Hmac<S>, key: Bytes, ghost m: Msg) returns (err: Option<CheckError>)
    requires msg.Readable(m) && !Has(m.attrs, MESSAGE_INTEGRITY) && !Has(m.attrs, FINGERPRINT) && AttrsSize(m.attrs) + 24 < 0x1_0000
    requires mac.Sound() && mac.alg.size == INTEGRITY_SIZE && Private(mac, msg.raw, msg.attributes.View())
    modifies msg, msg.raw.arr, msg.attributes.arr, mac, mac.outer, mac.inner, mac.ipad.arr, mac.opad.arr
    ensures mac.Sound()
    ensures var raw, tag := old(msg.raw.View()), TagFor(mac.alg, key, old(msg.raw.View()), AttrsSize(m.attrs));
            && msg.Readable(m.(attrs := m.attrs + [tag])) && msg.raw.View() == Extend(raw, AttrsSize(m.attrs), tag)
            && err == IntegrityVerdict(mac.alg, key, msg.raw.View(), m.attrs + [tag])
            && (|raw| == HEADER_SIZE + AttrsSize(m.attrs) ==> err.None?)
  {
    MacSizeOf(mac, key, SetLength(msg.raw.View(), AttrsSize(m.attrs) + ATTR_HEADER_SIZE + INTEGRITY_SIZE));
    SignedAsIs(mac.alg, key, msg.raw.View(), m.attrs);
    hide Lawful, Mac, AttrsSize, Has, Ahead, Anchored, SetLength, Extend, IntegrityVerdict, Put16;
    var found := AddIntegrity(msg, mac, key, m);
    err := CheckIntegrity(msg, mac, key, m.(attrs := m.attrs + [TagFor(mac.alg, key, old(msg.raw.View()), AttrsSize(m.attrs))]));
  }

  // Building.

  /** Builds a message in a buffer that was used before, copies its octets to another and decodes them there. What
      was built depends on the type, the id and the setters alone, and the other message reads as the same if it
      can be represented, as `RoundTripIff` says exactly. */
  method BuildAndDecode<S(!new)>(msg: Message, b: Message, mac: Hmac<S>, crc: Bytes -> uint32, ss: seq<Setter>)
    returns (ok: bool, decodeErr: Option<DecodeError>)
    requires msg.raw.Valid() && msg.attributes.Valid() && b.raw.Valid() && b.attributes.Valid()
    requires AttrsSize(ApplyAll(mac.alg, crc, Msg(msg.typ, msg.transactionID, []), ss).m.attrs) < LENGTH_LIMIT
    requires mac.Sound() && mac.alg.size == INTEGRITY_SIZE && Private(mac, msg.raw, [])
    requires b != msg && Avoids(b.raw, [], {msg.raw.arr, mac.ipad.arr, mac.opad.arr}) && b.attributes.arr != msg.attributes.arr
    modifies msg, msg.raw.arr, msg.attributes.arr, mac, mac.outer, mac.inner, mac.ipad.arr, mac.opad.arr
    modifies b, b.raw.arr, b.attributes.arr
    ensures var r := ApplyAll(mac.alg, crc, Msg(old(msg.typ), old(msg.transactionID), []), ss);
            && ok == r.ok && msg.raw.Valid() && msg.raw.View() == Print(r.m)
            && b.raw.Valid() && b.raw.View() == Print(r.m)
            && (decodeErr.None? <==> DecodeSpec(Print(r.m)).Ok())
            && (Representable(r.m) ==> decodeErr.None? && b.Readable(r.m))
  {
    hide Lawful, AttrsSize, Print, ApplyAll, Ahead, Anchored, DecodeSpec, Representable;
    ghost var r := ApplyAll(mac.alg, crc, Msg(msg.typ, msg.transactionID, []), ss);
    ok := Build(msg, mac, crc, ss);
    decodeErr := CloneTo(msg, b, {});
    RoundTripIff(r.m);
  }

  // Addresses.

  /** Decodes a copy of a message and reads the address from it, into one that was used before: it depends on the
      octets alone. */
  method ReceiveXor(msg: Message, b: Message, addr: MappedAddress, t: uint16) returns (decodeErr: Option<DecodeError>, r: Reading)
    requires msg.raw.Valid() && b.raw.Valid() && b.attributes.Valid() && addr.ip.Valid() && addr.ip.arr != b.raw.arr
    requires var d := DecodeSpec(msg.raw.View()); d.Ok() ==> var v := FirstValue(d.body.attrs, t); v.Some? ==> |v.value| >= 2
    modifies b, b.raw.arr, b.attributes.arr, addr, addr.ip.arr
    ensures var raw, d := old(msg.raw.View()), DecodeSpec(old(msg.raw.View()));
            && (decodeErr.None? <==> d.Ok())
            && (d.Ok() ==>
                  && Delivered(b, raw) && addr.ip.Valid() && (r.Address? ==> addr.ip.View() == r.ip && addr.port == r.port)
                  && var v := FirstValue(d.body.attrs, t);
                  && r == if v.Some? then ReadXor(v.value, d.tid) else AttributeMissing)
  {
    hide AttrsSize, DecodeSpec, ReadXor, Ahead, Anchored, FirstValue;
    r := AttributeMissing;
    decodeErr := CloneTo(msg, b, {addr.ip.arr});
    if decodeErr.None? {
      r := addr.GetXor(b, t, DecodeSpec(b.raw.View()).Message());
    }
  }

  function WithXor(m: Msg, t: uint16, ip: Bytes, port: int): Msg
    requires WireIP(ip).Some?
  {
    m.(attrs := m.attrs + [Attr(t, XorValue(WireIP(ip).value, port, m.tid))])
  }

  /** Adds an XOR-MAPPED-ADDRESS, copies the octets to another message, decodes them there and reads the
      address into one that was used before: it is the one that was sent, with a mapped IPv4 address as its
      last four octets. Only an address of another length is refused. */
  method SendXorAddress(msg: Message, b: Message, addr: MappedAddress, t: uint16, ip: Bytes, port: int, ghost m: Msg)
    returns (sent: bool, decodeErr: Option<DecodeError>, r: Reading)
    requires msg.Holds(m) && AttrsSize(m.attrs) + 24 < 0x1_0000
    requires forall i :: 0 <= i < |m.attrs| ==> CompatType(m.attrs[i].typ) != CompatType(t)
    requires b != msg && b.raw.Valid() && b.attributes.Valid() && b.raw.arr != msg.raw.arr && b.attributes.arr != msg.attributes.arr
    requires addr.ip.Valid() && addr.ip.arr != b.raw.arr
    modifies msg, msg.raw.arr, msg.attributes.arr, b, b.raw.arr, b.attributes.arr, addr, addr.ip.arr
    ensures sent <==> WireIP(ip).Some?
    ensures sent ==> Delivered(b, Print(WithXor(m, t, ip, port)))
    ensures sent && old(addr.ip.arr != msg.raw.arr) ==> msg.raw.Valid() && msg.raw.View() == Print(WithXor(m, t, ip, port))
    ensures sent ==>
              && decodeErr.None? && r == Address(WireIP(ip).value, port % 0x1_0000)
              && addr.ip.Valid() && addr.ip.View() == WireIP(ip).value && addr.port == port % 0x1_0000
  {
    hide AttrsSize, Print, DecodeSpec, ReadXor, XorValue, Extend, SetLength, Ahead, Anchored, FirstValue, Delivered;
    r, decodeErr := AttributeMissing, None;
    XorFits(m, t, ip, port);
    PrintedLength(m);
    var err := AddXor(msg, t, ip, port, m, {});
    sent := !err;
    if sent {
      XorOverTheWire(m, t, ip, port);
      decodeErr, r := ReceiveXor(msg, b, addr, CompatType(t));
    }
  }

  lemma XorFits(m: Msg, t: uint16, ip: Bytes, port: int)
    ensures WireIP(ip).Some? ==>
              var v := XorValue(WireIP(ip).value, port, m.tid);
              |v| >= 2 && |v| == 4 + |WireIP(ip).value| <= 20 && AttrsSize(m.attrs + [Attr(t, v)]) <= AttrsSize(m.attrs) + 24
  {
    hide AttrsSize, Put16, Xor16;
    if WireIP(ip).Some? {
      EncodeSnoc(m.attrs, Attr(t, XorValue(WireIP(ip).value, port, m.tid)));
    }
  }

  /** The same for MAPPED-ADDRESS. */
  method ReceivePlain(msg: Message, b: Message, addr: MappedAddress, t: uint16) returns (decodeErr: Option<DecodeError>, r: Reading)
    requires msg.raw.Valid() && b.raw.Valid() && b.attributes.Valid() && addr.ip.Valid() && addr.ip.arr != b.raw.arr
    modifies b, b.raw.arr, b.attributes.arr, addr, addr.ip.arr
    ensures var raw, d := old(msg.raw.View()), DecodeSpec(old(msg.raw.View()));
            && (decodeErr.None? <==> d.Ok())
            && (d.Ok() ==>
                  && Delivered(b, raw) && addr.ip.Valid() && (r.Address? ==> addr.ip.View() == r.ip && addr.port == r.port)
                  && var v := FirstValue(d.body.attrs, t);
                  && r == if v.Some? then ReadPlain(v.value) else AttributeMissing)
  {
    hide AttrsSize, DecodeSpec, ReadPlain, Ahead, Anchored, FirstValue;
    r := AttributeMissing;
    decodeErr := CloneTo(msg, b, {addr.ip.arr});
    if decodeErr.None? {
      r := addr.GetPlain(b, t, DecodeSpec(b.raw.View()).Message());
    }
  }

  function WithPlain(m: Msg, t: uint16, ip: Bytes, port: int): Msg
    requires WireIP(ip).Some?
  {
    m.(attrs := m.attrs + [Attr(t, PlainValue(WireIP(ip).value, port))])
  }

  /** The same for MAPPED-ADDRESS. */
  method SendPlainAddress(msg: Message, b: Message, addr: MappedAddress, t: uint16, ip: Bytes, port: int, ghost m: Msg)
    returns (sent: bool, decodeErr: Option<DecodeError>, r: Reading)
    requires msg.Holds(m) && AttrsSize(m.attrs) + 24 < 0x1_0000
    requires forall i :: 0 <= i < |m.attrs| ==> CompatType(m.attrs[i].typ) != CompatType(t)
    requires b != msg && b.raw.Valid() && b.attributes.Valid() && b.raw.arr != msg.raw.arr && b.attributes.arr != msg.attributes.arr
    requires addr.ip.Valid() && addr.ip.arr != b.raw.arr
    modifies msg, msg.raw.arr, msg.attributes.arr, b, b.raw.arr, b.attributes.arr, addr, addr.ip.arr
    ensures sent <==> WireIP(ip).Some?
    ensures sent ==> Delivered(b, Print(WithPlain(m, t, ip, port)))
    ensures sent && old(addr.ip.arr != msg.raw.arr) ==> msg.raw.Valid() && msg.raw.View() == Print(WithPlain(m, t, ip, port))
    ensures sent ==>
              && decodeErr.None? && r == Address(WireIP(ip).value, port % 0x1_0000)
              && addr.ip.Valid() && addr.ip.View() == WireIP(ip).value && addr.port == port % 0x1_0000
  {
    hide AttrsSize, Print, DecodeSpec, ReadPlain, PlainValue, Extend, SetLength, Ahead, Anchored, FirstValue, Delivered;
    r, decodeErr := AttributeMissing, None;
    PlainFits(m, t, ip, port);
    PrintedLength(m);
    var err := AddPlain(msg, t, ip, port, m, {});
    sent := !err;
    if sent {
      PlainOverTheWire(m, t, ip, port);
      decodeErr, r := ReceivePlain(msg, b, addr, CompatType(t));
    }
  }

  lemma PlainFits(m: Msg, t: uint16, ip: Bytes, port: int)
    ensures WireIP(ip).Some? ==>
              var v := PlainValue(WireIP(ip).value, port);
              |v| == 4 + |WireIP(ip).value| <= 20 && AttrsSize(m.attrs + [Attr(t, v)]) <= AttrsSize(m.attrs) + 24
  {
    hide AttrsSize, Put16;
    if WireIP(ip).Some? {
      EncodeSnoc(m.attrs, Attr(t, PlainValue(WireIP(ip).value, port)));
    }
  }
}
