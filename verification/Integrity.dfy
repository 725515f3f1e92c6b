/** MESSAGE-INTEGRITY and FINGERPRINT on a message object: both patch the length field for a while. */
module Integrity {
  import opened Base
  import opened Wire
  import opened Slices
  import opened Buffers
  import opened AttributeLists
  import opened Messages
  import opened Hmacs
  import opened IntegritySpec

  /** The buffers of a pooled HMAC are its own. */
  ghost predicate Private<S(!new)>(mac: Hmac<S>, s: Slice<byte>, list: seq<RawAttribute>)
    reads mac
  {
    Avoids(s, list, {mac.ipad.arr, mac.opad.arr})
  }

  /** Patches the length field and computes a code over the first `n` octets. The code passes through
      the spare capacity behind the buffer. */
  method MacPatched<S(!new)>(mac: Hmac<S>, key: Bytes, s: Slice<byte>, size: uint32, n: nat,
                             ghost list: seq<RawAttribute>, ghost attrs: seq<Attr>, ghost length: nat) returns (tag: Bytes)
    requires mac.Sound() && Private(mac, s, list) && s.Valid() && n <= s.len && HEADER_SIZE + length <= s.len
    requires Shows(list, attrs) && Anchored(list, s, length)
    modifies mac, mac.outer, mac.inner, mac.ipad.arr, mac.opad.arr, s.arr
    ensures mac.Sound() && Private(mac, s, list)
    ensures (mac.ipad.arr == old(mac.ipad.arr) || fresh(mac.ipad.arr)) && (mac.opad.arr == old(mac.opad.arr) || fresh(mac.opad.arr))
    ensures s.View() == SetLength(old(s.View()), size) && Shows(list, attrs)
    ensures tag == Mac(mac.alg, key, s.View()[..n]) && |tag| == mac.alg.size
  {
    hide Mac, Lawful;
    PokeHeader(s, 2, Put16(size % 0x1_0000), list, attrs, length);
    ghost var view := s.View();
    var spare := s.Sub(s.len, s.len);
    label patched:
    var r := NewHmac(mac, key, s.View()[..n], spare);
    assert [] + Mac(mac.alg, key, view[..n]) == Mac(mac.alg, key, view[..n]);
    tag := r.View();
    assert s.View() == view;
    forall k | 0 <= k < |list| ensures ShowsOne(list[k], attrs[k]) {
      assert old@patched(ShowsOne(list[k], attrs[k]));
      assert list[k].value.View() == old@patched(list[k].value.View());
    }
  }

  /** Appends the code of the buffer under a header that already counts it; fails, changing nothing, if a
      FINGERPRINT is there. */
  method AddIntegrity<S(!new)>(msg: Message, mac: Hmac<S>, key: Bytes, ghost m: Msg) returns (err: bool)
    requires msg.Backed(m) && (Has(m.attrs, FINGERPRINT) || msg.length + ATTR_HEADER_SIZE + INTEGRITY_SIZE < LENGTH_LIMIT)
    requires mac.Sound() && mac.alg.size == INTEGRITY_SIZE && Private(mac, msg.raw, msg.attributes.View())
    modifies msg, msg.raw.arr, msg.attributes.arr, mac, mac.outer, mac.inner, mac.ipad.arr, mac.opad.arr
    ensures mac.Sound() && err == Has(m.attrs, FINGERPRINT)
    ensures err ==> msg.Backed(m) && msg.length == old(msg.length) && msg.raw.View() == old(msg.raw.View())
    ensures !err ==>
              var tag := Attr(MESSAGE_INTEGRITY, Mac(mac.alg, key, SetLength(old(msg.raw.View()), old(msg.length) + ATTR_HEADER_SIZE + INTEGRITY_SIZE)));
              msg.Backed(m.(attrs := m.attrs + [tag])) && msg.raw.View() == Extend(old(msg.raw.View()), old(msg.length), tag)
    ensures old(msg.Holds(m)) ==> msg.Holds(if err then m else Signed(mac.alg, key, m))
    ensures (msg.raw.arr == old(msg.raw.arr) || fresh(msg.raw.arr)) && (msg.attributes.arr == old(msg.attributes.arr) || fresh(msg.attributes.arr))
    ensures Private(mac, msg.raw, msg.attributes.View())
    ensures (mac.ipad.arr == old(mac.ipad.arr) || fresh(mac.ipad.arr)) && (mac.opad.arr == old(mac.opad.arr) || fresh(mac.opad.arr))
  {
    hide Mac, Lawful, Print, AttrsSize, SetLength, First, Extend, Ahead, Anchored;
    var i := IndexOf(msg.attributes, FINGERPRINT, m.attrs);
    err := i < msg.attributes.len;
    if !err {
      SignBuffer(msg, mac, key, m);
      SignedBuffer(mac.alg, key, m);
    }
  }

  /** An encoding extended by its code is that of the signed message. */
  lemma SignedBuffer<S>(h: Hash<S>, key: Bytes, m: Msg)
    ensures var size := AttrsSize(m.attrs);
            && |Print(m)| == HEADER_SIZE + size
            && var tag := Attr(MESSAGE_INTEGRITY, Mac(h, key, SetLength(Print(m), size + ATTR_HEADER_SIZE + INTEGRITY_SIZE)));
            && m.(attrs := m.attrs + [tag]) == Signed(h, key, m)
            && Extend(Print(m), size, tag) == Print(Signed(h, key, m))
  {
    hide Mac, Print, AttrsSize, SetLength, Extend;
    SignedHeader(m);
    PrintedLength(m);
    PrintSnoc(m, Attr(MESSAGE_INTEGRITY, Mac(h, key, ToSign(m))), Print(m));
  }

  /** Appends the code of the buffer under a header that already counts it. */
  method SignBuffer<S(!new)>(msg: Message, mac: Hmac<S>, key: Bytes, ghost m: Msg)
    requires msg.Backed(m) && msg.length + ATTR_HEADER_SIZE + INTEGRITY_SIZE < LENGTH_LIMIT
    requires mac.Sound() && mac.alg.size == INTEGRITY_SIZE && Private(mac, msg.raw, msg.attributes.View())
    modifies msg, msg.raw.arr, msg.attributes.arr, mac, mac.outer, mac.inner, mac.ipad.arr, mac.opad.arr
    ensures var tag := Attr(MESSAGE_INTEGRITY, Mac(mac.alg, key, SetLength(old(msg.raw.View()), old(msg.length) + ATTR_HEADER_SIZE + INTEGRITY_SIZE)));
            msg.Backed(m.(attrs := m.attrs + [tag])) && msg.raw.View() == Extend(old(msg.raw.View()), old(msg.length), tag)
    ensures mac.Sound() && Private(mac, msg.raw, msg.attributes.View())
    ensures (msg.raw.arr == old(msg.raw.arr) || fresh(msg.raw.arr)) && (msg.attributes.arr == old(msg.attributes.arr) || fresh(msg.attributes.arr))
    ensures (mac.ipad.arr == old(mac.ipad.arr) || fresh(mac.ipad.arr)) && (mac.opad.arr == old(mac.opad.arr) || fresh(mac.opad.arr))
  {
    hide Mac, Lawful, Print, AttrsSize, SetLength, Extend, Ahead, Anchored;
    var tag := SignaturePatched(msg, mac, key, m);
    AddOver(msg, MESSAGE_INTEGRITY, tag, m, {mac.ipad.arr, mac.opad.arr}, old(msg.raw.View()), old(msg.length) + ATTR_HEADER_SIZE + INTEGRITY_SIZE);
  }

  /** Appends an attribute to a buffer whose length field was patched, as if it had not been. */
  method AddOver(msg: Message, t: uint16, value: Bytes, ghost m: Msg, ghost keep: set<array<byte>>, ghost was: Bytes, ghost patch: nat)
    requires msg.Backed(m) && msg.length + ATTR_HEADER_SIZE + |value| < LENGTH_LIMIT && |value| % 4 == 0
    requires |was| == msg.raw.len && msg.raw.View() == SetLength(was, patch) && Avoids(msg.raw, msg.attributes.View(), keep)
    modifies msg, msg.raw.arr, msg.attributes.arr
    ensures msg.Backed(m.(attrs := m.attrs + [Attr(t, value)])) && msg.raw.View() == Extend(was, old(msg.length), Attr(t, value))
    ensures Avoids(msg.raw, msg.attributes.View(), keep)
    ensures (msg.raw.arr == old(msg.raw.arr) || fresh(msg.raw.arr)) && (msg.attributes.arr == old(msg.attributes.arr) || fresh(msg.attributes.arr))
  {
    assert Padded(|value|) == |value|;
    hide Print, AttrsSize, SetLength, Extend, Ahead, Anchored, Padded;
    ExtendPatched(was, patch, msg.length, Attr(t, value));
    msg.AddBytes(t, value, m, keep);
  }

  /** What the length field holds does not matter to an extension. */
  lemma ExtendPatched(raw: Bytes, patch: nat, length: nat, a: Attr)
    requires HEADER_SIZE + length <= |raw|
    ensures Extend(SetLength(raw, patch), length, a) == Extend(raw, length, a)
  {
    hide EncodeAttr, AttrSize, Put16;
    var first := HEADER_SIZE + length;
    assert SetLength(raw, patch)[..first] == SetLength(raw[..first], patch);
    SetLengthAppend(raw[..first], patch, EncodeAttr(a));
    SetLengthTwice(raw[..first] + EncodeAttr(a), patch, length + AttrSize(a));
  }

  /** Computes the code with the length field patched. The field is left patched for `Add` to write. */
  method SignaturePatched<S(!new)>(msg: Message, mac: Hmac<S>, key: Bytes, ghost m: Msg) returns (tag: Bytes)
    requires msg.Backed(m) && msg.length + ATTR_HEADER_SIZE + INTEGRITY_SIZE < LENGTH_LIMIT
    requires mac.Sound() && Private(mac, msg.raw, msg.attributes.View())
    modifies msg`length, msg.raw.arr, mac, mac.outer, mac.inner, mac.ipad.arr, mac.opad.arr
    ensures mac.Sound() && msg.Backed(m) && msg.length == old(msg.length)
    ensures msg.raw.View() == SetLength(old(msg.raw.View()), msg.length + ATTR_HEADER_SIZE + INTEGRITY_SIZE)
    ensures tag == Mac(mac.alg, key, msg.raw.View()) && |tag| == mac.alg.size
    ensures old(msg.Holds(m)) ==> msg.Laid(m) && tag == Mac(mac.alg, key, ToSign(m))
    ensures Private(mac, msg.raw, msg.attributes.View())
    ensures (mac.ipad.arr == old(mac.ipad.arr) || fresh(mac.ipad.arr)) && (mac.opad.arr == old(mac.opad.arr) || fresh(mac.opad.arr))
  {
    hide Mac, Lawful, Print, AttrsSize, SetLength, Ahead;
    var length := msg.length;
    SignedHeader(m);
    msg.length := msg.length + ATTR_HEADER_SIZE + INTEGRITY_SIZE;
    tag := MacPatched(mac, key, msg.raw, msg.length, msg.raw.len, msg.attributes.View(), m.attrs, length);
    msg.length := length;
    assert msg.raw.View()[..msg.raw.len] == msg.raw.View();
  }

  lemma SignedHeader(m: Msg)
    ensures var size := AttrsSize(m.attrs);
            && |Print(m)| == HEADER_SIZE + size
            && SetLength(Print(m), size + ATTR_HEADER_SIZE + INTEGRITY_SIZE) == ToSign(m)
            && SetLength(ToSign(m), size) == Print(m)
            && Padded(INTEGRITY_SIZE) == INTEGRITY_SIZE
  {
    hide AttrsSize, EncodeAttrs, Header;
    var size := AttrsSize(m.attrs);
    HeaderLength(m.typ, size, size + ATTR_HEADER_SIZE + INTEGRITY_SIZE, m.tid, EncodeAttrs(m.attrs));
    HeaderLength(m.typ, size + ATTR_HEADER_SIZE + INTEGRITY_SIZE, size, m.tid, EncodeAttrs(m.attrs));
  }

  /** The room taken by the attributes after the first of a type, from their length fields. */
  method SizeAfter(list: Slice<RawAttribute>, t: uint16, ghost attrs: seq<Attr>) returns (reduced: nat)
    requires list.Valid() && Shows(list.View(), attrs) && AttrsSize(attrs) < 0x1_0000
    ensures reduced == if Has(attrs, t) then AttrsSize(attrs[First(attrs, t) + 1..]) else 0
  {
    hide Padded, AttrsSize, First;
    reduced := 0;
    var after := false;
    ghost var f := First(attrs, t);
    for i := 0 to list.len
      invariant after == (f < i)
      invariant reduced == if after then AttrsSize(attrs[f + 1..i]) else 0
    {
      var a := list.arr[list.off + i];
      assert a == list.View()[i] && ShowsOne(list.View()[i], attrs[i]);
      ValueWithin(attrs, i);
      if after {
        reduced := reduced + Padded(a.length);
        reduced := reduced + ATTR_HEADER_SIZE;
        TakeMore(attrs, f + 1, i);
      } else {
        NoneTaken(attrs, i + 1);
      }
      if a.typ == t {
        after := true;
      }
    }
    if f < list.len {
      assert attrs[f + 1..list.len] == attrs[f + 1..];
    }
  }

  lemma TakeMore(attrs: seq<Attr>, from: nat, i: nat)
    requires from <= i < |attrs|
    ensures AttrsSize(attrs[from..i + 1]) == AttrsSize(attrs[from..i]) + AttrSize(attrs[i])
  {
    assert attrs[from..i + 1] == attrs[from..i] + [attrs[i]];
    EncodeSnoc(attrs[from..i], attrs[i]);
  }

  lemma NoneTaken(attrs: seq<Attr>, i: nat)
    requires i <= |attrs|
    ensures AttrsSize(attrs[i..i]) == 0
  {
  }

  /** Checks the code of the first MESSAGE-INTEGRITY and leaves the message as it was. The uint32
      subtractions are written out; they never wrap. */
  method CheckIntegrity<S(!new)>(msg: Message, mac: Hmac<S>, key: Bytes, ghost m: Msg) returns (err: Option<CheckError>)
    requires msg.Readable(m)
    requires mac.Sound() && Private(mac, msg.raw, msg.attributes.View())
    modifies msg`length, msg.raw.arr, mac, mac.outer, mac.inner, mac.ipad.arr, mac.opad.arr
    ensures mac.Sound() && Private(mac, msg.raw, msg.attributes.View())
    ensures (mac.ipad.arr == old(mac.ipad.arr) || fresh(mac.ipad.arr)) && (mac.opad.arr == old(mac.opad.arr) || fresh(mac.opad.arr))
    ensures msg.length == old(msg.length) && msg.raw.View() == old(msg.raw.View()) && msg.Readable(m)
    ensures err == IntegrityVerdict(mac.alg, key, msg.raw.View(), m.attrs)
  {
    hide Mac, Lawful, AttrsSize, SetLength, First, StartOfHmac, CoveredSize;
    var i := IndexOf(msg.attributes, MESSAGE_INTEGRITY, m.attrs);
    if i >= msg.attributes.len {
      return Some(NotFound);
    }
    var length := msg.length;
    var covered, start := ReducedLength(length, msg.attributes, m.attrs);
    PrefixArithmetic(m.attrs);
    msg.length := covered;
    var expected := MacAt(msg, mac, key, start, length, m);
    assert ShowsOne(msg.attributes.View()[i], m.attrs[i]);
    var val := msg.attributes.View()[i].value.View();
    err := if val == expected then None else Some(IntegrityMismatch);
  }

  method ReducedLength(length: uint32, list: Slice<RawAttribute>, ghost attrs: seq<Attr>) returns (covered: uint32, start: uint32)
    requires list.Valid() && Shows(list.View(), attrs) && length == AttrsSize(attrs) < 0x1_0000 && Has(attrs, MESSAGE_INTEGRITY)
    ensures covered == CoveredSize(attrs) && start == StartOfHmac(attrs)
  {
    hide AttrsSize, First;
    var reduced := SizeAfter(list, MESSAGE_INTEGRITY, attrs);
    PrefixArithmetic(attrs);
    covered := (length - reduced) % LENGTH_LIMIT;
    start := (HEADER_SIZE + covered - (ATTR_HEADER_SIZE + INTEGRITY_SIZE)) % LENGTH_LIMIT;
  }

  /** The code over the first `start` octets under the current, reduced length; then the full length
      goes back. */
  method MacAt<S(!new)>(msg: Message, mac: Hmac<S>, key: Bytes, start: nat, length: uint32, ghost m: Msg) returns (tag: Bytes)
    requires length == AttrsSize(m.attrs) < 0x1_0000 && HEADER_SIZE + length <= msg.raw.len && start <= msg.raw.len
    requires msg.raw.Valid() && msg.attributes.Valid() && msg.raw.View()[2..4] == Put16(length)
    requires Shows(msg.attributes.View(), m.attrs) && Anchored(msg.attributes.View(), msg.raw, length)
    requires mac.Sound() && Private(mac, msg.raw, msg.attributes.View())
    modifies msg`length, msg.raw.arr, mac, mac.outer, mac.inner, mac.ipad.arr, mac.opad.arr
    ensures mac.Sound() && Private(mac, msg.raw, msg.attributes.View())
    ensures (mac.ipad.arr == old(mac.ipad.arr) || fresh(mac.ipad.arr)) && (mac.opad.arr == old(mac.opad.arr) || fresh(mac.opad.arr))
    ensures tag == Mac(mac.alg, key, SetLength(old(msg.raw.View()), old(msg.length))[..start])
    ensures msg.length == length && msg.raw.View() == old(msg.raw.View())
    ensures Shows(msg.attributes.View(), m.attrs)
  {
    hide Mac, Lawful, AttrsSize, SetLength;
    ghost var view, list := msg.raw.View(), msg.attributes.View();
    tag := MacPatched(mac, key, msg.raw, msg.length, start, list, m.attrs, length);
    msg.length := length;
    PokeHeader(msg.raw, 2, Put16(length % 0x1_0000), list, m.attrs, length);
    LengthRestored(view, old(msg.length), length);
  }

  lemma LengthRestored(raw: Bytes, size: nat, length: uint16)
    requires |raw| >= 4 && raw[2..4] == Put16(length)
    ensures var patched := SetLength(raw, size); patched[..2] + Put16(length % 0x1_0000) + patched[4..] == raw
  {
    hide Put16;
  }

  // FINGERPRINT.

  method AddFingerprint(msg: Message, crc: Bytes -> uint32, ghost m: Msg, ghost keep: set<array<byte>>)
    requires msg.Backed(m) && msg.length + ATTR_HEADER_SIZE + FINGERPRINT_SIZE < LENGTH_LIMIT
    modifies msg, msg.raw.arr, msg.attributes.arr
    ensures var stamped := SetLength(old(msg.raw.View()), old(msg.length) + ATTR_HEADER_SIZE + FINGERPRINT_SIZE);
            var tag := Attr(FINGERPRINT, Put32(FingerprintValue(crc, stamped)));
            msg.Backed(m.(attrs := m.attrs + [tag])) && msg.raw.View() == Extend(old(msg.raw.View()), old(msg.length), tag)
    ensures old(msg.Holds(m)) ==> msg.Holds(Stamped(crc, m))
    ensures old(Avoids(msg.raw, msg.attributes.View(), keep)) ==> Avoids(msg.raw, msg.attributes.View(), keep)
    ensures (msg.raw.arr == old(msg.raw.arr) || fresh(msg.raw.arr)) && (msg.attributes.arr == old(msg.attributes.arr) || fresh(msg.attributes.arr))
  {
    hide Print, AttrsSize, SetLength, Put32, FingerprintValue, Extend, Ahead;
    StampedHeader(m);
    ghost var was, size := msg.raw.View(), msg.length + ATTR_HEADER_SIZE + FINGERPRINT_SIZE;
    var val := StampPatched(msg, crc, m);
    ExtendPatched(was, size, msg.length, Attr(FINGERPRINT, Put32(val)));
    msg.AddBytes(FINGERPRINT, Put32(val), m, keep);
  }

  method StampPatched(msg: Message, crc: Bytes -> uint32, ghost m: Msg) returns (val: uint32)
    requires msg.Backed(m) && msg.length + ATTR_HEADER_SIZE + FINGERPRINT_SIZE < LENGTH_LIMIT
    modifies msg`length, msg.raw.arr
    ensures msg.Backed(m) && msg.length == old(msg.length)
    ensures msg.raw.View() == SetLength(old(msg.raw.View()), msg.length + ATTR_HEADER_SIZE + FINGERPRINT_SIZE)
    ensures val == FingerprintValue(crc, msg.raw.View())
    ensures old(msg.Holds(m)) ==> msg.Laid(m) && msg.raw.View() == ToStamp(m)
  {
    hide Print, AttrsSize, FingerprintValue, Ahead, Put16;
    var length := msg.length;
    StampedHeader(m);
    msg.length := msg.length + ATTR_HEADER_SIZE + FINGERPRINT_SIZE;
    PokeHeader(msg.raw, 2, Put16(msg.length % 0x1_0000), msg.attributes.View(), m.attrs, length);
    val := FingerprintValue(crc, msg.raw.View());
    msg.length := length;
  }

  lemma StampedHeader(m: Msg)
    ensures var size := AttrsSize(m.attrs);
            var raw := Print(m);
            && |raw| == HEADER_SIZE + size
            && SetLength(raw, size + ATTR_HEADER_SIZE + FINGERPRINT_SIZE) == ToStamp(m)
            && SetLength(ToStamp(m), size) == Print(m)
            && Padded(FINGERPRINT_SIZE) == FINGERPRINT_SIZE
  {
    hide AttrsSize, EncodeAttrs, Header;
    var size := AttrsSize(m.attrs);
    HeaderLength(m.typ, size, size + ATTR_HEADER_SIZE + FINGERPRINT_SIZE, m.tid, EncodeAttrs(m.attrs));
    HeaderLength(m.typ, size + ATTR_HEADER_SIZE + FINGERPRINT_SIZE, size, m.tid, EncodeAttrs(m.attrs));
  }

  /** Only reads the message. */
  method CheckFingerprint(msg: Message, crc: Bytes -> uint32, ghost m: Msg) returns (err: Option<CheckError>)
    requires msg.Readable(m)
    ensures err == FingerprintVerdict(crc, msg.raw.View(), m.attrs)
  {
    hide AttrsSize, First, FingerprintValue, Get32;
    var i := IndexOf(msg.attributes, FINGERPRINT, m.attrs);
    if i >= msg.attributes.len {
      return Some(NotFound);
    }
    assert ShowsOne(msg.attributes.View()[i], m.attrs[i]);
    var b := msg.attributes.View()[i].value.View();
    if |b| != FINGERPRINT_SIZE {
      return Some(SizeInvalid);
    }
    var attrStart := msg.raw.len - (FINGERPRINT_SIZE + ATTR_HEADER_SIZE);
    var expected := FingerprintValue(crc, msg.raw.View()[..attrStart]);
    err := if Get32(b, 0) == expected then None else Some(FingerprintMismatch);
  }

  // Batches.

  datatype Checker = ByIntegrity(key: Bytes) | ByFingerprint

  function Verdict<S>(h: Hash<S>, crc: Bytes -> uint32, raw: Bytes, attrs: seq<Attr>, c: Checker): Option<CheckError>
    requires |raw| >= HEADER_SIZE + AttrsSize(attrs)
  {
    match c
    case ByIntegrity(key) => IntegrityVerdict(h, key, raw, attrs)
    case ByFingerprint => FingerprintVerdict(crc, raw, attrs)
  }

  /** Of a message with any code and any value at the end, each check answers for its own. */
  lemma ClaimsExact<S>(h: Hash<S>, crc: Bytes -> uint32, key: Bytes, m: Msg, v: Bytes, later: seq<Attr>, w: uint32)
    requires |v| == INTEGRITY_SIZE && !Has(m.attrs, MESSAGE_INTEGRITY)
    requires var mid := m.attrs + ([Attr(MESSAGE_INTEGRITY, v)] + later); !Has(mid, FINGERPRINT)
    ensures var mid := m.(attrs := m.attrs + ([Attr(MESSAGE_INTEGRITY, v)] + later));
            var full := m.(attrs := mid.attrs + [Attr(FINGERPRINT, Put32(w))]);
            && |Print(full)| >= HEADER_SIZE + AttrsSize(full.attrs)
            && Verdict(h, crc, Print(full), full.attrs, ByIntegrity(key)) == (if v == Mac(h, key, ToSign(m)) then None else Some(IntegrityMismatch))
            && Verdict(h, crc, Print(full), full.attrs, ByFingerprint)
               == (if w == FingerprintValue(crc, ToStamp(mid)) then None else Some(FingerprintMismatch))
  {
    hide Mac, ToSign, ToStamp, FingerprintValue, Print, AttrsSize, Has, IntegrityVerdict, FingerprintVerdict, Put32;
    var tag, stamp := Attr(MESSAGE_INTEGRITY, v), Attr(FINGERPRINT, Put32(w));
    var mid := m.(attrs := m.attrs + ([tag] + later));
    var full := m.(attrs := mid.attrs + [stamp]);
    assert full.attrs == m.attrs + ([tag] + (later + [stamp]));
    assert Print(full) + [] == Print(full);
    IntegrityExact(h, key, m, v, later + [stamp], []);
    FingerprintExact(crc, mid, w);
  }

  method CheckOne<S(!new)>(msg: Message, mac: Hmac<S>, crc: Bytes -> uint32, c: Checker, ghost m: Msg)
    returns (err: Option<CheckError>)
    requires msg.Readable(m)
    requires mac.Sound() && Private(mac, msg.raw, msg.attributes.View())
    modifies msg`length, msg.raw.arr, mac, mac.outer, mac.inner, mac.ipad.arr, mac.opad.arr
    ensures mac.Sound() && Private(mac, msg.raw, msg.attributes.View())
    ensures (mac.ipad.arr == old(mac.ipad.arr) || fresh(mac.ipad.arr)) && (mac.opad.arr == old(mac.opad.arr) || fresh(mac.opad.arr))
    ensures msg.length == old(msg.length) && msg.raw.View() == old(msg.raw.View()) && msg.Readable(m)
    ensures err == Verdict(mac.alg, crc, msg.raw.View(), m.attrs, c)
  {
    hide Lawful, IntegrityVerdict, FingerprintVerdict, AttrsSize;
    match c {
      case ByIntegrity(key) => err := CheckIntegrity(msg, mac, key, m);
      case ByFingerprint => err := CheckFingerprint(msg, crc, m);
    }
  }

  /** Applies checks in order and stops at the first that fails. Checks do not disturb one another:
      each gives the verdict it would give alone, and the message is left as it was. */
  method CheckAll<S(!new)>(msg: Message, mac: Hmac<S>, crc: Bytes -> uint32, cs: seq<Checker>, ghost m: Msg)
    returns (err: Option<CheckError>)
    requires msg.Readable(m)
    requires mac.Sound() && Private(mac, msg.raw, msg.attributes.View())
    modifies msg`length, msg.raw.arr, mac, mac.outer, mac.inner, mac.ipad.arr, mac.opad.arr
    ensures mac.Sound() && msg.length == old(msg.length) && msg.raw.View() == old(msg.raw.View()) && msg.Readable(m)
    ensures Private(mac, msg.raw, msg.attributes.View())
    ensures (mac.ipad.arr == old(mac.ipad.arr) || fresh(mac.ipad.arr)) && (mac.opad.arr == old(mac.opad.arr) || fresh(mac.opad.arr))
    ensures err.None? <==> forall i :: 0 <= i < |cs| ==> Verdict(mac.alg, crc, msg.raw.View(), m.attrs, cs[i]).None?
    ensures err.Some? ==>
              exists i :: 0 <= i < |cs| && Verdict(mac.alg, crc, msg.raw.View(), m.attrs, cs[i]) == err
                          && forall j :: 0 <= j < i ==> Verdict(mac.alg, crc, msg.raw.View(), m.attrs, cs[j]).None?
  {
    hide Lawful, Verdict, AttrsSize, Ahead, Anchored;
    ghost var raw := msg.raw.View();
    err := None;
    for i := 0 to |cs|
      invariant msg.Readable(m) && mac.Sound() && Private(mac, msg.raw, msg.attributes.View())
      invariant mac.ipad.arr == old(mac.ipad.arr) || fresh(mac.ipad.arr)
      invariant mac.opad.arr == old(mac.opad.arr) || fresh(mac.opad.arr)
      invariant msg.length == old(msg.length) && msg.raw.View() == raw
      invariant err.None? && forall j :: 0 <= j < i ==> Verdict(mac.alg, crc, raw, m.attrs, cs[j]).None?
    {
      err := CheckOne(msg, mac, crc, cs[i], m);
      if err.Some? {
        return;
      }
    }
  }
}
