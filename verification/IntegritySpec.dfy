/** What MESSAGE-INTEGRITY and FINGERPRINT cover: sections 15.4 and 15.5 of RFC 5389. */
module IntegritySpec {
  import opened Base
  import opened Wire
  import opened AttributeLists
  import opened Hmacs

  const MESSAGE_INTEGRITY: uint16 := 0x0008
  const FINGERPRINT: uint16 := 0x8028
  const INTEGRITY_SIZE: nat := 20
  const FINGERPRINT_SIZE: nat := 4
  const FINGERPRINT_XOR: uint32 := 0x5354554e

  datatype CheckError = NotFound | SizeInvalid | IntegrityMismatch | FingerprintMismatch

  // MESSAGE-INTEGRITY.

  /** The octets signed: the message so far under a header that already counts the attribute. */
  function ToSign(m: Msg): Bytes {
    Header(m.typ, AttrsSize(m.attrs) + ATTR_HEADER_SIZE + INTEGRITY_SIZE, m.tid) + EncodeAttrs(m.attrs)
  }

  function Signed<S>(h: Hash<S>, key: Bytes, m: Msg): Msg {
    m.(attrs := m.attrs + [Attr(MESSAGE_INTEGRITY, Mac(h, key, ToSign(m)))])
  }

  /** The size of the body up to and including the first MESSAGE-INTEGRITY. */
  function CoveredSize(attrs: seq<Attr>): nat
    requires Has(attrs, MESSAGE_INTEGRITY)
  {
    AttrsSize(attrs[..First(attrs, MESSAGE_INTEGRITY) + 1])
  }

  /** Where the attribute is taken to start, assuming that it has 20 octets. */
  function StartOfHmac(attrs: seq<Attr>): int
    requires Has(attrs, MESSAGE_INTEGRITY)
  {
    HEADER_SIZE + CoveredSize(attrs) - (ATTR_HEADER_SIZE + INTEGRITY_SIZE)
  }

  /** The subtractions by which the start is found stay within the body, and hit the header of the
      first MESSAGE-INTEGRITY exactly when its value takes 20 octets with padding. */
  lemma PrefixArithmetic(attrs: seq<Attr>)
    requires Has(attrs, MESSAGE_INTEGRITY)
    ensures var i := First(attrs, MESSAGE_INTEGRITY);
            && CoveredSize(attrs) == AttrsSize(attrs[..i]) + AttrSize(attrs[i])
            && CoveredSize(attrs) + AttrsSize(attrs[i + 1..]) == AttrsSize(attrs)
            && 0 <= StartOfHmac(attrs) < HEADER_SIZE + CoveredSize(attrs)
            && (StartOfHmac(attrs) == HEADER_SIZE + AttrsSize(attrs[..i]) <==> Padded(|attrs[i].value|) == INTEGRITY_SIZE)
  {
    hide AttrsSize, Padded;
    var i := First(attrs, MESSAGE_INTEGRITY);
    NextSize(attrs, i);
    assert attrs == attrs[..i + 1] + attrs[i + 1..];
    EncodeAppend(attrs[..i + 1], attrs[i + 1..]);
  }

  /** The octets a check runs over: a prefix of the buffer under a header that counts no more than
      the first MESSAGE-INTEGRITY. */
  function ToCheck(raw: Bytes, attrs: seq<Attr>): Bytes
    requires Has(attrs, MESSAGE_INTEGRITY) && |raw| >= HEADER_SIZE + AttrsSize(attrs)
  {
    PrefixArithmetic(attrs);
    SetLength(raw, CoveredSize(attrs))[..StartOfHmac(attrs)]
  }

  function IntegrityVerdict<S>(h: Hash<S>, key: Bytes, raw: Bytes, attrs: seq<Attr>): Option<CheckError>
    requires |raw| >= HEADER_SIZE + AttrsSize(attrs)
  {
    if !Has(attrs, MESSAGE_INTEGRITY) then Some(NotFound)
    else if attrs[First(attrs, MESSAGE_INTEGRITY)].value == Mac(h, key, ToCheck(raw, attrs)) then None
    else Some(IntegrityMismatch)
  }

  // Signing then checking.

  /** The front of an encoding does not depend on what follows, given the length field. */
  lemma FrontOfPrinted(m: Msg, more: seq<Attr>, trailing: Bytes, size: nat)
    ensures var raw := Print(m.(attrs := m.attrs + more)) + trailing;
            && |raw| >= HEADER_SIZE + AttrsSize(m.attrs + more) >= HEADER_SIZE + AttrsSize(m.attrs)
            && SetLength(raw, size)[..HEADER_SIZE + AttrsSize(m.attrs)] == Header(m.typ, size, m.tid) + EncodeAttrs(m.attrs)
  {
    hide EncodeAttrs, AttrsSize, Header, SetLength;
    var front, back, total := EncodeAttrs(m.attrs), EncodeAttrs(more), AttrsSize(m.attrs + more);
    EncodeAppend(m.attrs, more);
    var raw := Print(m.(attrs := m.attrs + more)) + trailing;
    assert raw == Header(m.typ, total, m.tid) + (front + back + trailing);
    HeaderLength(m.typ, total, size, m.tid, front + back + trailing);
    assert Header(m.typ, size, m.tid) + (front + back + trailing) == (Header(m.typ, size, m.tid) + front) + (back + trailing);
  }

  /** `attrs` has `tag` as its first MESSAGE-INTEGRITY, behind attributes as long as those of `m`. */
  lemma CheckCoversSigned(m: Msg, tag: Attr, later: seq<Attr>, trailing: Bytes, attrs: seq<Attr>)
    requires |tag.value| == INTEGRITY_SIZE
    requires |m.attrs| < |attrs| && First(attrs, MESSAGE_INTEGRITY) == |m.attrs| && attrs[|m.attrs|] == tag
    requires AttrsSize(attrs[..|m.attrs|]) == AttrsSize(m.attrs)
    requires AttrsSize(attrs) == AttrsSize(m.attrs + ([tag] + later))
    ensures var raw := Print(m.(attrs := m.attrs + ([tag] + later))) + trailing;
            |raw| >= HEADER_SIZE + AttrsSize(attrs) && ToCheck(raw, attrs) == ToSign(m)
  {
    hide AttrsSize, EncodeAttrs, Header, SetLength, Print;
    PrefixArithmetic(attrs);
    assert CoveredSize(attrs) == AttrsSize(m.attrs) + ATTR_HEADER_SIZE + INTEGRITY_SIZE;
    assert StartOfHmac(attrs) == HEADER_SIZE + AttrsSize(m.attrs);
    hide CoveredSize, StartOfHmac, Has, First;
    FrontOfPrinted(m, [tag] + later, trailing, AttrsSize(m.attrs) + ATTR_HEADER_SIZE + INTEGRITY_SIZE);
  }

  /** Reading the type of an attribute as the decoder does changes no size and no MESSAGE-INTEGRITY. */
  lemma {:induction false} CompatSame(attrs: seq<Attr>)
    ensures AttrsSize(CompatAll(attrs)) == AttrsSize(attrs)
    ensures forall t :: t != OLD_XOR_MAPPED && t != XOR_MAPPED_ADDRESS ==> First(CompatAll(attrs), t) == First(attrs, t)
  {
    if attrs != [] {
      CompatSame(attrs[1..]);
      assert CompatAll(attrs)[1..] == CompatAll(attrs[1..]);
    }
  }

  lemma TagFirst(attrs: seq<Attr>, tag: Attr, later: seq<Attr>)
    requires !Has(attrs, tag.typ)
    ensures First(attrs + ([tag] + later), tag.typ) == |attrs|
  {
    var all := attrs + ([tag] + later);
    forall j | 0 <= j < |attrs| ensures all[j].typ != tag.typ {
      assert attrs[j].typ != tag.typ;
    }
    FirstUnique(all, tag.typ, |attrs|);
  }

  /** The answer to a code that is claimed for a message. */
  function RightOrWrong<S>(h: Hash<S>, key: Bytes, m: Msg, v: Bytes): Option<CheckError> {
    if v == Mac(h, key, ToSign(m)) then None else Some(IntegrityMismatch)
  }

  lemma PlainVerdict<S>(h: Hash<S>, key: Bytes, m: Msg, tag: Attr, later: seq<Attr>, trailing: Bytes)
    requires tag.typ == MESSAGE_INTEGRITY && |tag.value| == INTEGRITY_SIZE && !Has(m.attrs, MESSAGE_INTEGRITY)
    ensures var attrs := m.attrs + ([tag] + later);
            var raw := Print(m.(attrs := attrs)) + trailing;
            |raw| >= HEADER_SIZE + AttrsSize(attrs) && IntegrityVerdict(h, key, raw, attrs) == RightOrWrong(h, key, m, tag.value)
  {
    hide Mac, ToSign, AttrsSize, Print, ToCheck;
    var attrs := m.attrs + ([tag] + later);
    TagFirst(m.attrs, tag, later);
    assert attrs[..|m.attrs|] == m.attrs;
    CheckCoversSigned(m, tag, later, trailing, attrs);
  }

  lemma CompatVerdict<S>(h: Hash<S>, key: Bytes, m: Msg, tag: Attr, later: seq<Attr>, trailing: Bytes)
    requires tag.typ == MESSAGE_INTEGRITY && |tag.value| == INTEGRITY_SIZE && !Has(m.attrs, MESSAGE_INTEGRITY)
    ensures var attrs := m.attrs + ([tag] + later);
            var raw := Print(m.(attrs := attrs)) + trailing;
            && AttrsSize(CompatAll(attrs)) == AttrsSize(attrs)
            && |raw| >= HEADER_SIZE + AttrsSize(attrs) && IntegrityVerdict(h, key, raw, CompatAll(attrs)) == RightOrWrong(h, key, m, tag.value)
  {
    hide Mac, ToSign, AttrsSize, Print, ToCheck;
    var attrs := m.attrs + ([tag] + later);
    TagFirst(m.attrs, tag, later);
    CompatSame(attrs);
    CompatSame(m.attrs);
    assert CompatAll(attrs)[..|m.attrs|] == CompatAll(m.attrs);
    CheckCoversSigned(m, tag, later, trailing, CompatAll(attrs));
  }

  /** Whatever 20 octets stand in the first MESSAGE-INTEGRITY, whatever is added after and follows in the buffer, a
      check succeeds if and only if they are the code of the message in front of them, and otherwise reports a
      mismatch; with the attribute types as they are or as a decoder reads them. */
  lemma IntegrityExact<S>(h: Hash<S>, key: Bytes, m: Msg, v: Bytes, later: seq<Attr>, trailing: Bytes)
    requires |v| == INTEGRITY_SIZE && !Has(m.attrs, MESSAGE_INTEGRITY)
    ensures var attrs := m.attrs + ([Attr(MESSAGE_INTEGRITY, v)] + later);
            var raw := Print(m.(attrs := attrs)) + trailing;
            && |raw| >= HEADER_SIZE + AttrsSize(attrs) == HEADER_SIZE + AttrsSize(CompatAll(attrs))
            && IntegrityVerdict(h, key, raw, attrs) == (if v == Mac(h, key, ToSign(m)) then None else Some(IntegrityMismatch))
            && IntegrityVerdict(h, key, raw, CompatAll(attrs)) == (if v == Mac(h, key, ToSign(m)) then None else Some(IntegrityMismatch))
  {
    hide Mac, ToSign, AttrsSize, Print, IntegrityVerdict;
    PlainVerdict(h, key, m, Attr(MESSAGE_INTEGRITY, v), later, trailing);
    CompatVerdict(h, key, m, Attr(MESSAGE_INTEGRITY, v), later, trailing);
  }

  /** In any buffer: a check succeeds if and only if the 20 octets of the first MESSAGE-INTEGRITY are the code of the
      octets in front of it, with the length field counting it as the last attribute. */
  lemma VerdictExact<S>(h: Hash<S>, key: Bytes, raw: Bytes, attrs: seq<Attr>, i: nat)
    requires HEADER_SIZE + AttrsSize(attrs) <= |raw| && i < |attrs| && attrs[i].typ == MESSAGE_INTEGRITY && |attrs[i].value| == 20
    requires forall j :: 0 <= j < i ==> attrs[j].typ != MESSAGE_INTEGRITY
    ensures var size := AttrsSize(attrs[..i]);
            && 20 + size <= |raw|
            && var text := raw[..2] + Put16((size + 24) % 0x1_0000) + raw[4..20 + size];
            IntegrityVerdict(h, key, raw, attrs) == if attrs[i].value == Mac(h, key, text) then None else Some(IntegrityMismatch)
  {
    hide Mac, AttrsSize, First;
    FirstUnique(attrs, MESSAGE_INTEGRITY, i);
    PrefixArithmetic(attrs);
    var size := AttrsSize(attrs[..i]);
    assert AttrSize(attrs[i]) == 24;
    assert SetLength(raw, size + 24)[..20 + size] == raw[..2] + Put16((size + 24) % 0x1_0000) + raw[4..20 + size];
  }

  /** Without the attribute there is nothing to check, and a value of any other size is not a code. */
  lemma VerdictRefuses<S>(h: Hash<S>, key: Bytes, raw: Bytes, attrs: seq<Attr>)
    requires HEADER_SIZE + AttrsSize(attrs) <= |raw|
    ensures IntegrityVerdict(h, key, raw, attrs) == Some(NotFound) <==> forall i :: 0 <= i < |attrs| ==> attrs[i].typ != MESSAGE_INTEGRITY
    ensures Has(attrs, MESSAGE_INTEGRITY) && |attrs[First(attrs, MESSAGE_INTEGRITY)].value| != |Mac(h, key, ToCheck(raw, attrs))| ==>
              IntegrityVerdict(h, key, raw, attrs) == Some(IntegrityMismatch)
  {
    hide Mac, AttrsSize, ToCheck;
  }

  /** What is signed is what is sent in front of the code, length field included, if the code is sent last. */
  lemma SignedIsSent<S>(h: Hash<S>, key: Bytes, m: Msg)
    requires |Mac(h, key, ToSign(m))| == INTEGRITY_SIZE
    ensures HEADER_SIZE + AttrsSize(m.attrs) <= |Print(Signed(h, key, m))|
    ensures ToSign(m) == Print(Signed(h, key, m))[..HEADER_SIZE + AttrsSize(m.attrs)]
  {
    hide Mac, AttrsSize, EncodeAttrs, Header;
    EncodeSnoc(m.attrs, Attr(MESSAGE_INTEGRITY, Mac(h, key, ToSign(m))));
  }

  /** Once signed, a message checks whatever is added after, with the attribute types as they are or
      as a decoder reads them, and whatever follows the message in the buffer. The code must have 20
      octets, as `MacSize` says it has for every hash of that size. */
  lemma IntegritySurvives<S>(h: Hash<S>, key: Bytes, m: Msg, later: seq<Attr>, trailing: Bytes)
    requires |Mac(h, key, ToSign(m))| == INTEGRITY_SIZE && !Has(m.attrs, MESSAGE_INTEGRITY)
    ensures var full := m.(attrs := Signed(h, key, m).attrs + later);
            var raw := Print(full) + trailing;
            && AttrsSize(CompatAll(full.attrs)) == AttrsSize(full.attrs)
            && |raw| >= HEADER_SIZE + AttrsSize(full.attrs)
            && IntegrityVerdict(h, key, raw, full.attrs).None?
            && IntegrityVerdict(h, key, raw, CompatAll(full.attrs)).None?
  {
    hide Mac, ToSign, AttrsSize, Print, IntegrityVerdict;
    var tag := Attr(MESSAGE_INTEGRITY, Mac(h, key, ToSign(m)));
    assert Signed(h, key, m).attrs + later == m.attrs + ([tag] + later);
    PlainVerdict(h, key, m, tag, later, trailing);
    CompatVerdict(h, key, m, tag, later, trailing);
  }

  // Messages that were decoded, with octets of their own in padding or behind the body.

  /** Where a check goes if the first MESSAGE-INTEGRITY is the last attribute. */
  lemma TagLast(attrs: seq<Attr>, tag: Attr)
    requires !Has(attrs, MESSAGE_INTEGRITY) && tag.typ == MESSAGE_INTEGRITY && |tag.value| == INTEGRITY_SIZE
    ensures AttrSize(tag) == ATTR_HEADER_SIZE + INTEGRITY_SIZE && AttrsSize(attrs + [tag]) == AttrsSize(attrs) + AttrSize(tag)
    ensures Has(attrs + [tag], MESSAGE_INTEGRITY) && FirstValue(attrs + [tag], MESSAGE_INTEGRITY) == Some(tag.value)
    ensures CoveredSize(attrs + [tag]) == AttrsSize(attrs) + AttrSize(tag) && StartOfHmac(attrs + [tag]) == HEADER_SIZE + AttrsSize(attrs)
  {
    hide AttrsSize;
    EncodeSnoc(attrs, tag);
    FirstUnique(attrs + [tag], MESSAGE_INTEGRITY, |attrs|);
    assert (attrs + [tag])[..|attrs| + 1] == attrs + [tag];
  }

  /** Then the check covers the buffer up to it, under the full length. */
  lemma CheckCoversBody(raw: Bytes, attrs: seq<Attr>, tag: Attr)
    requires HEADER_SIZE + AttrsSize(attrs) <= |raw| && !Has(attrs, MESSAGE_INTEGRITY)
    requires tag.typ == MESSAGE_INTEGRITY && |tag.value| == INTEGRITY_SIZE
    ensures Has(attrs + [tag], MESSAGE_INTEGRITY) && AttrsSize(attrs + [tag]) == AttrsSize(attrs) + AttrSize(tag)
    ensures ToCheck(Extend(raw, AttrsSize(attrs), tag), attrs + [tag])
         == SetLength(raw, AttrsSize(attrs) + AttrSize(tag))[..HEADER_SIZE + AttrsSize(attrs)]
  {
    TagLast(attrs, tag);
    hide AttrsSize, AttrSize, Has, SetLength, Extend, CoveredSize, StartOfHmac;
    FrontOfExtended(raw, AttrsSize(attrs), tag);
  }

  lemma WholeIff(a: Bytes, n: nat)
    requires n <= |a|
    ensures a[..n] == a <==> |a| == n
  {
  }

  /** Of a buffer that is signed as it is, the check covers what was signed exactly when nothing follows the
      body; then it succeeds. */
  lemma SignedVerdict<S>(h: Hash<S>, key: Bytes, raw: Bytes, attrs: seq<Attr>, signed: Bytes, tag: Attr)
    requires HEADER_SIZE + AttrsSize(attrs) <= |raw| && !Has(attrs, MESSAGE_INTEGRITY)
    requires signed == SetLength(raw, AttrsSize(attrs) + ATTR_HEADER_SIZE + INTEGRITY_SIZE)
    requires tag == Attr(MESSAGE_INTEGRITY, Mac(h, key, signed)) && |tag.value| == INTEGRITY_SIZE
    ensures Has(attrs + [tag], MESSAGE_INTEGRITY) && AttrsSize(attrs + [tag]) == AttrsSize(attrs) + AttrSize(tag)
    ensures ToCheck(Extend(raw, AttrsSize(attrs), tag), attrs + [tag]) == signed <==> |raw| == HEADER_SIZE + AttrsSize(attrs)
    ensures |raw| == HEADER_SIZE + AttrsSize(attrs) ==> IntegrityVerdict(h, key, Extend(raw, AttrsSize(attrs), tag), attrs + [tag]).None?
  {
    CheckCoversBody(raw, attrs, tag);
    TagLast(attrs, tag);
    hide Mac, AttrsSize, SetLength, EncodeAttr, Extend, ToCheck, First;
    WholeIff(signed, HEADER_SIZE + AttrsSize(attrs));
  }

  /** What is in front of an attribute, under the length it brings. */
  lemma FrontOfExtended(raw: Bytes, size: nat, a: Attr)
    requires HEADER_SIZE + size <= |raw|
    ensures SetLength(Extend(raw, size, a), size + AttrSize(a))[..HEADER_SIZE + size]
         == SetLength(raw, size + AttrSize(a))[..HEADER_SIZE + size]
  {
    hide EncodeAttr, AttrSize, Put16;
    var first := HEADER_SIZE + size;
    SetLengthTwice(raw[..first] + EncodeAttr(a), size + AttrSize(a), size + AttrSize(a));
    FrontOfPatched(raw[..first] + EncodeAttr(a), raw, first, size + AttrSize(a));
  }

  lemma FrontOfPatched(a: Bytes, b: Bytes, n: nat, size: nat)
    requires HEADER_SIZE <= n <= |a| && n <= |b| && a[..n] == b[..n]
    ensures SetLength(a, size)[..n] == SetLength(b, size)[..n]
  {
    hide Put16;
    var p := Put16(size % 0x1_0000);
    forall i | 0 <= i < n ensures SetLength(a, size)[i] == SetLength(b, size)[i] {
      assert a[..n][i] == b[..n][i];
    }
  }

  /** Adding any attribute to a buffer leaves its verdict as it was. */
  lemma VerdictKept<S>(h: Hash<S>, key: Bytes, raw: Bytes, attrs: seq<Attr>, a: Attr)
    requires HEADER_SIZE + AttrsSize(attrs) <= |raw| && Has(attrs, MESSAGE_INTEGRITY)
    ensures AttrsSize(attrs + [a]) == AttrsSize(attrs) + AttrSize(a)
    ensures IntegrityVerdict(h, key, Extend(raw, AttrsSize(attrs), a), attrs + [a]) == IntegrityVerdict(h, key, raw, attrs)
  {
    hide Mac, AttrsSize, First, AttrSize, EncodeAttr, SetLength;
    var i, size := First(attrs, MESSAGE_INTEGRITY), AttrsSize(attrs);
    var all := attrs + [a];
    EncodeSnoc(attrs, a);
    FirstUnique(all, MESSAGE_INTEGRITY, i);
    assert all[..i + 1] == attrs[..i + 1];
    PrefixArithmetic(attrs);
    PrefixArithmetic(all);
    ExtendedFront(raw, size, a);
    var covered, start := CoveredSize(attrs), StartOfHmac(attrs);
    FrontOfPatched(Extend(raw, size, a), SetLength(raw, size + AttrSize(a)), HEADER_SIZE + size, covered);
    SetLengthTwice(raw, size + AttrSize(a), covered);
    assert SetLength(Extend(raw, size, a), covered)[..start] == SetLength(Extend(raw, size, a), covered)[..HEADER_SIZE + size][..start];
    assert SetLength(raw, covered)[..start] == SetLength(raw, covered)[..HEADER_SIZE + size][..start];
  }

  lemma ExtendedFront(raw: Bytes, size: nat, a: Attr)
    requires HEADER_SIZE + size <= |raw|
    ensures Extend(raw, size, a)[..HEADER_SIZE + size] == SetLength(raw, size + AttrSize(a))[..HEADER_SIZE + size]
  {
    hide EncodeAttr, AttrSize, Put16;
    var first := HEADER_SIZE + size;
    FrontOfPatched(raw[..first] + EncodeAttr(a), raw, first, size + AttrSize(a));
  }

  // FINGERPRINT.

  function ToStamp(m: Msg): Bytes {
    Header(m.typ, AttrsSize(m.attrs) + ATTR_HEADER_SIZE + FINGERPRINT_SIZE, m.tid) + EncodeAttrs(m.attrs)
  }

  /** `crc` stands for CRC-32. */
  function FingerprintValue(crc: Bytes -> uint32, b: Bytes): uint32 {
    Xor32(crc(b), FINGERPRINT_XOR)
  }

  function Stamped(crc: Bytes -> uint32, m: Msg): Msg {
    m.(attrs := m.attrs + [Attr(FINGERPRINT, Put32(FingerprintValue(crc, ToStamp(m))))])
  }

  /** The check covers all but the last eight octets of the buffer, wherever the attribute is. */
  function FingerprintVerdict(crc: Bytes -> uint32, raw: Bytes, attrs: seq<Attr>): Option<CheckError>
    requires |raw| >= HEADER_SIZE
  {
    if !Has(attrs, FINGERPRINT) then Some(NotFound)
    else
      var v := attrs[First(attrs, FINGERPRINT)].value;
      if |v| != FINGERPRINT_SIZE then Some(SizeInvalid)
      else if Get32(v, 0) == FingerprintValue(crc, raw[..|raw| - (FINGERPRINT_SIZE + ATTR_HEADER_SIZE)]) then None
      else Some(FingerprintMismatch)
  }

  /** Those octets are the ones before the first FINGERPRINT exactly when nothing follows it, neither
      in the message nor in the buffer. */
  lemma FingerprintStart(raw: Bytes, attrs: seq<Attr>)
    requires Has(attrs, FINGERPRINT) && |attrs[First(attrs, FINGERPRINT)].value| == FINGERPRINT_SIZE
    requires HEADER_SIZE + AttrsSize(attrs) <= |raw|
    ensures var i := First(attrs, FINGERPRINT);
            |raw| - (FINGERPRINT_SIZE + ATTR_HEADER_SIZE) == HEADER_SIZE + AttrsSize(attrs[..i])
            <==> i == |attrs| - 1 && |raw| == HEADER_SIZE + AttrsSize(attrs)
  {
    var i := First(attrs, FINGERPRINT);
    NextSize(attrs, i);
    assert attrs == attrs[..i + 1] + attrs[i + 1..];
    EncodeAppend(attrs[..i + 1], attrs[i + 1..]);
  }

  /** Every bit of the value is that of the CRC, inverted where the constant has a one; so the CRC comes back. */
  lemma FingerprintMask(crc: Bytes -> uint32, b: Bytes, i: nat)
    requires i < 32
    ensures Bit(FingerprintValue(crc, b), i) == 1 <==> Bit(crc(b), i) != Bit(0x5354554e, i)
    ensures Xor32(FingerprintValue(crc, b), 0x5354554e) == crc(b)
  {
    Pow2Small();
    XorBit(crc(b), FINGERPRINT_XOR, 32, i);
    XorInvolutive(crc(b), FINGERPRINT_XOR, 32);
  }

  /** Whatever value stands in a FINGERPRINT at the end, a check succeeds if and only if it is that of the message in
      front of it, and otherwise reports a mismatch; as built and as decoded. */
  lemma FingerprintExact(crc: Bytes -> uint32, m: Msg, v: uint32)
    requires !Has(m.attrs, FINGERPRINT)
    ensures var full := m.(attrs := m.attrs + [Attr(FINGERPRINT, Put32(v))]);
            && |Print(full)| >= HEADER_SIZE
            && FingerprintVerdict(crc, Print(full), full.attrs)
               == (if v == FingerprintValue(crc, ToStamp(m)) then None else Some(FingerprintMismatch))
            && FingerprintVerdict(crc, Print(full), CompatAll(full.attrs))
               == (if v == FingerprintValue(crc, ToStamp(m)) then None else Some(FingerprintMismatch))
  {
    hide Put32, Get32, FingerprintValue, AttrsSize, EncodeAttrs, Header;
    var tag := Attr(FINGERPRINT, Put32(v));
    var full := m.(attrs := m.attrs + [tag]);
    var raw := Print(full);
    Get32Unique(tag.value, 0, v);
    TagFirst(m.attrs, tag, []);
    assert [tag] + [] == [tag];
    EncodeSnoc(m.attrs, tag);
    assert raw[..|raw| - 8] == ToStamp(m);
    CompatSame(full.attrs);
  }

  /** Without the attribute there is nothing to check, and a value of any size but four is refused for that. */
  lemma FingerprintRefuses(crc: Bytes -> uint32, raw: Bytes, attrs: seq<Attr>)
    requires |raw| >= HEADER_SIZE
    ensures FingerprintVerdict(crc, raw, attrs) == Some(NotFound) <==> forall i :: 0 <= i < |attrs| ==> attrs[i].typ != FINGERPRINT
    ensures FingerprintVerdict(crc, raw, attrs) == Some(SizeInvalid) <==>
              Has(attrs, FINGERPRINT) && |attrs[First(attrs, FINGERPRINT)].value| != 4
  {
    hide Get32, FingerprintValue;
  }

  /** In any buffer: a check of a value of four octets succeeds if and only if they are that of all the buffer but its
      last eight octets, and otherwise reports a mismatch. */
  lemma StampExact(crc: Bytes -> uint32, raw: Bytes, attrs: seq<Attr>, i: nat)
    requires |raw| >= HEADER_SIZE && i < |attrs| && attrs[i].typ == FINGERPRINT && |attrs[i].value| == 4
    requires forall j :: 0 <= j < i ==> attrs[j].typ != FINGERPRINT
    ensures FingerprintVerdict(crc, raw, attrs)
         == if attrs[i].value == Put32(FingerprintValue(crc, raw[..|raw| - 8])) then None else Some(FingerprintMismatch)
  {
    hide Put32, Get32, FingerprintValue, First;
    FirstUnique(attrs, FINGERPRINT, i);
    var v := attrs[i].value;
    assert v[0..4] == v;
    Get32Unique(v, 0, FingerprintValue(crc, raw[..|raw| - 8]));
  }

  /** What is stamped is what is sent in front of the value, length field included. */
  lemma StampedIsSent(crc: Bytes -> uint32, m: Msg)
    ensures HEADER_SIZE + AttrsSize(m.attrs) <= |Print(Stamped(crc, m))|
    ensures ToStamp(m) == Print(Stamped(crc, m))[..HEADER_SIZE + AttrsSize(m.attrs)]
  {
    hide AttrsSize, EncodeAttrs, Header, FingerprintValue;
    EncodeSnoc(m.attrs, Attr(FINGERPRINT, Put32(FingerprintValue(crc, ToStamp(m)))));
  }

  /** A message stamped last checks, as built and as decoded. */
  lemma FingerprintSurvives(crc: Bytes -> uint32, m: Msg)
    requires !Has(m.attrs, FINGERPRINT)
    ensures var full := Stamped(crc, m);
            && |Print(full)| >= HEADER_SIZE
            && FingerprintVerdict(crc, Print(full), full.attrs).None?
            && FingerprintVerdict(crc, Print(full), CompatAll(full.attrs)).None?
  {
    hide FingerprintValue, ToStamp, FingerprintVerdict, Print;
    FingerprintExact(crc, m, FingerprintValue(crc, ToStamp(m)));
  }

  /** Of a buffer that is stamped as it is, the check covers what was stamped exactly when nothing follows the
      body; then it succeeds. */
  lemma StampedVerdict(crc: Bytes -> uint32, raw: Bytes, attrs: seq<Attr>)
    requires HEADER_SIZE + AttrsSize(attrs) <= |raw| && !Has(attrs, FINGERPRINT)
    ensures var size := AttrsSize(attrs);
            var stamped := SetLength(raw, size + ATTR_HEADER_SIZE + FINGERPRINT_SIZE);
            var tag := Attr(FINGERPRINT, Put32(FingerprintValue(crc, stamped)));
            var raw' := Extend(raw, size, tag);
            && (raw'[..|raw'| - (FINGERPRINT_SIZE + ATTR_HEADER_SIZE)] == stamped <==> |raw| == HEADER_SIZE + size)
            && (|raw| == HEADER_SIZE + size ==> FingerprintVerdict(crc, raw', attrs + [tag]).None?)
  {
    hide AttrsSize, First, FingerprintValue, Put32, Get32;
    var size := AttrsSize(attrs);
    var value := FingerprintValue(crc, SetLength(raw, size + ATTR_HEADER_SIZE + FINGERPRINT_SIZE));
    var tag := Attr(FINGERPRINT, Put32(value));
    TagFirst(attrs, tag, []);
    assert attrs + ([tag] + []) == attrs + [tag];
    assert tag.value[0..4] == tag.value;
    Get32Unique(tag.value, 0, value);
    ExtendedFront(raw, size, tag);
  }

  /** A message signed, extended and stamped last. */
  function SignedAndStamped<S>(h: Hash<S>, key: Bytes, crc: Bytes -> uint32, m: Msg, later: seq<Attr>): Msg {
    Stamped(crc, m.(attrs := Signed(h, key, m).attrs + later))
  }

  /** It passes both checks, as built and as decoded. */
  lemma BothSurvive<S>(h: Hash<S>, key: Bytes, crc: Bytes -> uint32, m: Msg, later: seq<Attr>)
    requires |Mac(h, key, ToSign(m))| == INTEGRITY_SIZE
    requires !Has(m.attrs, MESSAGE_INTEGRITY) && !Has(m.attrs, FINGERPRINT) && !Has(later, FINGERPRINT)
    ensures var full := SignedAndStamped(h, key, crc, m, later);
            && |Print(full)| >= HEADER_SIZE + AttrsSize(full.attrs) == HEADER_SIZE + AttrsSize(CompatAll(full.attrs))
            && IntegrityVerdict(h, key, Print(full), full.attrs).None?
            && IntegrityVerdict(h, key, Print(full), CompatAll(full.attrs)).None?
            && FingerprintVerdict(crc, Print(full), full.attrs).None?
            && FingerprintVerdict(crc, Print(full), CompatAll(full.attrs)).None?
  {
    hide Mac, ToSign, ToStamp, AttrsSize, Print, IntegrityVerdict, FingerprintVerdict;
    var mid := m.(attrs := Signed(h, key, m).attrs + later);
    var full := Stamped(crc, mid);
    var stamp := full.attrs[|mid.attrs|];
    assert full == m.(attrs := Signed(h, key, m).attrs + (later + [stamp]));
    IntegritySurvives(h, key, m, later + [stamp], []);
    assert Print(full) + [] == Print(full);
    NoFingerprint(m.attrs, Attr(MESSAGE_INTEGRITY, Mac(h, key, ToSign(m))), later);
    FingerprintSurvives(crc, mid);
  }

  lemma NoFingerprint(attrs: seq<Attr>, tag: Attr, later: seq<Attr>)
    requires !Has(attrs, FINGERPRINT) && tag.typ != FINGERPRINT && !Has(later, FINGERPRINT)
    ensures !Has(attrs + [tag] + later, FINGERPRINT)
  {
    var all := attrs + [tag] + later;
    forall i | 0 <= i < |all| ensures all[i].typ != FINGERPRINT {
      if i < |attrs| {
        assert all[i] == attrs[i];
      } else if i > |attrs| {
        assert all[i] == later[i - |attrs| - 1];
      }
    }
  }
}
