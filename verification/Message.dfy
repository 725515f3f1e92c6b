/** A message over a reused, growing buffer. */
module Messages {
  import opened Base
  import opened MessageTypes
  import opened Wire
  import opened Slices
  import opened Buffers
  import opened AttributeLists

  /** The encoding of one more attribute, from a buffer right up to its length field. */
  lemma PrintSnoc(m: Msg, a: Attr, view: Bytes)
    requires |view| == HEADER_SIZE + AttrsSize(m.attrs) && SetLength(view, AttrsSize(m.attrs)) == Print(m)
    ensures Extend(view, AttrsSize(m.attrs), a) == Print(m.(attrs := m.attrs + [a]))
  {
    EncodeSnoc(m.attrs, a);
    ExtendWhole(view, AttrsSize(m.attrs), a);
    var size := AttrsSize(m.attrs) + AttrSize(a);
    HeaderLength(m.typ, AttrsSize(m.attrs), size, m.tid, EncodeAttrs(m.attrs));
    SetLengthTwice(view, AttrsSize(m.attrs), size);
    SetLengthAppend(view, size, EncodeAttr(a));
    Associates(Header(m.typ, size, m.tid), EncodeAttrs(m.attrs), EncodeAttr(a));
  }

  lemma PrintedLength(m: Msg)
    ensures |Print(m)| == HEADER_SIZE + AttrsSize(m.attrs) && SetLength(Print(m), AttrsSize(m.attrs)) == Print(m)
  {
    hide AttrsSize, EncodeAttrs, Header;
    HeaderLength(m.typ, AttrsSize(m.attrs), AttrsSize(m.attrs), m.tid, EncodeAttrs(m.attrs));
  }

  lemma PrintNone(typ: MessageType, tid: TxId)
    ensures Print(Msg(typ, tid, [])) == Header(typ, 0, tid)
  {
    assert Header(typ, 0, tid) + [] == Header(typ, 0, tid);
  }

  class Message {
    var typ: MessageType
    var length: uint32
    var transactionID: TxId
    var attributes: Slice<RawAttribute>
    var raw: Slice<byte>

    /** The values of the attributes are those of `m`. Those in the buffer are in its body, each past where
        its own type and length go. */
    ghost predicate Carries(m: Msg)
      reads this, attributes.arr, if attributes.Valid() then ValueArrays(attributes.View()) else {}
    {
      && raw.Valid() && attributes.Valid()
      && typ == m.typ && transactionID == m.tid && length == AttrsSize(m.attrs)
      && Shows(attributes.View(), m.attrs)
      && Anchored(attributes.View(), raw, length) && Ahead(attributes.View(), m.attrs, raw, 0)
    }

    /** The buffer has at least a header and the body, whatever their octets say. */
    ghost predicate Backed(m: Msg)
      reads this, attributes.arr, if attributes.Valid() then ValueArrays(attributes.View()) else {}
    {
      Carries(m) && HEADER_SIZE + length <= raw.len
    }

    /** The buffer is the encoding of `m`, up to its length field. */
    ghost predicate Laid(m: Msg)
      reads this, raw.arr, attributes.arr, if attributes.Valid() then ValueArrays(attributes.View()) else {}
    {
      Carries(m) && raw.len == HEADER_SIZE + length && SetLength(raw.View(), length) == Print(m)
    }

    /** The buffer is the encoding of `m`. */
    ghost predicate Holds(m: Msg)
      reads this, raw.arr, attributes.arr, if attributes.Valid() then ValueArrays(attributes.View()) else {}
    {
      Carries(m) && raw.View() == Print(m)
    }

    /** A message that was built or decoded and whose length field says how long its body is. */
    ghost predicate Readable(m: Msg)
      reads this, raw.arr, attributes.arr, if attributes.Valid() then ValueArrays(attributes.View()) else {}
    {
      Carries(m) && length < 0x1_0000 && HEADER_SIZE + length <= raw.len && raw.View()[2..4] == Put16(length)
    }

    /** Appends an attribute after the body, over whatever follows it. The value may be a window of this very
        buffer, provided it is not where the type and length are about to go. */
    method Add(t: uint16, val: Slice<byte>, ghost m: Msg, ghost keep: set<array<byte>>)
      requires Backed(m) && val.Valid() && Clear4(raw, HEADER_SIZE + length, val)
      requires length + ATTR_HEADER_SIZE + Padded(val.len) < LENGTH_LIMIT
      modifies this, raw.arr, attributes.arr
      ensures Backed(m.(attrs := m.attrs + [Attr(t, old(val.View()))]))
      ensures raw.View() == Extend(old(raw.View()), old(length), Attr(t, old(val.View())))
      ensures old(Laid(m)) ==> Holds(m.(attrs := m.attrs + [Attr(t, old(val.View()))]))
      ensures old(Avoids(raw, attributes.View(), keep)) ==> Avoids(raw, attributes.View(), keep)
      ensures (raw.arr == old(raw.arr) || fresh(raw.arr)) && (attributes.arr == old(attributes.arr) || fresh(attributes.arr))
    {
      hide SetLength, Extend, AttrsSize, Print, Padded, Ahead;
      ghost var was, a := raw.View(), Attr(t, val.View());
      ghost var laid := Laid(m);
      var size := length + ATTR_HEADER_SIZE + Padded(val.len);
      var r, list := AddAttr(raw, length, attributes, t, val, m.attrs, keep);
      EncodeSnoc(m.attrs, a);
      if laid {
        PrintSnoc(m, a, was);
      }
      Become(r, size, list, m.(attrs := m.attrs + [a]));
    }

    /** Appends an attribute with a value from elsewhere. */
    method AddBytes(t: uint16, value: Bytes, ghost m: Msg, ghost keep: set<array<byte>>)
      requires Backed(m) && length + ATTR_HEADER_SIZE + Padded(|value|) < LENGTH_LIMIT
      modifies this, raw.arr, attributes.arr
      ensures Backed(m.(attrs := m.attrs + [Attr(t, value)])) && raw.View() == Extend(old(raw.View()), old(length), Attr(t, value))
      ensures old(Laid(m)) ==> Holds(m.(attrs := m.attrs + [Attr(t, value)]))
      ensures old(Avoids(raw, attributes.View(), keep)) ==> Avoids(raw, attributes.View(), keep)
      ensures (raw.arr == old(raw.arr) || fresh(raw.arr)) && (attributes.arr == old(attributes.arr) || fresh(attributes.arr))
    {
      hide SetLength, Extend, AttrsSize, Print, Padded, Ahead;
      var val := FromBytes(value);
      Add(t, val, m, keep);
    }

    method Become(r: Slice<byte>, size: uint32, list: Slice<RawAttribute>, ghost m: Msg)
      requires r.Valid() && list.Valid() && Shows(list.View(), m.attrs)
      requires Anchored(list.View(), r, size) && Ahead(list.View(), m.attrs, r, 0)
      requires typ == m.typ && transactionID == m.tid && size == AttrsSize(m.attrs)
      modifies this
      ensures raw == r && length == size && attributes == list && Carries(m)
      ensures attributes.View() == old(list.View())
    {
      raw, length, attributes := r, size, list;
    }

    /** The value of the first attribute of a type. */
    method Get(t: uint16, ghost m: Msg) returns (r: Option<Bytes>)
      requires Carries(m)
      ensures r == FirstValue(m.attrs, t)
    {
      hide AttrsSize, First;
      var i := IndexOf(attributes, t, m.attrs);
      if i >= attributes.len {
        return None;
      }
      assert ShowsOne(attributes.View()[i], m.attrs[i]);
      r := Some(attributes.View()[i].value.View());
    }

    // Header fields.

    /** Writes the type, leaving every other octet and the attributes alone. */
    method SetType(t: MessageType, ghost m: Msg)
      requires Backed(m)
      modifies this`typ, raw.arr
      ensures Backed(m.(typ := t)) && raw.View() == Put16(Value(t)) + old(raw.View())[2..]
      ensures old(Holds(m)) ==> Holds(m.(typ := t))
    {
      hide Put16, Value, AttrsSize, Print, Ahead;
      ghost var was, holds := raw.View(), Holds(m);
      typ := t;
      PokeHeader(raw, 0, Put16(Value(t)), attributes.View(), m.attrs, length);
      assert was[..0] + Put16(Value(t)) == Put16(Value(t));
      if holds {
        HeaderParts(m, m.(typ := t), was);
      }
    }

    method SetTransactionID(tid: TxId, ghost m: Msg)
      requires Backed(m)
      modifies this`transactionID, raw.arr
      ensures Backed(m.(tid := tid)) && raw.View() == old(raw.View())[..8] + tid + old(raw.View())[20..]
      ensures old(Holds(m)) ==> Holds(m.(tid := tid))
    {
      hide Put16, Value, AttrsSize, Print, Ahead;
      ghost var was, holds := raw.View(), Holds(m);
      transactionID := tid;
      PokeHeader(raw, 8, tid, attributes.View(), m.attrs, length);
      if holds {
        HeaderParts(m, m.(tid := tid), was);
      }
    }

    // Starting over in the same buffer.

    method Reset()
      requires raw.Valid() && attributes.Valid()
      modifies this`raw, this`length, this`attributes
      ensures raw == old(raw).Sub(0, 0) && attributes == old(attributes).Sub(0, 0) && length == 0
    {
      raw, length, attributes := raw.Sub(0, 0), 0, attributes.Sub(0, 0);
    }

    /** Writes the header over whatever the first twenty octets hold, and leaves the rest alone. In a buffer
        that has been emptied that is the encoding of a message without attributes. */
    method WriteHeader()
      requires raw.Valid()
      modifies this`raw, raw.arr
      ensures raw.Valid() && raw.len == (if old(raw.len) >= HEADER_SIZE then old(raw.len) else HEADER_SIZE)
      ensures raw.View()[..HEADER_SIZE] == Header(typ, length, transactionID)
      ensures old(raw.len) >= HEADER_SIZE ==> raw == old(raw) && raw.View()[HEADER_SIZE..] == old(raw.View())[HEADER_SIZE..]
      ensures old(attributes.Valid() && raw.len == attributes.len == 0 && length == 0) ==> Holds(Msg(typ, transactionID, []))
      ensures raw.arr == old(raw.arr) || fresh(raw.arr)
    {
      hide Header;
      var r := PutHeader(raw, typ, length, transactionID);
      raw := r;
      if r.len == HEADER_SIZE {
        assert r.View()[..HEADER_SIZE] == r.View();
        PrintNone(typ, transactionID);
      }
    }

    // Rewriting in place.

    /** Lays the attributes down again after the header, each from the window that shows its value. */
    method WriteAttributes(ghost m: Msg)
      requires raw.Valid() && attributes.Valid() && raw.len == HEADER_SIZE && AttrsSize(m.attrs) < LENGTH_LIMIT
      requires typ == m.typ && transactionID == m.tid && length == 0
      requires Shows(attributes.View(), m.attrs) && Ahead(attributes.View(), m.attrs, raw, 0)
      modifies this`raw, this`length, raw.arr, attributes.arr
      ensures Carries(m)
      ensures raw.View() == Rewritten(old(raw.View()), m.attrs)
    {
      hide AttrsSize, Rewritten;
      var r, size := Rewrite(raw, attributes, m.attrs);
      raw, length := r, size;
    }

    /** Re-encodes the message into the buffer its values may be windows of. The header is written
        before the length is reset, so without attributes it keeps the old length. */
    method Encode(ghost m: Msg)
      requires raw.Valid() && attributes.Valid() && AttrsSize(m.attrs) < LENGTH_LIMIT
      requires typ == m.typ && transactionID == m.tid
      requires Shows(attributes.View(), m.attrs) && Ahead(attributes.View(), m.attrs, raw, 0)
      modifies this`raw, this`length, raw.arr, attributes.arr
      ensures Carries(m) && raw.View() == Rewritten(Header(m.typ, old(length), m.tid), m.attrs)
      ensures raw.View() == Print(m) <==> m.attrs != [] || old(length) % 0x1_0000 == 0
    {
      hide AttrsSize, Rewritten, Header, Print;
      var r := StartRewrite(raw.Sub(0, 0), typ, length, transactionID, attributes.View(), m.attrs);
      raw := r;
      length := 0;
      WriteAttributes(m);
      EncodedIff(m, old(length));
    }

    // Reading.

    /** Decodes the buffer in place: the result is a function of its octets alone, which it leaves as
        they are, and every value is a window of it. */
    method Decode() returns (err: Option<DecodeError>)
      requires raw.Valid() && attributes.Valid()
      modifies this, attributes.arr
      ensures raw == old(raw) && raw.View() == old(raw.View())
      ensures var d := DecodeSpec(raw.View());
              if d.Refused? then
                && err == Some(d.err) && typ == old(typ) && length == old(length) && transactionID == old(transactionID)
                && attributes == old(attributes) && attributes.View() == old(attributes.View())
              else
                && err == d.body.err && typ == d.typ && length == d.size && transactionID == d.tid
                && attributes.Valid() && Shows(attributes.View(), d.body.attrs)
                && HEADER_SIZE + length <= raw.len
                && Located(attributes.View(), d.body.attrs, raw.Sub(HEADER_SIZE, HEADER_SIZE + length))
    {
      hide ParseAttrs, Get16, Get32, ReadValue;
      var buf := raw.View();
      if |buf| < HEADER_SIZE {
        return Some(HeaderEof);
      }
      var size := Get16(buf, 2);
      if Get32(buf, 4) != COOKIE {
        return Some(BadCookie);
      }
      if |buf| < HEADER_SIZE + size {
        return Some(MessageEof);
      }
      typ, length, transactionID := ReadValue(Get16(buf, 0)), size, buf[8..HEADER_SIZE];
      var body := raw.Sub(HEADER_SIZE, HEADER_SIZE + size);
      assert body.View() == Body(buf);
      attributes, err := ReadBody(body, attributes.Sub(0, 0));
    }
  }

  /** The encoding comes out right exactly when an attribute is left or the old length was zero. */
  lemma EncodedIff(m: Msg, length: uint32)
    ensures Rewritten(Header(m.typ, length, m.tid), m.attrs) == Print(m) <==> m.attrs != [] || length % 0x1_0000 == 0
  {
    if m.attrs == [] {
      HeaderFields(m.typ, length, m.tid, []);
      HeaderFields(m.typ, 0, m.tid, []);
      assert Header(m.typ, length, m.tid) + [] == Header(m.typ, length, m.tid);
      assert Print(m) == Header(m.typ, 0, m.tid);
    } else {
      RewrittenIsEncoded(Header(m.typ, length, m.tid), m.attrs);
      HeaderLength(m.typ, length, AttrsSize(m.attrs), m.tid, EncodeAttrs(m.attrs));
    }
  }

  lemma HeaderParts(m: Msg, m': Msg, raw: Bytes)
    requires raw == Print(m) && m'.attrs == m.attrs
    ensures m' == m.(typ := m'.typ) ==> Print(m') == Put16(Value(m'.typ)) + raw[2..]
    ensures m' == m.(tid := m'.tid) ==> Print(m') == raw[..8] + m'.tid + raw[20..]
  {
    hide Put16, EncodeAttrs, AttrsSize, Value;
  }
}
