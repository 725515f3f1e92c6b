/** The steps that write a message into a buffer whose spare capacity holds old octets and which may
    be reallocated between any two of them. */
module Buffers {
  import opened Base
  import opened MessageTypes
  import opened Wire
  import opened Slices

  const LENGTH_LIMIT := 0x1_0000_0000

  /** At least `n` octets; those past the old length may be stale. */
  method Grow(s: Slice<byte>, n: nat) returns (r: Slice<byte>)
    requires s.Valid()
    ensures r.Valid() && r.len == if s.len >= n then s.len else n
    ensures r.Resliced(s) || fresh(r.arr)
    ensures r.View()[..s.len] == s.View()
    ensures s.len >= n ==> r == s
  {
    if s.len >= n {
      return s;
    }
    if s.cap >= n {
      return s.Sub(0, n);
    }
    r := Reallocate(s, n, 0);
  }

  /** Exactly `n` octets, keeping those that fit. */
  method Resize(s: Slice<byte>, n: nat, ghost keep: nat) returns (r: Slice<byte>)
    requires s.Valid() && keep <= n && keep <= s.len
    ensures r.Valid() && r.len == n
    ensures r.Resliced(s) || fresh(r.arr)
    ensures r.View()[..keep] == s.View()[..keep]
  {
    r := Grow(s, n);
    WindowShortened(r.arr[..], r.off, r.off + r.len, s.View(), n, keep);
    r := r.Sub(0, n);
  }

  /** Appends `n` zero octets, whatever the spare capacity held. */
  method Pad(s: Slice<byte>, n: nat) returns (r: Slice<byte>)
    requires s.Valid()
    modifies s.arr
    ensures r.Valid() && r.View() == old(s.View()) + Zeros(n)
    ensures r.Resliced(s) || fresh(r.arr)
    ensures forall k :: 0 <= k < s.arr.Length && !(s.off + s.len <= k < s.off + s.len + n) ==> s.arr[k] == old(s.arr[k])
  {
    r := Grow(s, s.len + n);
    ClearFrom(r, s.len);
  }

  method ClearFrom(r: Slice<byte>, i: nat)
    requires r.Valid() && i <= r.len
    modifies r.arr
    ensures r.View() == old(r.View())[..i] + Zeros(r.len - i)
    ensures forall k :: 0 <= k < r.arr.Length && !(r.off + i <= k < r.off + r.len) ==> r.arr[k] == old(r.arr[k])
  {
    ghost var mem := r.arr[..];
    Clear(r.Sub(i, r.len));
    SpliceTail(mem, r.off, r.off + i, Zeros(r.len - i));
    WindowPrefix(mem, r.off, r.off + r.len, i);
  }

  method Clear(buf: Slice<byte>)
    requires buf.Valid()
    modifies buf.arr
    ensures buf.arr[..] == Splice(old(buf.arr[..]), buf.off, Zeros(buf.len))
  {
    for i := 0 to buf.len
      invariant buf.arr[..] == Splice(old(buf.arr[..]), buf.off, Zeros(i))
    {
      buf.arr[buf.off + i] := 0;
    }
  }

  /** The value is not among the four octets that come first at `first`. */
  predicate Clear4(s: Slice<byte>, first: nat, val: Slice<byte>) {
    val.arr != s.arr || val.off + val.len <= s.off + first || s.off + first + ATTR_HEADER_SIZE <= val.off
  }

  function TlvOctets(t: uint16, value: Bytes): (r: Bytes)
    ensures |r| == ATTR_HEADER_SIZE + |value|
  {
    Put16(t) + Put16(|value| % 0x1_0000) + value
  }

  /** Type, length and value, in that order, into octets that may hold anything. */
  method WriteTlv(buf: Slice<byte>, t: uint16, val: Slice<byte>)
    requires buf.Valid() && val.Valid() && Clear4(buf, 0, val)
    requires buf.len == ATTR_HEADER_SIZE + val.len
    modifies buf.arr
    ensures buf.arr[..] == Splice(old(buf.arr[..]), buf.off, TlvOctets(t, old(val.View())))
  {
    hide Put16;
    ghost var mem, data := buf.arr[..], val.View();
    Poke(buf, 0, Put16(t));
    Poke(buf, 2, Put16(val.len % 0x1_0000));
    SpliceSplice(mem, buf.off, Put16(t), Put16(val.len % 0x1_0000));
    assert val.View() == data by {
      if val.arr == buf.arr {
        SpliceOff(mem, buf.off, Put16(t) + Put16(val.len % 0x1_0000), val.off, val.off + val.len);
      }
    }
    Poke(buf, 4, val.View());
    SpliceSplice(mem, buf.off, Put16(t) + Put16(val.len % 0x1_0000), data);
  }

  lemma TlvWritten(mem: Bytes, off: nat, first: nat, t: uint16, data: Bytes)
    requires off + first + ATTR_HEADER_SIZE + |data| <= |mem|
    ensures var now, last := Splice(mem, off + first, TlvOctets(t, data)), first + ATTR_HEADER_SIZE + |data|;
            && now[off..off + last] == mem[off..off + last][..first] + TlvOctets(t, data)
            && now[off + first + ATTR_HEADER_SIZE..off + last] == data
  {
    var last := first + ATTR_HEADER_SIZE + |data|;
    SpliceTail(mem, off, off + first, TlvOctets(t, data));
    WindowPrefix(mem, off, off + last, first);
    assert TlvOctets(t, data)[ATTR_HEADER_SIZE..] == data;
  }

  /** Puts the octets of an attribute, without its padding, at the end of a buffer long enough. */
  method FillTlv(r: Slice<byte>, first: nat, t: uint16, val: Slice<byte>)
    requires r.Valid() && val.Valid() && r.len == first + ATTR_HEADER_SIZE + val.len
    requires Clear4(r, first, val)
    modifies r.arr
    ensures r.View() == old(r.View())[..first] + TlvOctets(t, old(val.View()))
    ensures r.Sub(first + ATTR_HEADER_SIZE, r.len).View() == old(val.View())
    ensures forall k :: 0 <= k < r.arr.Length && !(r.off + first <= k < r.off + r.len) ==> r.arr[k] == old(r.arr[k])
  {
    hide TlvOctets;
    WriteTlv(r.Sub(first, r.len), t, val);
    TlvWritten(old(r.arr[..]), r.off, first, t, old(val.View()));
  }

  /** The same, growing the buffer as needed. The window returned shows the value. */
  method PutTlv(s: Slice<byte>, first: nat, t: uint16, val: Slice<byte>) returns (r: Slice<byte>, value: Slice<byte>)
    requires s.Valid() && val.Valid() && Clear4(s, first, val)
    modifies s.arr
    ensures r.Valid() && r.len == first + ATTR_HEADER_SIZE + val.len
    ensures r.Resliced(s) || fresh(r.arr)
    ensures r.View()[first..] == TlvOctets(t, old(val.View()))
    ensures first <= s.len ==> r.View()[..first] == old(s.View())[..first]
    ensures value == r.Sub(first + ATTR_HEADER_SIZE, r.len) && value.View() == old(val.View())
    ensures forall k :: 0 <= k < s.arr.Length && !(s.off + first <= k < s.off + r.len) ==> s.arr[k] == old(s.arr[k])
  {
    r := Resize(s, first + ATTR_HEADER_SIZE + val.len, if first <= s.len then first else 0);
    ghost var view := r.View();
    FillTlv(r, first, t, val);
    value := r.Sub(first + ATTR_HEADER_SIZE, r.len);
    DropAppend(view[..first], TlvOctets(t, old(val.View())));
  }

  /** Zeros up to a multiple of four after a value of `n` octets. The test is on the 16-bit field. */
  method PadValue(s: Slice<byte>, n: nat, ghost value: Slice<byte>) returns (r: Slice<byte>)
    requires s.Valid() && value.Valid() && value.arr == s.arr && value.off + value.len <= s.off + s.len
    modifies s.arr
    ensures r.Valid() && r.View() == old(s.View()) + Zeros(Padded(n) - n)
    ensures value.View() == old(value.View())
    ensures r.Resliced(s) || fresh(r.arr)
    ensures forall k :: 0 <= k < s.arr.Length && !(s.off + s.len <= k < s.off + r.len) ==> s.arr[k] == old(s.arr[k])
  {
    hide Padded;
    PadNeeded(n);
    if n % 0x1_0000 % 4 != 0 {
      r := Pad(s, Padded(n) - n);
    } else {
      r := s;
      assert s.View() + Zeros(0) == s.View();
    }
  }

  lemma PadNeeded(n: nat)
    ensures n % 0x1_0000 % 4 != 0 <==> Padded(n) != n
  {
    assert n == n / 0x1_0000 * 0x1_0000 + n % 0x1_0000;
  }

  /** `octets` stand at `first`, after what was there, as far as there was anything. */
  ghost predicate Follows(view: Bytes, was: Bytes, first: nat, octets: Bytes) {
    first <= |view| && view[first..] == octets && (first <= |was| ==> view[..first] == was[..first])
  }

  /** A whole attribute at `first`: its octets, then zeros up to a multiple of four. The window
      returned shows the value, in this buffer or in one that padding has just outgrown. */
  method PutAttr(s: Slice<byte>, first: nat, t: uint16, val: Slice<byte>) returns (r: Slice<byte>, value: Slice<byte>)
    requires s.Valid() && val.Valid() && Clear4(s, first, val)
    modifies s.arr
    ensures r.Valid() && r.len == first + ATTR_HEADER_SIZE + Padded(val.len)
    ensures r.Resliced(s) || fresh(r.arr)
    ensures Follows(r.View(), old(s.View()), first, EncodeAttr(Attr(t, old(val.View()))))
    ensures value.Valid() && value.View() == old(val.View())
    ensures value.arr == r.arr ==> value.off == r.off + first + ATTR_HEADER_SIZE
    ensures value.arr == s.arr || fresh(value.arr)
    ensures forall k :: 0 <= k < s.arr.Length && !(s.off + first <= k < s.off + r.len) ==> s.arr[k] == old(s.arr[k])
  {
    hide EncodeAttr, Padded, TlvOctets;
    r, value := PutTlv(s, first, t, val);
    PaddedOctets(r.View(), old(s.View()), first, t, old(val.View()));
    hide Follows;
    r := PadValue(r, val.len, value);
  }

  lemma PaddedOctets(view: Bytes, was: Bytes, first: nat, t: uint16, data: Bytes)
    requires Follows(view, was, first, TlvOctets(t, data))
    ensures Follows(view + Zeros(Padded(|data|) - |data|), was, first, EncodeAttr(Attr(t, data)))
  {
    var pad := Zeros(Padded(|data|) - |data|);
    assert (view + pad)[first..] == view[first..] + pad;
    assert (view + pad)[..first] == view[..first];
  }

  /** The length field of a header already there. */
  method PutLength(s: Slice<byte>, length: uint32)
    requires s.Valid() && s.len >= 4
    modifies s.arr
    ensures s.View() == SetLength(old(s.View()), length)
    ensures forall k :: 0 <= k < s.arr.Length && !(s.off + 2 <= k < s.off + 4) ==> s.arr[k] == old(s.arr[k])
  {
    Poke(s, 2, Put16(length % 0x1_0000));
  }

  ghost predicate Extends(view: Bytes, raw: Bytes, length: nat, a: Attr) {
    Follows(view, raw, HEADER_SIZE + length, EncodeAttr(a))
  }

  /** The same once an attribute stands behind the body, under a value that lies past the field. */
  method PutLengthUnder(s: Slice<byte>, size: uint32, ghost value: Slice<byte>, ghost was: Bytes, ghost length: nat, ghost a: Attr)
    requires s.Valid() && value.Valid() && (value.arr == s.arr ==> s.off + 4 <= value.off)
    requires size == length + ATTR_HEADER_SIZE + Padded(|a.value|) && HEADER_SIZE + length <= |was| && HEADER_SIZE + length <= s.len
    requires Extends(s.View(), was, length, a)
    modifies s.arr
    ensures s.View() == Extend(was, length, a) && value.View() == old(value.View())
    ensures forall k :: 0 <= k < s.arr.Length && !(s.off + 2 <= k < s.off + 4) ==> s.arr[k] == old(s.arr[k])
  {
    hide SetLength, Extend, EncodeAttr, Padded, Follows;
    Extended(s.View(), was, length, a);
    PutLength(s, size);
    assert forall n :: value.off <= n < value.off + value.len ==> value.arr[n] == old(value.arr[n]);
  }

  /** An attribute after a body of `length` octets, over whatever follows it, and the new length in the header. */
  method PutNext(s: Slice<byte>, length: uint32, t: uint16, val: Slice<byte>)
    returns (r: Slice<byte>, value: Slice<byte>)
    requires s.Valid() && val.Valid() && HEADER_SIZE + length <= s.len && Clear4(s, HEADER_SIZE + length, val)
    requires length + ATTR_HEADER_SIZE + Padded(val.len) < LENGTH_LIMIT
    modifies s.arr
    ensures r.Valid() && r.len == HEADER_SIZE + length + ATTR_HEADER_SIZE + Padded(val.len)
    ensures r.Resliced(s) || fresh(r.arr)
    ensures r.View() == Extend(old(s.View()), length, Attr(t, old(val.View())))
    ensures value.Valid() && value.View() == old(val.View())
    ensures value.arr == r.arr ==> value.off == r.off + HEADER_SIZE + length + ATTR_HEADER_SIZE
    ensures value.arr == s.arr || fresh(value.arr)
    ensures forall k :: 0 <= k < s.arr.Length && !(s.off + 2 <= k < s.off + 4) && !(s.off + HEADER_SIZE + length <= k < s.off + r.len) ==>
                          s.arr[k] == old(s.arr[k])
  {
    hide EncodeAttr, Padded, Extend, Follows;
    r, value := PutAttr(s, HEADER_SIZE + length, t, val);
    PutLengthUnder(r, length + ATTR_HEADER_SIZE + Padded(val.len), value, old(s.View()), length, Attr(t, old(val.View())));
  }

  lemma Extended(view: Bytes, raw: Bytes, length: nat, a: Attr)
    requires HEADER_SIZE + length <= |raw| && HEADER_SIZE + length <= |view|
    requires Extends(view, raw, length, a)
    ensures SetLength(view, length + AttrSize(a)) == Extend(raw, length, a)
  {
    var first := HEADER_SIZE + length;
    assert view == view[..first] + view[first..];
  }

  // The header.

  /** Type, length, cookie and transaction id, over twenty octets that may hold anything. */
  method FillHeader(r: Slice<byte>, typ: MessageType, length: uint32, tid: TxId)
    requires r.Valid() && r.len >= HEADER_SIZE
    modifies r.arr
    ensures r.arr[..] == Splice(old(r.arr[..]), r.off, Header(typ, length, tid))
  {
    hide Put16, Put32, Value;
    ghost var mem := r.arr[..];
    ghost var a, b, c := Put16(Value(typ)), Put16(length % 0x1_0000), Put32(COOKIE);
    Poke(r, 0, Put16(Value(typ)));
    Poke(r, 2, Put16(length % 0x1_0000));
    SpliceSplice(mem, r.off, a, b);
    Poke(r, 4, Put32(COOKIE));
    SpliceSplice(mem, r.off, a + b, c);
    Poke(r, 8, tid);
    SpliceSplice(mem, r.off, a + b + c, tid);
  }

  method PutHeader(s: Slice<byte>, typ: MessageType, length: uint32, tid: TxId) returns (r: Slice<byte>)
    requires s.Valid()
    modifies s.arr
    ensures r.Valid() && r.len == if s.len >= HEADER_SIZE then s.len else HEADER_SIZE
    ensures r.Resliced(s) || fresh(r.arr)
    ensures r.View()[..HEADER_SIZE] == Header(typ, length, tid)
    ensures s.len >= HEADER_SIZE ==> r == s && r.View() == Header(typ, length, tid) + old(s.View())[HEADER_SIZE..]
    ensures forall k :: 0 <= k < s.arr.Length && !(s.off <= k < s.off + HEADER_SIZE) ==> s.arr[k] == old(s.arr[k])
  {
    hide Header;
    r := Grow(s, HEADER_SIZE);
    ghost var mem := r.arr[..];
    FillHeader(r, typ, length, tid);
    HeaderWritten(mem, r.off, r.len, Header(typ, length, tid));
  }

  lemma HeaderWritten(mem: Bytes, off: nat, len: nat, head: Bytes)
    requires off + len <= |mem| && |head| == HEADER_SIZE <= len
    ensures Splice(mem, off, head)[off..off + len] == head + mem[off..off + len][HEADER_SIZE..]
    ensures Splice(mem, off, head)[off..off + len][..HEADER_SIZE] == head
  {
  }
}
