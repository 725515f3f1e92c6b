/** Lists of attributes whose values are windows of a message buffer, or of an earlier one that a
    reallocation left behind. */
module AttributeLists {
  import opened Base
  import opened MessageTypes
  import opened Wire
  import opened Slices
  import opened Buffers

  datatype RawAttribute = RawAttribute(typ: uint16, length: uint16, value: Slice<byte>)

  // What a list of attributes shows.

  ghost predicate Shows(list: seq<RawAttribute>, attrs: seq<Attr>)
    reads ValueArrays(list)
  {
    |list| == |attrs| && forall i :: 0 <= i < |list| ==> ShowsOne(list[i], attrs[i])
  }

  ghost predicate ShowsOne(a: RawAttribute, attr: Attr)
    reads a.value.arr
  {
    a.typ == attr.typ && a.value.Valid() && a.value.View() == attr.value && a.length == |attr.value| % 0x1_0000
  }

  lemma ShowsSnoc(list: seq<RawAttribute>, attrs: seq<Attr>, a: RawAttribute, attr: Attr)
    requires Shows(list, attrs) && ShowsOne(a, attr)
    ensures Shows(list + [a], attrs + [attr])
  {
  }

  ghost function ValueArrays(list: seq<RawAttribute>): set<array<byte>> {
    set a | a in list :: a.value.arr
  }

  /** Neither the buffer nor a value is in one of these arrays. */
  ghost predicate Avoids(s: Slice<byte>, list: seq<RawAttribute>, keep: set<array<byte>>) {
    s.arr !in keep && forall i :: 0 <= i < |list| ==> list[i].value.arr !in keep
  }

  /** Every value in this array lies in the body of `raw`, which has `length` octets. */
  ghost predicate Anchored(list: seq<RawAttribute>, raw: Slice<byte>, length: nat) {
    forall i :: 0 <= i < |list| && list[i].value.arr == raw.arr ==>
      raw.off + HEADER_SIZE <= list[i].value.off && list[i].value.off + list[i].value.len <= raw.off + HEADER_SIZE + length
  }

  /** `PutNext` leaves the values that earlier attributes show as they were. */
  method PutAfter(s: Slice<byte>, length: uint32, t: uint16, val: Slice<byte>, ghost list: seq<RawAttribute>, ghost attrs: seq<Attr>,
                  ghost keep: set<array<byte>>)
    returns (r: Slice<byte>, attr: RawAttribute)
    requires s.Valid() && val.Valid() && HEADER_SIZE + length <= s.len && Clear4(s, HEADER_SIZE + length, val)
    requires length + ATTR_HEADER_SIZE + Padded(val.len) < LENGTH_LIMIT
    requires Shows(list, attrs) && Anchored(list, s, length)
    modifies s.arr
    ensures r.Valid() && r.len == HEADER_SIZE + length + ATTR_HEADER_SIZE + Padded(val.len)
    ensures r.Resliced(s) || fresh(r.arr)
    ensures r.View() == Extend(old(s.View()), length, Attr(t, old(val.View())))
    ensures Shows(list + [attr], attrs + [Attr(t, old(val.View()))])
    ensures Anchored(list + [attr], r, r.len - HEADER_SIZE)
    ensures length == AttrsSize(attrs) && Ahead(list, attrs, s, 0) ==> Ahead(list + [attr], attrs + [Attr(t, old(val.View()))], r, 0)
    ensures Avoids(s, list, keep) ==> Avoids(r, list + [attr], keep)
    ensures forall k :: 0 <= k < s.arr.Length && !(s.off + 2 <= k < s.off + 4) && !(s.off + HEADER_SIZE + length <= k < s.off + r.len) ==>
                          s.arr[k] == old(s.arr[k])
  {
    hide Extend, Padded, Ahead, AttrsSize;
    var value;
    r, value := PutUnder(s, length, t, val, list, attrs);
    attr := RawAttribute(t, val.len % 0x1_0000, value);
    ShowsSnoc(list, attrs, attr, Attr(t, old(val.View())));
    AnchoredSnoc(list, attr, s, length, r);
    if length == AttrsSize(attrs) && Ahead(list, attrs, s, 0) {
      AheadSnoc(list, attrs, attr, Attr(t, old(val.View())), s, r);
    }
  }

  method PutUnder(s: Slice<byte>, length: uint32, t: uint16, val: Slice<byte>, ghost list: seq<RawAttribute>, ghost attrs: seq<Attr>)
    returns (r: Slice<byte>, value: Slice<byte>)
    requires s.Valid() && val.Valid() && HEADER_SIZE + length <= s.len && Clear4(s, HEADER_SIZE + length, val)
    requires length + ATTR_HEADER_SIZE + Padded(val.len) < LENGTH_LIMIT
    requires Shows(list, attrs) && Anchored(list, s, length)
    modifies s.arr
    ensures r.Valid() && r.len == HEADER_SIZE + length + ATTR_HEADER_SIZE + Padded(val.len)
    ensures r.Resliced(s) || fresh(r.arr)
    ensures r.View() == Extend(old(s.View()), length, Attr(t, old(val.View())))
    ensures Shows(list, attrs)
    ensures value.Valid() && value.View() == old(val.View())
    ensures value.arr == r.arr ==> value.off == r.off + HEADER_SIZE + length + ATTR_HEADER_SIZE
    ensures value.arr == s.arr || fresh(value.arr)
    ensures forall k :: 0 <= k < s.arr.Length && !(s.off + 2 <= k < s.off + 4) && !(s.off + HEADER_SIZE + length <= k < s.off + r.len) ==>
                          s.arr[k] == old(s.arr[k])
  {
    hide Extend, Padded;
    r, value := PutNext(s, length, t, val);
    forall i | 0 <= i < |list| ensures ShowsOne(list[i], attrs[i]) {
      var v := list[i].value;
      assert old(ShowsOne(list[i], attrs[i]));
      if v.arr == s.arr {
        assert s.off + HEADER_SIZE <= v.off && v.off + v.len <= s.off + HEADER_SIZE + length;
        SameView(s.arr[..], old(s.arr[..]), v.off, v.len);
      }
    }
  }

  /** A window over octets that are as they were shows what it did. */
  lemma SameView(now: Bytes, was: Bytes, off: nat, len: nat)
    requires |now| == |was| && off + len <= |now| && forall k :: off <= k < off + len ==> now[k] == was[k]
    ensures now[off..off + len] == was[off..off + len]
  {
  }

  lemma AnchoredSnoc(list: seq<RawAttribute>, attr: RawAttribute, s: Slice<byte>, length: nat, r: Slice<byte>)
    requires Anchored(list, s, length) && HEADER_SIZE + length <= r.len
    requires r.Resliced(s) || forall i :: 0 <= i < |list| ==> list[i].value.arr != r.arr
    requires attr.value.arr == r.arr ==> r.off + HEADER_SIZE + length <= attr.value.off && attr.value.off + attr.value.len <= r.off + r.len
    ensures Anchored(list + [attr], r, r.len - HEADER_SIZE)
  {
  }

  /** Behind the others, a value lies right after its own type and length. */
  lemma AheadSnoc(list: seq<RawAttribute>, attrs: seq<Attr>, a: RawAttribute, attr: Attr, s: Slice<byte>, r: Slice<byte>)
    requires |list| == |attrs| && Ahead(list, attrs, s, 0)
    requires r.Resliced(s) || forall i :: 0 <= i < |list| ==> list[i].value.arr != r.arr
    requires a.value.arr == r.arr ==> a.value.off == r.off + HEADER_SIZE + AttrsSize(attrs) + ATTR_HEADER_SIZE
    ensures Ahead(list + [a], attrs + [attr], r, 0)
  {
    hide AttrsSize;
    forall k | 0 <= k < |list| + 1 && (list + [a])[k].value.arr == r.arr
      ensures r.off + HEADER_SIZE + AttrsSize((attrs + [attr])[..k]) + ATTR_HEADER_SIZE <= (list + [a])[k].value.off
    {
      if k < |list| {
        assert (attrs + [attr])[..k] == attrs[..k];
      } else {
        assert (attrs + [attr])[..k] == attrs;
      }
    }
  }

  method AddAttr(s: Slice<byte>, length: uint32, list: Slice<RawAttribute>, t: uint16, val: Slice<byte>, ghost attrs: seq<Attr>,
                 ghost keep: set<array<byte>>)
    returns (r: Slice<byte>, list': Slice<RawAttribute>)
    requires s.Valid() && val.Valid() && HEADER_SIZE + length <= s.len && Clear4(s, HEADER_SIZE + length, val)
    requires length + ATTR_HEADER_SIZE + Padded(val.len) < LENGTH_LIMIT
    requires list.Valid() && Shows(list.View(), attrs) && Anchored(list.View(), s, length)
    modifies s.arr, list.arr
    ensures r.Valid() && r.len == HEADER_SIZE + length + ATTR_HEADER_SIZE + Padded(val.len)
    ensures r.Resliced(s) || fresh(r.arr)
    ensures r.View() == Extend(old(s.View()), length, Attr(t, old(val.View())))
    ensures list'.Valid() && Shows(list'.View(), attrs + [Attr(t, old(val.View()))])
    ensures Anchored(list'.View(), r, r.len - HEADER_SIZE)
    ensures length == AttrsSize(attrs) && old(Ahead(list.View(), attrs, s, 0)) ==> Ahead(list'.View(), attrs + [Attr(t, old(val.View()))], r, 0)
    ensures old(Avoids(s, list.View(), keep)) ==> Avoids(r, list'.View(), keep)
    ensures list'.arr == list.arr || fresh(list'.arr)
    ensures forall k :: 0 <= k < s.arr.Length && !(s.off + 2 <= k < s.off + 4) && !(s.off + HEADER_SIZE + length <= k < s.off + r.len) ==>
                          s.arr[k] == old(s.arr[k])
    ensures list.len < list.cap ==> list' == Slice(list.arr, list.off, list.len + 1, list.cap)
    ensures forall k :: 0 <= k < list.arr.Length && k != list.off + list.len ==> list.arr[k] == old(list.arr[k])
  {
    hide Extend, Padded, Ahead, AttrsSize;
    var attr;
    r, attr := PutAfter(s, length, t, val, list.View(), attrs, keep);
    list' := Append(list, [attr], attr);
  }

  // Rewriting a buffer from attributes that may be windows of it.

  /** From the i-th on, each value lies past where its own type and length will be written. */
  ghost predicate Ahead(list: seq<RawAttribute>, attrs: seq<Attr>, raw: Slice<byte>, i: nat)
    requires |list| == |attrs|
  {
    forall k :: i <= k < |list| && list[k].value.arr == raw.arr ==>
      raw.off + HEADER_SIZE + AttrsSize(attrs[..k]) + ATTR_HEADER_SIZE <= list[k].value.off
  }

  lemma PrefixSize(attrs: seq<Attr>, i: nat, j: nat)
    requires i <= j <= |attrs|
    ensures AttrsSize(attrs[..i]) <= AttrsSize(attrs[..j])
  {
    assert attrs[..j] == attrs[..i] + attrs[i..j];
    EncodeAppend(attrs[..i], attrs[i..j]);
  }

  lemma NextSize(attrs: seq<Attr>, i: nat)
    requires i < |attrs|
    ensures AttrsSize(attrs[..i + 1]) == AttrsSize(attrs[..i]) + AttrSize(attrs[i])
  {
    assert attrs[..i + 1] == attrs[..i] + [attrs[i]];
    EncodeSnoc(attrs[..i], attrs[i]);
  }

  /** Adding an attribute leaves alone windows that start past it, even in the same array. */
  method AddKeeping(s: Slice<byte>, length: uint32, list: Slice<RawAttribute>, a: RawAttribute, ghost attrs: seq<Attr>,
                    ghost attr: Attr, ghost rest: seq<RawAttribute>, ghost later: seq<Attr>, ghost items: seq<RawAttribute>)
    returns (r: Slice<byte>, list': Slice<RawAttribute>)
    requires s.Valid() && s.len == HEADER_SIZE + length && length + AttrSize(attr) < LENGTH_LIMIT
    requires list.Valid() && list.len < list.cap && Shows(list.View(), attrs) && Anchored(list.View(), s, length)
    requires length == AttrsSize(attrs) && Ahead(list.View(), attrs, s, 0)
    requires ShowsOne(a, attr) && (a.value.arr == s.arr ==> s.off + s.len + ATTR_HEADER_SIZE <= a.value.off)
    requires Shows(rest, later) && list.len < |items| <= list.cap && Pending(list, items)
    requires forall k :: 0 <= k < |rest| && rest[k].value.arr == s.arr ==> s.off + s.len + AttrSize(attr) <= rest[k].value.off
    modifies s.arr, list.arr
    ensures r.Valid() && r.len == s.len + AttrSize(attr)
    ensures r.Resliced(s) || fresh(r.arr)
    ensures r.View() == Extend(old(s.View()), length, attr)
    ensures list' == Slice(list.arr, list.off, list.len + 1, list.cap)
    ensures Shows(list'.View(), attrs + [attr]) && Anchored(list'.View(), r, r.len - HEADER_SIZE)
    ensures Ahead(list'.View(), attrs + [attr], r, 0)
    ensures Shows(rest, later)
    ensures Pending(list', items)
  {
    hide Extend, Padded, Ahead, AttrsSize, Anchored, Avoids;
    r, list' := AddAttr(s, length, list, a.typ, a.value, attrs, {});
    forall k | 0 <= k < |rest| ensures ShowsOne(rest[k], later[k]) {
      assert old(ShowsOne(rest[k], later[k]));
      SameView(rest[k].value.arr[..], old(rest[k].value.arr[..]), rest[k].value.off, rest[k].value.len);
    }
  }

  /** The buffer after a round for each attribute. The length field of the header is written by every
      round, so it stays as it was if there is none. */
  function Rewritten(head: Bytes, attrs: seq<Attr>): (r: Bytes)
    requires |head| == HEADER_SIZE
    ensures |r| >= HEADER_SIZE
  {
    if attrs == [] then head
    else
      var n := |attrs| - 1;
      SetLength(Rewritten(head, attrs[..n]) + EncodeAttr(attrs[n]), AttrsSize(attrs))
  }

  lemma RewrittenNone(head: Bytes, attrs: seq<Attr>)
    requires |head| == HEADER_SIZE
    ensures Rewritten(head, attrs[..0]) == head && AttrsSize(attrs[..0]) == 0
    ensures attrs[..|attrs|] == attrs
  {
  }

  lemma RewrittenNext(head: Bytes, attrs: seq<Attr>, i: nat)
    requires |head| == HEADER_SIZE && i < |attrs| && |Rewritten(head, attrs[..i])| == HEADER_SIZE + AttrsSize(attrs[..i])
    ensures Rewritten(head, attrs[..i + 1]) == Extend(Rewritten(head, attrs[..i]), AttrsSize(attrs[..i]), attrs[i])
  {
    hide EncodeAttr, SetLength;
    assert attrs[..i + 1][..i] == attrs[..i];
    NextSize(attrs, i);
    ExtendWhole(Rewritten(head, attrs[..i]), AttrsSize(attrs[..i]), attrs[i]);
  }

  lemma {:induction false} RewrittenIsEncoded(head: Bytes, attrs: seq<Attr>)
    requires |head| == HEADER_SIZE && attrs != []
    ensures Rewritten(head, attrs) == SetLength(head + EncodeAttrs(attrs), AttrsSize(attrs))
  {
    var n := |attrs| - 1;
    var front, last := attrs[..n], EncodeAttr(attrs[n]);
    assert attrs == front + [attrs[n]];
    EncodeSnoc(front, attrs[n]);
    if n == 0 {
      assert front == [] && head + EncodeAttrs(attrs) == head + last;
    } else {
      RewrittenIsEncoded(head, front);
      Associates(head, EncodeAttrs(front), last);
      SetLengthAppend(head + EncodeAttrs(front), AttrsSize(front), last);
      SetLengthTwice(head + EncodeAttrs(front) + last, AttrsSize(front), AttrsSize(attrs));
    }
  }

  /** What the later rounds of a rewrite need, and what the i-th leaves of it. */
  lemma AheadStep(items: seq<RawAttribute>, attrs: seq<Attr>, s: Slice<byte>, i: nat)
    requires |items| == |attrs| && i < |items| && Ahead(items, attrs, s, i)
    ensures AttrsSize(attrs[..i + 1]) == AttrsSize(attrs[..i]) + AttrSize(attrs[i]) <= AttrsSize(attrs)
    ensures items[i].value.arr == s.arr ==> s.off + HEADER_SIZE + AttrsSize(attrs[..i]) + ATTR_HEADER_SIZE <= items[i].value.off
    ensures forall k :: i < k < |items| && items[k].value.arr == s.arr ==>
                          s.off + HEADER_SIZE + AttrsSize(attrs[..i + 1]) <= items[k].value.off
  {
    NextSize(attrs, i);
    PrefixSize(attrs, i + 1, |attrs|);
    assert attrs[..|attrs|] == attrs;
    forall k | i < k < |items| ensures AttrsSize(attrs[..i + 1]) <= AttrsSize(attrs[..k]) {
      PrefixSize(attrs, i + 1, k);
    }
  }

  lemma ShowsSplit(items: seq<RawAttribute>, attrs: seq<Attr>, i: nat)
    requires |items| == |attrs| && i < |items| && Shows(items[i..], attrs[i..])
    ensures ShowsOne(items[i], attrs[i]) && Shows(items[i + 1..], attrs[i + 1..])
  {
    assert ShowsOne(items[i..][0], attrs[i..][0]);
    forall k | i < k < |items| ensures ShowsOne(items[k], attrs[k]) {
      assert ShowsOne(items[i..][k - i], attrs[i..][k - i]);
    }
  }

  lemma AheadLater(items: seq<RawAttribute>, attrs: seq<Attr>, s: Slice<byte>, r: Slice<byte>, i: nat)
    requires |items| == |attrs| && i < |items| && Ahead(items, attrs, s, i)
    requires r.Resliced(s) || forall k :: 0 <= k < |items| ==> items[k].value.arr != r.arr
    ensures Ahead(items, attrs, r, i + 1)
  {
    hide AttrsSize;
  }

  /** The state of a rewrite: the list shows the new copies as far as `done` goes and the values still
      to be copied from there on. */
  ghost predicate Rewriting(r: Slice<byte>, done: Slice<RawAttribute>, items: seq<RawAttribute>, attrs: seq<Attr>)
    requires r.Valid() && done.Valid() && done.len <= |items| == |attrs| <= done.cap
    reads done.arr, ValueArrays(done.View()), ValueArrays(items)
  {
    var i := done.len;
    && r.len == HEADER_SIZE + AttrsSize(attrs[..i])
    && Shows(done.View(), attrs[..i]) && Anchored(done.View(), r, r.len - HEADER_SIZE) && Ahead(done.View(), attrs[..i], r, 0)
    && Shows(items[i..], attrs[i..]) && Ahead(items, attrs, r, i)
    && Pending(done, items)
  }

  /** Past its end, `done` still has the entries of the list being rewritten. */
  ghost predicate Pending(done: Slice<RawAttribute>, items: seq<RawAttribute>)
    requires done.Valid() && done.len <= |items| <= done.cap
    reads done.arr
  {
    forall k :: done.len <= k < |items| ==> done.arr[done.off + k] == items[k]
  }

  method RewriteOne(s: Slice<byte>, done: Slice<RawAttribute>, ghost items: seq<RawAttribute>, ghost attrs: seq<Attr>)
    returns (r: Slice<byte>, done': Slice<RawAttribute>)
    requires s.Valid() && done.Valid() && done.len < |items| == |attrs| <= done.cap && AttrsSize(attrs) < LENGTH_LIMIT
    requires Rewriting(s, done, items, attrs)
    modifies s.arr, done.arr
    ensures r.Valid() && (r.Resliced(s) || fresh(r.arr))
    ensures r.View() == Extend(old(s.View()), AttrsSize(attrs[..done.len]), attrs[done.len])
    ensures done' == Slice(done.arr, done.off, done.len + 1, done.cap)
    ensures Rewriting(r, done', items, attrs)
  {
    hide Extend, Padded, AttrSize, AttrsSize, Ahead;
    ghost var i := done.len;
    var a := done.arr[done.off + done.len];
    assert a == items[i];
    ShowsSplit(items, attrs, i);
    AheadStep(items, attrs, s, i);
    r, done' := AddKeeping(s, s.len - HEADER_SIZE, done, a, attrs[..i], attrs[i], items[i + 1..], attrs[i + 1..], items);
    TakeNext(attrs, i);
    AheadLater(items, attrs, s, r, i);
  }

  /** Lays every attribute of the list down after the header in `s`, replacing each entry of the list
      by one that shows the new copy. The list is read and written in step. */
  method Rewrite(s: Slice<byte>, list: Slice<RawAttribute>, ghost attrs: seq<Attr>)
    returns (r: Slice<byte>, length: uint32)
    requires s.Valid() && s.len == HEADER_SIZE && list.Valid() && AttrsSize(attrs) < LENGTH_LIMIT
    requires Shows(list.View(), attrs) && Ahead(list.View(), attrs, s, 0)
    modifies s.arr, list.arr
    ensures r.Valid() && r.View() == Rewritten(old(s.View()), attrs) && length == AttrsSize(attrs)
    ensures Shows(list.View(), attrs) && Anchored(list.View(), r, AttrsSize(attrs)) && Ahead(list.View(), attrs, r, 0)
  {
    hide Extend, Rewritten, AttrsSize;
    ghost var head, items := s.View(), list.View();
    RewrittenNone(head, attrs);
    r := s;
    var done := Slice(list.arr, list.off, 0, list.cap);
    for i := 0 to list.len
      invariant r.Valid() && (r.Resliced(s) || fresh(r.arr))
      invariant done == Slice(list.arr, list.off, i, list.cap)
      invariant Rewriting(r, done, items, attrs)
      invariant r.View() == Rewritten(head, attrs[..i])
    {
      ghost var was := r.View();
      r, done := RewriteOne(r, done, items, attrs);
      assert r.View() == Extend(was, AttrsSize(attrs[..i]), attrs[i]);
      RewrittenNext(head, attrs, i);
    }
    length := r.len - HEADER_SIZE;
  }

  // Reading a body in place.

  /** The i-th value is the window of `body` where its octets are. */
  ghost predicate Located(list: seq<RawAttribute>, attrs: seq<Attr>, body: Slice<byte>) {
    |list| == |attrs| && forall i :: 0 <= i < |list| ==> LocatedOne(list[i], attrs[..i], attrs[i], body)
  }

  ghost predicate LocatedOne(a: RawAttribute, before: seq<Attr>, attr: Attr, body: Slice<byte>) {
    && a.typ == attr.typ && a.length == |attr.value|
    && a.value.Valid() && a.value.arr == body.arr && a.value.len == |attr.value|
    && a.value.off == body.off + AttrsSize(before) + ATTR_HEADER_SIZE
  }

  /** The attribute at the front of `b`, of which at least the header is there. */
  method ReadFront(b: Slice<byte>) returns (attr: RawAttribute, err: Option<DecodeError>)
    requires b.Valid() && b.len >= ATTR_HEADER_SIZE
    ensures var v := b.View();
            var len := Get16(v, 2);
            if b.len - ATTR_HEADER_SIZE < Padded(len) then err == Some(AttrValueEof)
            else
              && err.None? && attr.typ == CompatType(Get16(v, 0)) && attr.length == len
              && attr.value == Slice(b.arr, b.off + 4, len, b.cap - 4) && attr.value.View() == v[4..4 + len]
  {
    hide Get16, Padded;
    var len := Get16(b.View(), 2);
    var rest := b.Sub(ATTR_HEADER_SIZE, b.len);
    if rest.len < Padded(len) {
      attr, err := RawAttribute(0, 0, rest), Some(AttrValueEof);
    } else {
      attr, err := RawAttribute(CompatType(Get16(b.View(), 0)), len, rest.Sub(0, len)), None;
    }
  }

  /** `got` is what the parser reads from the first octets of `whole`. */
  ghost predicate ParsedSoFar(whole: Bytes, got: seq<Attr>) {
    && AttrsSize(got) <= |whole|
    && var rest := ParseAttrs(whole[AttrsSize(got)..]);
    && ParseAttrs(whole) == Parse(got + rest.attrs, rest.err)
  }

  function FrontAttr(v: Bytes): Attr
    requires |v| >= ATTR_HEADER_SIZE && |v| - ATTR_HEADER_SIZE >= Padded(Get16(v, 2))
  {
    Attr(CompatType(Get16(v, 0)), v[4..4 + Get16(v, 2)])
  }

  lemma ParseFront(v: Bytes)
    requires |v| >= ATTR_HEADER_SIZE && |v| - ATTR_HEADER_SIZE >= Padded(Get16(v, 2))
    ensures var a, n := FrontAttr(v), ATTR_HEADER_SIZE + Padded(Get16(v, 2));
            var rest := ParseAttrs(v[n..]);
            AttrSize(a) == n && ParseAttrs(v) == Parse([a] + rest.attrs, rest.err)
  {
    hide Get16, Padded, CompatType;
    assert |FrontAttr(v).value| == Get16(v, 2);
  }

  lemma ParseStuck(v: Bytes)
    ensures v == [] ==> ParseAttrs(v) == Parse([], None)
    ensures 0 < |v| < ATTR_HEADER_SIZE ==> ParseAttrs(v) == Parse([], Some(AttrHeaderEof))
    ensures |v| >= ATTR_HEADER_SIZE && |v| - ATTR_HEADER_SIZE < Padded(Get16(v, 2)) ==> ParseAttrs(v) == Parse([], Some(AttrValueEof))
  {
    hide Get16, Padded;
  }

  /** Moving the front attribute of what is left to what was read. */
  lemma ParseShift(whole: Bytes, got: seq<Attr>)
    requires ParsedSoFar(whole, got)
    requires var v := whole[AttrsSize(got)..];
             |v| >= ATTR_HEADER_SIZE && |v| - ATTR_HEADER_SIZE >= Padded(Get16(v, 2))
    ensures var a := FrontAttr(whole[AttrsSize(got)..]);
            AttrsSize(got + [a]) == AttrsSize(got) + AttrSize(a) && ParsedSoFar(whole, got + [a])
  {
    hide Get16, Padded, CompatType, AttrsSize, ParseAttrs;
    var n := AttrsSize(got);
    var v := whole[n..];
    var a := FrontAttr(v);
    ParseFront(v);
    EncodeSnoc(got, a);
    assert v[AttrSize(a)..] == whole[n + AttrSize(a)..];
    var rest := ParseAttrs(v[AttrSize(a)..]);
    assert got + ([a] + rest.attrs) == (got + [a]) + rest.attrs;
  }

  lemma ParseStart(whole: Bytes)
    ensures ParsedSoFar(whole, []) && AttrsSize([]) == 0
  {
    assert [] + ParseAttrs(whole).attrs == ParseAttrs(whole).attrs && whole[0..] == whole;
  }

  lemma ParseDone(whole: Bytes, got: seq<Attr>, err: Option<DecodeError>)
    requires ParsedSoFar(whole, got) && ParseAttrs(whole[AttrsSize(got)..]) == Parse([], err)
    ensures ParseAttrs(whole) == Parse(got, err)
  {
    assert got + [] == got;
  }

  /** Appending a located entry. */
  lemma LocatedSnoc(list: seq<RawAttribute>, got: seq<Attr>, body: Slice<byte>, a: RawAttribute, attr: Attr)
    requires Located(list, got, body) && LocatedOne(a, got, attr, body)
    ensures Located(list + [a], got + [attr], body)
  {
    hide AttrsSize;
    forall i | 0 <= i < |list| + 1
      ensures LocatedOne((list + [a])[i], (got + [attr])[..i], (got + [attr])[i], body)
    {
      if i < |list| {
        assert (got + [attr])[..i] == got[..i];
      } else {
        assert (got + [attr])[..i] == got;
      }
    }
  }

  /** One round: the next attribute of `whole`, of which `b` shows what is left, joins the list. */
  method ReadNext(ghost body: Slice<byte>, b: Slice<byte>, list: Slice<RawAttribute>, ghost whole: Bytes, ghost got: seq<Attr>)
    returns (a: RawAttribute, err: Option<DecodeError>)
    requires b.Valid() && list.Valid() && b.len > 0 && ParsedSoFar(whole, got) && b.View() == whole[AttrsSize(got)..]
    requires b.arr == body.arr && b.off == body.off + AttrsSize(got)
    requires Located(list.View(), got, body) && Shows(list.View(), got)
    ensures err.Some? ==> ParseAttrs(whole) == Parse(got, err)
    ensures err.None? ==>
              && b.len >= ATTR_HEADER_SIZE + Padded(a.value.len)
              && var attr := Attr(a.typ, whole[AttrsSize(got)..][4..4 + a.value.len]);
              && AttrsSize(got + [attr]) == AttrsSize(got) + ATTR_HEADER_SIZE + Padded(a.value.len)
              && ParsedSoFar(whole, got + [attr])
              && Located(list.View() + [a], got + [attr], body) && Shows(list.View() + [a], got + [attr])
  {
    hide ParseAttrs, Padded, AttrsSize, Get16, CompatType, ParsedSoFar, Located;
    ghost var v := b.View();
    ParseStuck(v);
    if b.len < ATTR_HEADER_SIZE {
      a, err := RawAttribute(0, 0, b), Some(AttrHeaderEof);
    } else {
      a, err := ReadFront(b);
    }
    if err.Some? {
      ParseDone(whole, got, err);
    } else {
      ParseShift(whole, got);
      LocatedSnoc(list.View(), got, body, a, FrontAttr(v));
      ShowsSnoc(list.View(), got, a, FrontAttr(v));
    }
  }

  /** Reads the attributes of a body in place: on return the list shows what the grammar says is
      there, up to the first error, through windows of the body itself. */
  method ReadBody(body: Slice<byte>, list: Slice<RawAttribute>) returns (list': Slice<RawAttribute>, err: Option<DecodeError>)
    requires body.Valid() && list.Valid() && list.len == 0
    modifies list.arr
    ensures list'.Valid() && err == ParseAttrs(body.View()).err
    ensures list'.Resliced(list) || fresh(list'.arr)
    ensures Located(list'.View(), ParseAttrs(body.View()).attrs, body)
    ensures Shows(list'.View(), ParseAttrs(body.View()).attrs)
  {
    hide ParseAttrs, ParsedSoFar, Padded, AttrsSize;
    ghost var whole := body.View();
    ghost var got: seq<Attr> := [];
    var b, offset := body, 0;
    list', err := list, None;
    ParseStart(whole);
    while offset < body.len
      invariant list'.Valid() && (list'.Resliced(list) || fresh(list'.arr))
      invariant offset == AttrsSize(got) <= body.len && b == body.Sub(offset, body.len)
      invariant ParsedSoFar(whole, got) && err.None?
      invariant Located(list'.View(), got, body) && Shows(list'.View(), got)
    {
      var a;
      WindowDrop(body.arr[..], body.off, body.off + body.len, offset);
      a, err := ReadNext(body, b, list', whole, got);
      if err.Some? {
        return;
      }
      got := got + [Attr(a.typ, whole[AttrsSize(got)..][4..4 + a.value.len])];
      list' := Append(list', [a], a);
      b := b.Sub(ATTR_HEADER_SIZE + Padded(a.value.len), b.len);
      offset := offset + ATTR_HEADER_SIZE + Padded(a.value.len);
    }
    ParseStuck(whole[offset..]);
    ParseDone(whole, got, None);
    assert body.View() == whole;
  }

  // Overwriting header fields.

  /** Writing inside the header touches no value in the body. */
  method PokeHeader(s: Slice<byte>, i: nat, data: Bytes, ghost list: seq<RawAttribute>, ghost attrs: seq<Attr>, ghost length: nat)
    requires s.Valid() && i + |data| <= HEADER_SIZE <= s.len
    requires Shows(list, attrs) && Anchored(list, s, length)
    modifies s.arr
    ensures s.View() == old(s.View())[..i] + data + old(s.View())[i + |data|..]
    ensures Shows(list, attrs)
  {
    ghost var mem := s.arr[..];
    Poke(s, i, data);
    SpliceView(mem, s.off, s.len, i, data);
    forall k | 0 <= k < |list| ensures ShowsOne(list[k], attrs[k]) {
      assert old(ShowsOne(list[k], attrs[k]));
      var v := list[k].value;
      assert forall n :: v.off <= n < v.off + v.len ==> v.arr[n] == old(v.arr[n]);
      assert v.View() == old(v.View());
    }
  }

  lemma SpliceView(mem: Bytes, off: nat, len: nat, i: nat, data: Bytes)
    requires off + len <= |mem| && i + |data| <= len
    ensures var v := mem[off..off + len]; Splice(mem, off + i, data)[off..off + len] == v[..i] + data + v[i + |data|..]
  {
  }

  /** A new header in front of values that are yet to be laid down. */
  method StartRewrite(s: Slice<byte>, typ: MessageType, length: uint32, tid: TxId, ghost list: seq<RawAttribute>, ghost attrs: seq<Attr>)
    returns (r: Slice<byte>)
    requires s.Valid() && s.len == 0
    requires Shows(list, attrs) && Ahead(list, attrs, s, 0)
    modifies s.arr
    ensures r.Valid() && r.View() == Header(typ, length, tid) && (r.Resliced(s) || fresh(r.arr))
    ensures Shows(list, attrs) && Ahead(list, attrs, r, 0)
  {
    hide AttrsSize, Header;
    r := PutHeader(s, typ, length, tid);
    assert r.View()[..HEADER_SIZE] == r.View();
    forall k | 0 <= k < |list| ensures ShowsOne(list[k], attrs[k]) {
      assert old(ShowsOne(list[k], attrs[k]));
      var v := list[k].value;
      assert forall n :: v.off <= n < v.off + v.len ==> v.arr[n] == old(v.arr[n]);
      assert v.View() == old(v.View());
    }
  }

  // Looking up.

  /** The index of the first attribute of a type, as `Get` finds it. */
  method IndexOf(list: Slice<RawAttribute>, t: uint16, ghost attrs: seq<Attr>) returns (i: nat)
    requires list.Valid() && Shows(list.View(), attrs)
    ensures i == First(attrs, t)
  {
    i := 0;
    while i < list.len
      invariant i <= list.len && forall j :: 0 <= j < i ==> attrs[j].typ != t
    {
      assert ShowsOne(list.View()[i], attrs[i]);
      if list.arr[list.off + i].typ == t {
        FirstUnique(attrs, t, i);
        return;
      }
      i := i + 1;
    }
  }
}
