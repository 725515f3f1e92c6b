/** Visiting every attribute of one type through `Get`. */
module ForEachAttribute {
  import opened Base
  import opened MessageTypes
  import opened Wire
  import opened Slices
  import opened AttributeLists
  import opened Messages

  /** The values of the attributes of type `t`, in order. */
  function ValuesOf(attrs: seq<Attr>, t: uint16): seq<Bytes> {
    if attrs == [] then []
    else (if attrs[0].typ == t then [attrs[0].value] else []) + ValuesOf(attrs[1..], t)
  }

  lemma {:induction false} ValuesOfSnoc(attrs: seq<Attr>, i: nat, t: uint16)
    requires i < |attrs|
    ensures ValuesOf(attrs[..i + 1], t) == ValuesOf(attrs[..i], t) + (if attrs[i].typ == t then [attrs[i].value] else [])
    decreases i
  {
    if i > 0 {
      ValuesOfSnoc(attrs[1..], i - 1, t);
      assert attrs[..i + 1][1..] == attrs[1..][..i] && attrs[..i][1..] == attrs[1..][..i - 1];
    }
  }

  lemma ValuesOfHead(attrs: seq<Attr>, t: uint16)
    requires attrs != []
    ensures ValuesOf(attrs, t) == (if attrs[0].typ == t then [attrs[0].value] else []) + ValuesOf(attrs[1..], t)
  {
  }

  lemma {:induction false} ValuesOfAppend(a: seq<Attr>, b: seq<Attr>, t: uint16)
    ensures ValuesOf(a + b, t) == ValuesOf(a, t) + ValuesOf(b, t)
  {
    if a == [] {
      assert a + b == b;
    } else {
      hide ValuesOf;
      ValuesOfAppend(a[1..], b, t);
      ValuesOfHead(a, t);
      ValuesOfHead(a + b, t);
      TailOfAppend(a, b);
      Associates(if a[0].typ == t then [a[0].value] else [], ValuesOf(a[1..], t), ValuesOf(b, t));
    }
  }

  lemma ValuesOfPrefix(attrs: seq<Attr>, i: nat, t: uint16)
    requires i <= |attrs|
    ensures var n := |ValuesOf(attrs[..i], t)|; n <= |ValuesOf(attrs, t)| && ValuesOf(attrs, t)[..n] == ValuesOf(attrs[..i], t)
  {
    assert attrs == attrs[..i] + attrs[i..];
    ValuesOfAppend(attrs[..i], attrs[i..], t);
  }

  /** The message a callback sees, as a value. */
  method Observe(msg: Message, ghost attrs: seq<Attr>) returns (v: Msg)
    requires msg.attributes.Valid() && Shows(msg.attributes.View(), attrs)
    ensures v == Msg(msg.typ, msg.transactionID, attrs)
  {
    var list := msg.attributes.View();
    var got: seq<Attr> := [];
    for i := 0 to |list|
      invariant got == attrs[..i]
    {
      assert ShowsOne(list[i], attrs[i]);
      got := got + [Attr(list[i].typ, list[i].value.View())];
    }
    v := Msg(msg.typ, msg.transactionID, got);
  }

  /** A call of the callback. It reads the message and returns `f` of that; if it also writes, any field of
      the message may be different after it. */
  method CallBack(msg: Message, f: Msg -> Option<nat>, writes: bool, ghost attrs: seq<Attr>) returns (err: Option<nat>, seen: Msg)
    requires msg.attributes.Valid() && Shows(msg.attributes.View(), attrs)
    modifies msg
    ensures seen.attrs == attrs && err == f(seen)
    ensures !writes ==> SameFields(msg, old(msg.typ), old(msg.length), old(msg.transactionID), old(msg.raw))
  {
    seen := Observe(msg, attrs);
    err := f(seen);
    if writes {
      msg.typ, msg.length, msg.transactionID, msg.attributes, msg.raw := *, *, *, *, *;
    }
  }

  ghost predicate SameFields(msg: Message, typ: MessageType, length: uint32, tid: TxId, raw: Slice<byte>)
    reads msg
  {
    msg.typ == typ && msg.length == length && msg.transactionID == tid && msg.raw == raw
  }

  method CallFrom(msg: Message, list: Slice<RawAttribute>, i: nat, f: Msg -> Option<nat>, writes: bool, ghost attrs: seq<Attr>)
    returns (err: Option<nat>, seen: Msg)
    requires list.Valid() && i <= list.len && Shows(list.View(), attrs)
    modifies msg
    ensures seen.attrs == attrs[i..] && err == f(seen)
    ensures !writes ==> SameFields(msg, old(msg.typ), old(msg.length), old(msg.transactionID), old(msg.raw))
  {
    msg.attributes := list.Sub(i, list.len);
    WindowDrop(list.arr[..], list.off, list.off + list.len, i);
    err, seen := CallBack(msg, f, writes, attrs[i..]);
  }

  /** What a visit at the i-th attribute adds, and what `Get` finds there. */
  lemma VisitAt(attrs: seq<Attr>, i: nat, t: uint16)
    requires i < |attrs|
    ensures var n := |ValuesOf(attrs[..i], t)|;
            if attrs[i].typ == t then
              && |ValuesOf(attrs[..i + 1], t)| == n + 1 <= |ValuesOf(attrs, t)|
              && FirstValue(attrs[i..], t) == Some(ValuesOf(attrs, t)[n])
            else |ValuesOf(attrs[..i + 1], t)| == n
  {
    hide ValuesOf;
    var n := |ValuesOf(attrs[..i], t)|;
    ValuesOfSnoc(attrs, i, t);
    ValuesOfPrefix(attrs, i + 1, t);
    if attrs[i].typ == t {
      FirstUnique(attrs[i..], t, 0);
      assert ValuesOf(attrs, t)[n] == ValuesOf(attrs, t)[..n + 1][n];
    }
  }

  lemma VisitStart(attrs: seq<Attr>, t: uint16)
    ensures ValuesOf(attrs[..0], t) == []
  {
  }

  /** The calls made, and the error of the last, if any. */
  ghost predicate Visited(all: seq<Bytes>, t: uint16, f: Msg -> Option<nat>, err: Option<nat>, calls: seq<Msg>) {
    && |calls| <= |all| && (err.None? ==> |calls| == |all|)
    && (forall k :: 0 <= k < |calls| ==> FirstValue(calls[k].attrs, t) == Some(all[k]))
    && (forall k :: 0 <= k < |calls| - 1 ==> f(calls[k]).None?)
    && err == if calls == [] then None else f(calls[|calls| - 1])
  }

  /** The loop, which leaves the message with the attributes of the last call, or what that made of them. */
  method VisitAll(msg: Message, attrs: Slice<RawAttribute>, t: uint16, f: Msg -> Option<nat>, writes: bool, ghost m: Msg)
    returns (err: Option<nat>, calls: seq<Msg>)
    requires attrs.Valid() && Shows(attrs.View(), m.attrs)
    modifies msg
    ensures Visited(ValuesOf(m.attrs, t), t, f, err, calls)
    ensures !writes ==> SameFields(msg, old(msg.typ), old(msg.length), old(msg.transactionID), old(msg.raw))
  {
    hide ValuesOf, FirstValue;
    ghost var all := ValuesOf(m.attrs, t);
    calls, err := [], None;
    VisitStart(m.attrs, t);
    for i := 0 to attrs.len
      invariant err.None? && |calls| == |ValuesOf(m.attrs[..i], t)| <= |all|
      invariant forall k :: 0 <= k < |calls| ==> FirstValue(calls[k].attrs, t) == Some(all[k]) && f(calls[k]).None?
      invariant !writes ==> SameFields(msg, old(msg.typ), old(msg.length), old(msg.transactionID), old(msg.raw))
    {
      var a := attrs.View()[i];
      assert ShowsOne(attrs.View()[i], m.attrs[i]);
      VisitAt(m.attrs, i, t);
      if a.typ != t {
        continue;
      }
      var seen;
      err, seen := CallFrom(msg, attrs, i, f, writes, m.attrs);
      calls := calls + [seen];
      if err.Some? {
        return;
      }
    }
    assert m.attrs[..attrs.len] == m.attrs;
  }

  /** Calls the callback with the message cut to start at each attribute of type `t` in turn, until it fails.
      In the k-th call `Get` gives the k-th value of that type, whatever earlier calls did to the fields of
      the message. On every exit the message has its own attributes back, and is as it was if the callback
      only reads. */
  method ForEach(msg: Message, t: uint16, f: Msg -> Option<nat>, writes: bool, ghost m: Msg) returns (err: Option<nat>, calls: seq<Msg>)
    requires msg.Carries(m)
    modifies msg
    ensures Visited(ValuesOf(m.attrs, t), t, f, err, calls)
    ensures msg.attributes == old(msg.attributes) && msg.attributes.Valid() && Shows(msg.attributes.View(), m.attrs)
    ensures !writes ==> msg.Carries(m)
  {
    hide AttrsSize, ValuesOf, Visited, Ahead, Anchored;
    var attrs := msg.attributes;
    err, calls := VisitAll(msg, attrs, t, f, writes, m);
    msg.attributes := attrs;
  }
}
