/** Decoding a message, dropping attributes and encoding what is left into the same buffer. */
module Reencode {
  import opened Base
  import opened MessageTypes
  import opened Wire
  import opened Slices
  import opened AttributeLists
  import opened Messages

  /** Which attributes stay, in order. */
  ghost predicate InOrder(keep: seq<nat>, n: nat) {
    && (forall i :: 0 <= i < |keep| ==> keep[i] < n)
    && (forall i, j :: 0 <= i < j < |keep| ==> keep[i] < keep[j])
  }

  function Pick<T>(s: seq<T>, keep: seq<nat>): (r: seq<T>)
    requires forall i :: 0 <= i < |keep| ==> keep[i] < |s|
    ensures |r| == |keep| && forall i :: 0 <= i < |keep| ==> r[i] == s[keep[i]]
  {
    seq(|keep|, i requires 0 <= i < |keep| => s[keep[i]])
  }

  /** Those that stay before the k-th take no more room than all that were before it. */
  lemma {:induction false} PickedSize(attrs: seq<Attr>, keep: seq<nat>, k: nat, bound: nat)
    requires InOrder(keep, |attrs|) && k <= |keep| && bound <= |attrs|
    requires forall i :: 0 <= i < k ==> keep[i] < bound
    ensures AttrsSize(Pick(attrs, keep)[..k]) <= AttrsSize(attrs[..bound])
  {
    hide AttrsSize;
    var picked := Pick(attrs, keep);
    if k == 0 {
      RewrittenNone(Zeros(HEADER_SIZE), picked);
    } else {
      var last := keep[k - 1];
      PickedSize(attrs, keep, k - 1, last);
      NextSize(picked, k - 1);
      NextSize(attrs, last);
      PrefixSize(attrs, last + 1, bound);
    }
  }

  /** After a decode, whatever is dropped, each value that stays lies past where it will be written. */
  lemma DropLeavesAhead(list: seq<RawAttribute>, attrs: seq<Attr>, raw: Slice<byte>, body: Slice<byte>, keep: seq<nat>)
    requires body.arr == raw.arr && body.off == raw.off + HEADER_SIZE
    requires Located(list, attrs, body) && InOrder(keep, |attrs|)
    ensures Ahead(Pick(list, keep), Pick(attrs, keep), raw, 0)
  {
    hide AttrsSize;
    forall k | 0 <= k < |keep|
      ensures raw.off + HEADER_SIZE + AttrsSize(Pick(attrs, keep)[..k]) + ATTR_HEADER_SIZE <= Pick(list, keep)[k].value.off
    {
      PickedSize(attrs, keep, k, keep[k]);
      assert LocatedOne(list[keep[k]], attrs[..keep[k]], attrs[keep[k]], body);
    }
  }

  lemma {:induction false} ParsedTypes(b: Bytes, i: nat)
    requires i < |ParseAttrs(b).attrs|
    ensures ParseAttrs(b).attrs[i].typ != OLD_XOR_MAPPED
    decreases |b|
  {
    if i > 0 {
      ParsedTypes(b[ATTR_HEADER_SIZE + Padded(Get16(b, 2))..], i - 1);
    }
  }

  /** What a decode returned, less any attributes, survives the wire again. */
  lemma DecodedRepresentable(raw: Bytes, keep: seq<nat>)
    requires DecodeSpec(raw).Ok() && InOrder(keep, |DecodeSpec(raw).body.attrs|)
    ensures var d := DecodeSpec(raw);
            var m := Msg(d.typ, d.tid, Pick(d.body.attrs, keep));
            Representable(m) && SurvivesWire(m)
  {
    hide AttrsSize, ParseAttrs, Print, ReadValue;
    var d := DecodeSpec(raw);
    var attrs := d.body.attrs;
    var m := Msg(d.typ, d.tid, Pick(attrs, keep));
    DecodeIff(raw);
    ReadInRange(Get16(raw, 0));
    PickedSize(attrs, keep, |keep|, |attrs|);
    assert attrs[..|attrs|] == attrs && Pick(attrs, keep)[..|keep|] == Pick(attrs, keep);
    forall i | 0 <= i < |keep| ensures Pick(attrs, keep)[i].typ != OLD_XOR_MAPPED {
      ParsedTypes(Body(raw), keep[i]);
    }
    RoundTripIff(m);
  }

  /** A bare header that claims a body is refused. */
  lemma EmptyEncodingRefused(typ: MessageType, size: uint16, tid: TxId)
    requires size > 0
    ensures DecodeSpec(Rewritten(Header(typ, size, tid), [])) == Refused(MessageEof)
  {
    hide Get32, Get16;
    var raw := Header(typ, size, tid);
    assert raw + [] == raw;
    HeaderFields(typ, size, tid, []);
  }

  /** Decode, keep some attributes, encode in place. If any stays, or none was there, the buffer
      decodes to the same type and id with just those attributes; otherwise it does not decode. */
  method DropAndEncode(msg: Message, keep: seq<nat>) returns (err: Option<DecodeError>)
    requires msg.raw.Valid() && msg.attributes.Valid()
    requires var d := DecodeSpec(msg.raw.View()); d.Ok() ==> InOrder(keep, |d.body.attrs|)
    modifies msg, msg.raw.arr, msg.attributes.arr
    ensures msg.raw.Valid()
    ensures err.None? <==> old(DecodeSpec(msg.raw.View())).Ok()
    ensures var d := old(DecodeSpec(msg.raw.View()));
            var d' := DecodeSpec(msg.raw.View());
            err.None? ==>
              if keep != [] || d.size == 0 then
                d'.Ok() && d'.Message() == Msg(d.typ, d.tid, Pick(d.body.attrs, keep))
              else d' == Refused(MessageEof)
  {
    hide AttrsSize, ParseAttrs, Print, Header, DecodeSpec, Rewritten;
    ghost var d, was := DecodeSpec(msg.raw.View()), msg.raw.View();
    err := msg.Decode();
    if err.Some? {
      return;
    }
    ghost var m := Msg(d.typ, d.tid, Pick(d.body.attrs, keep));
    DecodedRepresentable(was, keep);
    DropLeavesAhead(msg.attributes.View(), d.body.attrs, msg.raw, msg.raw.Sub(HEADER_SIZE, HEADER_SIZE + msg.length), keep);
    var picked := Pick(msg.attributes.View(), keep);
    assert Shows(picked, m.attrs);
    var arr := new RawAttribute[|picked|](i requires 0 <= i < |picked| => picked[i]);
    assert arr[..] == picked;
    msg.attributes := Slice(arr, 0, |picked|, |picked|);
    assert msg.attributes.View() == picked;
    msg.Encode(m);
    if keep == [] && d.size != 0 {
      EmptyEncodingRefused(d.typ, d.size, d.tid);
    }
  }
}
