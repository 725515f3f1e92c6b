/** The pooled HMAC object: section 2 of RFC 2104. It keeps either the padded keys or, once a hash
    state could be saved, the saved states; either way it computes the plain definition. */
module Hmacs {
  import opened Base
  import opened Slices

  // Hash functions, as running states. SHA-1 and SHA-256 are instances; their insides are not used.

  /** `marshal` may fail, and is only tried on hashes that are `marshalable`. */
  datatype Hash<!S> = Hash(
    init: S, update: (S, Bytes) -> S, digest: S -> Bytes, size: nat, blockSize: nat,
    marshalable: bool, marshal: S -> Option<Bytes>, unmarshal: Bytes -> Option<S>)

  ghost predicate Lawful<S(!new)>(h: Hash<S>) {
    && h.size <= h.blockSize
    && (forall s: S :: |h.digest(s)| == h.size)
    && (forall s: S, a: Bytes, b: Bytes :: h.update(h.update(s, a), b) == h.update(s, a + b))
    && (forall s: S :: h.update(s, []) == s)
    && (forall s: S :: h.marshal(s).Some? ==> h.unmarshal(h.marshal(s).value) == Some(s))
  }

  function Digest<S>(h: Hash<S>, text: Bytes): Bytes {
    h.digest(h.update(h.init, text))
  }

  // The definition.

  const IPAD: byte := 0x36
  const OPAD: byte := 0x5c

  /** The key as one block: hashed if too long, then filled up with zeros. */
  function BlockKey<S>(h: Hash<S>, key: Bytes): Bytes {
    FillUp(if |key| > h.blockSize then Digest(h, key) else key, h.blockSize)
  }

  function FillUp(key: Bytes, n: nat): (r: Bytes) {
    key + Zeros(if |key| < n then n - |key| else 0)
  }

  function XorEach(b: Bytes, c: byte): (r: Bytes)
    ensures |r| == |b|
  {
    seq(|b|, i requires 0 <= i < |b| => Xor8(b[i], c))
  }

  function InnerPad<S>(h: Hash<S>, key: Bytes): Bytes {
    XorEach(BlockKey(h, key), IPAD)
  }

  function OuterPad<S>(h: Hash<S>, key: Bytes): Bytes {
    XorEach(BlockKey(h, key), OPAD)
  }

  /** H(K xor opad, H(K xor ipad, text)). */
  function Mac<S>(h: Hash<S>, key: Bytes, text: Bytes): Bytes {
    Digest(h, OuterPad(h, key) + Digest(h, InnerPad(h, key) + text))
  }

  /** Octet i of the key, which is followed by zeros. */
  function KeyOctet(key: Bytes, i: nat): byte {
    if i < |key| then key[i] else 0
  }

  /** For a key no longer than a block, with both pads given octet by octet. */
  lemma MacSpelled<S>(h: Hash<S>, key: Bytes, text: Bytes, ipad: Bytes, opad: Bytes)
    requires |key| <= |ipad| == |opad| == h.blockSize
    requires forall i :: 0 <= i < h.blockSize ==> ipad[i] == Xor8(KeyOctet(key, i), 0x36)
    requires forall i :: 0 <= i < h.blockSize ==> opad[i] == Xor8(KeyOctet(key, i), 0x5c)
    ensures Mac(h, key, text) == h.digest(h.update(h.init, opad + h.digest(h.update(h.init, ipad + text))))
  {
    hide Xor8;
    assert InnerPad(h, key) == ipad && OuterPad(h, key) == opad;
  }

  /** A longer key stands for its digest. */
  lemma LongKey<S>(h: Hash<S>, key: Bytes, text: Bytes)
    requires |key| > h.blockSize && |h.digest(h.update(h.init, key))| <= h.blockSize
    ensures Mac(h, key, text) == Mac(h, h.digest(h.update(h.init, key)), text)
  {
  }

  // The objects.

  class Hasher<S(!new)> {
    const alg: Hash<S>
    var state: S

    constructor (alg: Hash<S>)
      ensures this.alg == alg && state == alg.init
    {
      this.alg, this.state := alg, alg.init;
    }

    method Reset()
      modifies this
      ensures state == alg.init
    {
      state := alg.init;
    }

    method Write(p: Bytes)
      modifies this
      ensures state == alg.update(old(state), p)
    {
      state := alg.update(state, p);
    }

    /** Appends the digest so far and goes on as before. */
    method Sum(b: Slice<byte>) returns (r: Slice<byte>)
      requires b.Valid()
      modifies b.arr
      ensures r.Valid() && r.View() == old(b.View()) + alg.digest(state)
      ensures r.Resliced(b) || (fresh(r.arr) && r.off == 0)
      ensures forall k :: 0 <= k < b.arr.Length && !(b.off + b.len <= k < b.off + r.len) ==> b.arr[k] == old(b.arr[k])
    {
      r := Append(b, alg.digest(state), 0);
    }

    method Unmarshal(data: Bytes) returns (ok: bool)
      modifies this
      ensures ok == alg.unmarshal(data).Some?
      ensures state == if ok then alg.unmarshal(data).value else old(state)
    {
      var s := alg.unmarshal(data);
      ok := s.Some?;
      if ok {
        state := s.value;
      }
    }
  }

  /** Fills a buffer with the key as one block and combines every octet with `c`. */
  method MakePad(s: Slice<byte>, key: Bytes, n: nat, c: byte) returns (r: Slice<byte>)
    requires s.Valid() && |key| <= n
    modifies s.arr
    ensures r.Valid() && r.View() == XorEach(FillUp(key, n), c)
    ensures r.arr == s.arr || fresh(r.arr)
  {
    hide FillUp, XorEach;
    r := KeyBlock(s, key, n);
    XorInPlace(r, c);
  }

  method KeyBlock(s: Slice<byte>, key: Bytes, n: nat) returns (r: Slice<byte>)
    requires s.Valid() && |key| <= n
    modifies s.arr
    ensures r.Valid() && r.View() == FillUp(key, n)
    ensures r.arr == s.arr || fresh(r.arr)
  {
    hide FillUp;
    r := Append(s.Sub(0, 0), Zeros(n), 0);
    ghost var mem := r.arr[..];
    KeyCopied(mem, r.off, n, key);
    Poke(r, 0, key);
  }

  lemma KeyCopied(mem: Bytes, off: nat, n: nat, key: Bytes)
    requires off + n <= |mem| && |key| <= n && mem[off..off + n] == [] + Zeros(n)
    ensures Splice(mem, off, key)[off..off + n] == FillUp(key, n)
  {
    var now := Splice(mem, off, key)[off..off + n];
    forall k | 0 <= k < n ensures now[k] == FillUp(key, n)[k] {
      assert mem[off..off + n][k] == mem[off + k];
    }
  }

  method XorInPlace(r: Slice<byte>, c: byte)
    requires r.Valid()
    modifies r.arr
    ensures r.View() == XorEach(old(r.View()), c)
  {
    hide Xor8;
    for i := 0 to r.len
      invariant forall k :: 0 <= k < i ==> r.View()[k] == Xor8(old(r.View())[k], c)
      invariant forall k :: i <= k < r.len ==> r.View()[k] == old(r.View())[k]
    {
      assert r.arr[r.off + i] == r.View()[i];
      r.arr[r.off + i] := Xor8(r.arr[r.off + i], c);
    }
  }

  class Hmac<S(!new)> {
    const alg: Hash<S>
    var opad: Slice<byte>
    var ipad: Slice<byte>
    const outer: Hasher<S>
    const inner: Hasher<S>
    var marshaled: bool

    /** Two hashes of the same lawful algorithm and two buffers, all separate. */
    ghost predicate Sound()
      reads this
    {
      && Lawful(alg) && outer.alg == alg && inner.alg == alg && outer != inner
      && opad.Valid() && ipad.Valid() && opad.arr != ipad.arr
    }

    /** The buffers hold the padded keys, or the hash states after them. */
    ghost predicate Keyed(key: Bytes)
      reads this, opad.arr, ipad.arr
    {
      && Sound()
      && if marshaled then
           && alg.unmarshal(ipad.View()) == Some(alg.update(alg.init, InnerPad(alg, key)))
           && alg.unmarshal(opad.View()) == Some(alg.update(alg.init, OuterPad(alg, key)))
         else ipad.View() == InnerPad(alg, key) && opad.View() == OuterPad(alg, key)
    }

    /** The object stands for `key` and the octets written since the last reset. */
    ghost predicate Holds(key: Bytes, text: Bytes)
      reads this, opad.arr, ipad.arr, inner
    {
      Keyed(key) && inner.state == alg.update(alg.init, InnerPad(alg, key) + text)
    }

    /** The states after both pads can be saved. */
    ghost predicate Saveable(key: Bytes) {
      && alg.marshalable
      && alg.marshal(alg.update(alg.init, InnerPad(alg, key))).Some?
      && alg.marshal(alg.update(alg.init, OuterPad(alg, key))).Some?
    }

    constructor New(alg: Hash<S>, key: Bytes)
      requires Lawful(alg)
      ensures this.alg == alg && Holds(key, []) && fresh(outer) && fresh(inner) && fresh(opad.arr) && fresh(ipad.arr)
    {
      this.alg := alg;
      outer := new Hasher(alg);
      inner := new Hasher(alg);
      var i := FromBytes(Zeros(alg.blockSize));
      var o := FromBytes(Zeros(alg.blockSize));
      ipad, opad := i, o;
      marshaled := false;
      new;
      LoadKey(key);
    }

    /** Puts the padded keys in the buffers and starts the inner hash, both hashes being at their start. */
    method LoadKey(key: Bytes)
      requires Sound() && outer.state == inner.state == alg.init && !marshaled
      modifies this`ipad, this`opad, ipad.arr, opad.arr, outer, inner
      ensures Holds(key, []) && !marshaled
      ensures (ipad.arr == old(ipad.arr) || fresh(ipad.arr)) && (opad.arr == old(opad.arr) || fresh(opad.arr))
    {
      hide XorEach, FillUp;
      var k := key;
      if |key| > alg.blockSize {
        outer.Write(key);
        k := alg.digest(outer.state);
      }
      var i := MakePad(ipad, k, alg.blockSize, IPAD);
      var o := MakePad(opad, k, alg.blockSize, OPAD);
      ipad, opad := i, o;
      inner.Write(ipad.View());
      assert InnerPad(alg, key) + [] == InnerPad(alg, key);
    }

    /** Takes the object from whatever it was last used for to a new key. */
    method ResetTo(key: Bytes)
      requires Sound()
      modifies this`ipad, this`opad, this`marshaled, ipad.arr, opad.arr, outer, inner
      ensures Holds(key, [])
      ensures (ipad.arr == old(ipad.arr) || fresh(ipad.arr)) && (opad.arr == old(opad.arr) || fresh(opad.arr))
    {
      outer.Reset();
      inner.Reset();
      marshaled := false;
      LoadKey(key);
    }

    method Write(p: Bytes, ghost key: Bytes, ghost text: Bytes)
      requires Holds(key, text)
      modifies inner
      ensures Holds(key, text + p)
    {
      hide InnerPad, OuterPad;
      inner.Write(p);
      assert InnerPad(alg, key) + text + p == InnerPad(alg, key) + (text + p);
    }

    /** Appends the code of what was written so far, and can be called again or written to. */
    method Sum(b: Slice<byte>, ghost key: Bytes, ghost text: Bytes) returns (r: Slice<byte>)
      requires Holds(key, text) && b.Valid() && b.arr != ipad.arr && b.arr != opad.arr
      modifies outer, b.arr
      ensures Holds(key, text)
      ensures r.Valid() && r.View() == old(b.View()) + Mac(alg, key, text)
      ensures r.Resliced(b) || fresh(r.arr)
      ensures forall k :: 0 <= k < b.arr.Length && !(b.off + b.len <= k < b.off + r.len) ==> b.arr[k] == old(b.arr[k])
    {
      hide InnerPad, OuterPad, Lawful;
      var front, tag := SumInner(b, key, text);
      FinishOuter(tag, key);
      r := outer.Sum(front);
    }

    /** The inner digest passes through the spare capacity of `b` on its way to the outer hash. */
    method SumInner(b: Slice<byte>, ghost key: Bytes, ghost text: Bytes) returns (front: Slice<byte>, tag: Bytes)
      requires Holds(key, text) && b.Valid() && b.arr != ipad.arr && b.arr != opad.arr
      modifies b.arr
      ensures Holds(key, text)
      ensures tag == Digest(alg, InnerPad(alg, key) + text) && |tag| == alg.size
      ensures front.Valid() && front.View() == old(b.View()) && (front.Resliced(b) || fresh(front.arr))
      ensures forall k :: 0 <= k < b.arr.Length && !(b.off + b.len <= k < b.off + b.len + alg.size) ==> b.arr[k] == old(b.arr[k])
    {
      ghost var view := b.View();
      assert |alg.digest(inner.state)| == alg.size;
      hide InnerPad, OuterPad, Lawful;
      var full := inner.Sum(b);
      tag := full.View()[b.len..];
      DropAppend(view, alg.digest(inner.state));
      front := full.Sub(0, b.len);
      assert front.View() == view by {
        WindowStart(full.arr[..], full.off, full.off + full.len, view + tag, b.len);
      }
    }

    method FinishOuter(tag: Bytes, ghost key: Bytes)
      requires Keyed(key)
      modifies outer
      ensures alg.digest(outer.state) == Digest(alg, OuterPad(alg, key) + tag)
      ensures |alg.digest(outer.state)| == alg.size
    {
      hide InnerPad, OuterPad;
      RestartOuter(key);
      outer.Write(tag);
    }

    /** The outer hash right after the outer pad, by either representation. */
    method RestartOuter(ghost key: Bytes)
      requires Keyed(key)
      modifies outer
      ensures outer.state == alg.update(alg.init, OuterPad(alg, key))
    {
      hide InnerPad, OuterPad;
      if marshaled {
        var ok := outer.Unmarshal(opad.View());
      } else {
        outer.Reset();
        outer.Write(opad.View());
      }
    }

    /** Drops what was written. The first time it also tries to save the states after both pads, and
        keeps the pads if either cannot be saved. */
    method Reset(ghost key: Bytes, ghost text: Bytes)
      requires Holds(key, text)
      modifies this`ipad, this`opad, this`marshaled, outer, inner
      ensures Holds(key, []) && (marshaled <==> old(marshaled) || Saveable(key))
      ensures (ipad.arr == old(ipad.arr) || fresh(ipad.arr)) && (opad.arr == old(opad.arr) || fresh(opad.arr))
    {
      hide InnerPad, OuterPad;
      assert InnerPad(alg, key) + [] == InnerPad(alg, key);
      if marshaled {
        var ok := inner.Unmarshal(ipad.View());
        return;
      }
      inner.Reset();
      inner.Write(ipad.View());
      SaveStates(key);
    }

    method SaveStates(ghost key: Bytes)
      requires Keyed(key) && !marshaled && inner.state == alg.update(alg.init, InnerPad(alg, key))
      modifies this`ipad, this`opad, this`marshaled, outer
      ensures Keyed(key) && (marshaled <==> Saveable(key))
      ensures (ipad.arr == old(ipad.arr) || fresh(ipad.arr)) && (opad.arr == old(opad.arr) || fresh(opad.arr))
    {
      hide InnerPad, OuterPad;
      if !alg.marshalable {
        return;
      }
      var imarshal := alg.marshal(inner.state);
      if imarshal.None? {
        return;
      }
      outer.Reset();
      outer.Write(opad.View());
      var omarshal := alg.marshal(outer.state);
      if omarshal.None? {
        return;
      }
      var i := FromBytes(imarshal.value);
      var o := FromBytes(omarshal.value);
      ipad, opad, marshaled := i, o, true;
    }
  }

  // Histories.

  datatype Call = CallResetTo(key: Bytes) | CallWrite(p: Bytes) | CallReset | CallSum(prefix: Bytes)

  /** What the sums of a history must be: the plain code, under the latest key, of the octets written
      since the latest reset. */
  function Answers<S>(h: Hash<S>, key: Bytes, text: Bytes, calls: seq<Call>): seq<Bytes>
    decreases |calls|
  {
    if calls == [] then []
    else
      match calls[0]
      case CallResetTo(k) => Answers(h, k, [], calls[1..])
      case CallWrite(p) => Answers(h, key, text + p, calls[1..])
      case CallReset => Answers(h, key, [], calls[1..])
      case CallSum(b) => [b + Mac(h, key, text)] + Answers(h, key, text, calls[1..])
  }

  function Writes(ps: seq<Bytes>): seq<Call> {
    seq(|ps|, i requires 0 <= i < |ps| => CallWrite(ps[i]))
  }

  function Concat(ps: seq<Bytes>): Bytes {
    if ps == [] then [] else ps[0] + Concat(ps[1..])
  }

  /** Writing in pieces and then summing answers for all of them together. */
  lemma {:induction false} SumOfWrites<S>(h: Hash<S>, key: Bytes, text: Bytes, ps: seq<Bytes>, rest: seq<Call>)
    ensures Answers(h, key, text, Writes(ps) + rest) == Answers(h, key, text + Concat(ps), rest)
    decreases |ps|
  {
    hide Mac;
    if ps == [] {
      assert Writes(ps) + rest == rest && text + Concat(ps) == text;
    } else {
      var calls := Writes(ps) + rest;
      assert calls[0] == CallWrite(ps[0]) && calls[1..] == Writes(ps[1..]) + rest;
      SumOfWrites(h, key, text + ps[0], ps[1..], rest);
      Associates(text, ps[0], Concat(ps[1..]));
    }
  }

  /** What comes before a new key does not matter after it. */
  lemma {:induction false} NewKeyForgets<S>(h: Hash<S>, key: Bytes, text: Bytes, before: seq<Call>, k: Bytes, rest: seq<Call>)
    ensures Answers(h, key, text, before + ([CallResetTo(k)] + rest)) == Answers(h, key, text, before) + Answers(h, k, [], rest)
    decreases |before|
  {
    hide Mac;
    var calls := before + ([CallResetTo(k)] + rest);
    if before == [] {
      assert calls == [CallResetTo(k)] + rest && calls[1..] == rest;
    } else {
      assert calls[0] == before[0] && calls[1..] == before[1..] + ([CallResetTo(k)] + rest);
      match before[0] {
        case CallResetTo(k') => NewKeyForgets(h, k', [], before[1..], k, rest);
        case CallWrite(p) => NewKeyForgets(h, key, text + p, before[1..], k, rest);
        case CallReset => NewKeyForgets(h, key, [], before[1..], k, rest);
        case CallSum(b) =>
          NewKeyForgets(h, key, text, before[1..], k, rest);
          Associates([b + Mac(h, key, text)], Answers(h, key, text, before[1..]), Answers(h, k, [], rest));
      }
    }
  }

  /** A reset drops what was written and keeps the key. */
  lemma {:induction false} ResetForgets<S>(h: Hash<S>, key: Bytes, text: Bytes, mid: seq<Call>, rest: seq<Call>)
    requires forall i :: 0 <= i < |mid| ==> !mid[i].CallResetTo?
    ensures Answers(h, key, text, mid + ([CallReset] + rest)) == Answers(h, key, text, mid) + Answers(h, key, [], rest)
    decreases |mid|
  {
    hide Mac;
    var calls := mid + ([CallReset] + rest);
    if mid == [] {
      assert calls == [CallReset] + rest && calls[1..] == rest;
    } else {
      assert calls[0] == mid[0] && calls[1..] == mid[1..] + ([CallReset] + rest);
      match mid[0] {
        case CallWrite(p) => ResetForgets(h, key, text + p, mid[1..], rest);
        case CallReset => ResetForgets(h, key, [], mid[1..], rest);
        case CallSum(b) =>
          ResetForgets(h, key, text, mid[1..], rest);
          Associates([b + Mac(h, key, text)], Answers(h, key, text, mid[1..]), Answers(h, key, [], rest));
      }
    }
  }

  /** After any history, a key, anything but another key, a reset, some writes, a sum, more writes and a sum: the two
      sums answer for the key and what was written since the reset, the first not disturbing the second. */
  lemma SumAnswers<S>(h: Hash<S>, key: Bytes, before: seq<Call>, k: Bytes, mid: seq<Call>, ps: seq<Bytes>, a: Bytes, qs: seq<Bytes>, b: Bytes)
    requires forall i :: 0 <= i < |mid| ==> !mid[i].CallResetTo?
    ensures var calls := before + ([CallResetTo(k)] + (mid + ([CallReset] + (Writes(ps) + ([CallSum(a)] + (Writes(qs) + [CallSum(b)]))))));
            Answers(h, key, [], calls)
            == Answers(h, key, [], before) + (Answers(h, k, [], mid) + [a + Mac(h, k, Concat(ps)), b + Mac(h, k, Concat(ps) + Concat(qs))])
  {
    hide Mac, Writes, Concat;
    var last := Writes(qs) + [CallSum(b)];
    var middle := Writes(ps) + ([CallSum(a)] + last);
    NewKeyForgets(h, key, [], before, k, mid + ([CallReset] + middle));
    ResetForgets(h, k, [], mid, middle);
    SumOfWrites(h, k, [], ps, [CallSum(a)] + last);
    assert [] + Concat(ps) == Concat(ps) && ([CallSum(a)] + last)[1..] == last;
    SumOfWrites(h, k, Concat(ps), qs, [CallSum(b)]);
    assert Answers(h, k, Concat(ps) + Concat(qs), [CallSum(b)]) == [b + Mac(h, k, Concat(ps) + Concat(qs))];
    assert Answers(h, k, Concat(ps), [CallSum(a)] + last) == [a + Mac(h, k, Concat(ps))] + Answers(h, k, Concat(ps), last);
  }

  method Perform<S(!new)>(mac: Hmac<S>, call: Call, ghost key: Bytes, ghost text: Bytes)
    returns (answer: seq<Bytes>, ghost key': Bytes, ghost text': Bytes)
    requires mac.Holds(key, text)
    modifies mac, mac.outer, mac.inner, mac.ipad.arr, mac.opad.arr
    ensures mac.Holds(key', text')
    ensures (mac.ipad.arr == old(mac.ipad.arr) || fresh(mac.ipad.arr)) && (mac.opad.arr == old(mac.opad.arr) || fresh(mac.opad.arr))
    ensures forall rest :: Answers(mac.alg, key, text, [call] + rest) == answer + Answers(mac.alg, key', text', rest)
  {
    hide Lawful, InnerPad, OuterPad, Mac;
    answer, key', text' := [], key, text;
    match call {
      case CallResetTo(k) =>
        mac.ResetTo(k);
        key', text' := k, [];
      case CallWrite(p) =>
        mac.Write(p, key, text);
        text' := text + p;
      case CallReset =>
        mac.Reset(key, text);
        text' := [];
      case CallSum(b) =>
        var buf := FromBytes(b);
        var r := mac.Sum(buf, key, text);
        answer := [r.View()];
    }
    forall rest ensures Answers(mac.alg, key, text, [call] + rest) == answer + Answers(mac.alg, key', text', rest) {
      assert ([call] + rest)[1..] == rest;
    }
  }

  /** Any history of calls on an object taken from the pool in any state gives the plain answers. */
  method Replay<S(!new)>(mac: Hmac<S>, key: Bytes, calls: seq<Call>) returns (answers: seq<Bytes>)
    requires mac.Sound()
    modifies mac, mac.outer, mac.inner, mac.ipad.arr, mac.opad.arr
    ensures mac.Sound() && answers == Answers(mac.alg, key, [], calls)
  {
    hide Lawful, InnerPad, OuterPad, Answers;
    mac.ResetTo(key);
    ghost var k, text := key, [];
    answers := [];
    assert calls[0..] == calls;
    for i := 0 to |calls|
      invariant mac.Holds(k, text)
      invariant mac.ipad.arr == old(mac.ipad.arr) || fresh(mac.ipad.arr)
      invariant mac.opad.arr == old(mac.opad.arr) || fresh(mac.opad.arr)
      invariant Answers(mac.alg, key, [], calls) == answers + Answers(mac.alg, k, text, calls[i..])
    {
      var answer;
      ghost var k', text';
      answer, k', text' := Perform(mac, calls[i], k, text);
      assert [calls[i]] + calls[i + 1..] == calls[i..];
      Associates(answers, answer, Answers(mac.alg, k', text', calls[i + 1..]));
      answers := answers + answer;
      k, text := k', text';
    }
    NoAnswers(mac.alg, k, text, calls[|calls|..]);
  }

  lemma NoAnswers<S>(h: Hash<S>, key: Bytes, text: Bytes, calls: seq<Call>)
    requires calls == []
    ensures Answers(h, key, text, calls) == [] && forall a: seq<Bytes> :: a + Answers(h, key, text, calls) == a
  {
  }

  /** A code computed with a pooled object, appended to `buf`. */
  method NewHmac<S(!new)>(mac: Hmac<S>, key: Bytes, message: Bytes, buf: Slice<byte>) returns (r: Slice<byte>)
    requires mac.Sound() && buf.Valid() && buf.arr != mac.ipad.arr && buf.arr != mac.opad.arr
    modifies mac, mac.outer, mac.inner, mac.ipad.arr, mac.opad.arr, buf.arr
    ensures mac.Sound()
    ensures (mac.ipad.arr == old(mac.ipad.arr) || fresh(mac.ipad.arr)) && (mac.opad.arr == old(mac.opad.arr) || fresh(mac.opad.arr))
    ensures r.Valid() && r.View() == old(buf.View()) + Mac(mac.alg, key, message)
    ensures forall k :: 0 <= k < buf.arr.Length && !(buf.off + buf.len <= k < buf.off + buf.len + mac.alg.size) ==> buf.arr[k] == old(buf.arr[k])
    ensures |Mac(mac.alg, key, message)| == mac.alg.size
  {
    MacSize(mac.alg, key, message);
    hide Lawful, InnerPad, OuterPad, Mac;
    mac.ResetTo(key);
    mac.Write(message, key, []);
    assert [] + message == message;
    r := mac.Sum(buf, key, message);
  }

  lemma MacSizeOf<S(!new)>(mac: Hmac<S>, key: Bytes, text: Bytes)
    requires mac.Sound()
    ensures |Mac(mac.alg, key, text)| == mac.alg.size
  {
    MacSize(mac.alg, key, text);
  }

  lemma MacSize<S(!new)>(h: Hash<S>, key: Bytes, text: Bytes)
    requires Lawful(h)
    ensures |Mac(h, key, text)| == h.size
  {
  }
}
