/** Go slices: a window of an array that other windows may share, with spare capacity behind it. */
module Slices {
  import opened Base

  datatype Slice<T> = Slice(arr: array<T>, off: nat, len: nat, cap: nat) {
    predicate Valid() {
      len <= cap && off + cap <= arr.Length
    }

    function View(): (r: seq<T>)
      requires Valid()
      reads arr
      ensures |r| == len
    {
      arr[off..off + len]
    }

    /** Same array, offset and capacity: only the length differs. */
    predicate Resliced(s: Slice<T>) {
      arr == s.arr && off == s.off && cap == s.cap
    }

    /** The expression s[i:j], which may reach into the spare capacity. */
    function Sub(i: nat, j: nat): (r: Slice<T>)
      requires Valid() && i <= j <= cap
      ensures r.Valid()
    {
      Slice(arr, off + i, j - i, cap - i)
    }
  }

  /** `mem` with `data` written at position `i`. */
  function Splice<T>(mem: seq<T>, i: nat, data: seq<T>): (r: seq<T>)
    requires i + |data| <= |mem|
    ensures |r| == |mem|
  {
    seq(|mem|, k requires 0 <= k < |mem| => if i <= k < i + |data| then data[k - i] else mem[k])
  }

  lemma SpliceAt<T>(mem: seq<T>, i: nat, data: seq<T>)
    requires i + |data| <= |mem|
    ensures Splice(mem, i, data)[i..i + |data|] == data
  {
  }

  lemma SpliceOff<T>(mem: seq<T>, i: nat, data: seq<T>, lo: nat, hi: nat)
    requires i + |data| <= |mem| && lo <= hi <= |mem|
    requires hi <= i || i + |data| <= lo
    ensures Splice(mem, i, data)[lo..hi] == mem[lo..hi]
  {
  }

  lemma SpliceSplice<T>(mem: seq<T>, i: nat, a: seq<T>, b: seq<T>)
    requires i + |a| + |b| <= |mem|
    ensures Splice(Splice(mem, i, a), i + |a|, b) == Splice(mem, i, a + b)
  {
  }

  /** Writing at the end of a window extends what it shows. */
  lemma SpliceTail<T>(mem: seq<T>, from: nat, i: nat, data: seq<T>)
    requires from <= i && i + |data| <= |mem|
    ensures Splice(mem, i, data)[from..i + |data|] == mem[from..i] + data
  {
  }

  lemma WindowPrefix<T>(mem: seq<T>, from: nat, to: nat, n: nat)
    requires from <= to <= |mem| && n <= to - from
    ensures mem[from..to][..n] == mem[from..from + n]
  {
  }

  /** A window that starts with `was` starts with every prefix of it. */
  lemma WindowStart<T>(mem: seq<T>, from: nat, to: nat, was: seq<T>, n: nat)
    requires from <= to <= |mem| && n <= |was| <= to - from
    requires mem[from..to][..|was|] == was
    ensures mem[from..from + n] == was[..n]
  {
    assert forall k :: 0 <= k < n ==> mem[from..to][..|was|][k] == mem[from + k];
  }

  lemma WindowShortened<T>(mem: seq<T>, from: nat, to: nat, was: seq<T>, n: nat, keep: nat)
    requires from <= to <= |mem| && n <= to - from && |was| <= to - from && keep <= n && keep <= |was|
    requires mem[from..to][..|was|] == was
    ensures mem[from..from + n][..keep] == was[..keep]
  {
    WindowStart(mem, from, to, was, keep);
    WindowPrefix(mem, from, from + n, keep);
  }

  lemma WindowDrop<T>(mem: seq<T>, from: nat, to: nat, n: nat)
    requires from <= to <= |mem| && n <= to - from
    ensures mem[from + n..to] == mem[from..to][n..]
  {
  }

  lemma TakeNext<T>(s: seq<T>, i: nat)
    requires i < |s|
    ensures s[..i + 1] == s[..i] + [s[i]]
  {
  }

  lemma DropAppend<T>(a: seq<T>, b: seq<T>)
    ensures (a + b)[|a|..] == b
  {
  }

  /** `copy(s[i:], data)` when it fits. Copying is by value: overlapping source and target are fine. */
  method Poke<T>(s: Slice<T>, i: nat, data: seq<T>)
    requires s.Valid() && i + |data| <= s.len
    modifies s.arr
    ensures s.arr[..] == Splice(old(s.arr[..]), s.off + i, data)
  {
    forall k | 0 <= k < |data| {
      s.arr[s.off + i + k] := data[k];
    }
  }

  /** `append(s, data...)`: in place when the capacity allows, else into a new array of any larger
      capacity, leaving the old one as it was. */
  method Append<T>(s: Slice<T>, data: seq<T>, fill: T) returns (r: Slice<T>)
    requires s.Valid()
    modifies s.arr
    ensures r.Valid() && r.View() == old(s.View()) + data
    ensures s.len + |data| <= s.cap ==>
              && r == Slice(s.arr, s.off, s.len + |data|, s.cap)
              && s.arr[..] == Splice(old(s.arr[..]), s.off + s.len, data)
    ensures s.len + |data| > s.cap ==> fresh(r.arr) && r.off == 0 && s.arr[..] == old(s.arr[..])
  {
    var n := s.len + |data|;
    if n <= s.cap {
      r := Slice(s.arr, s.off, n, s.cap);
      Poke(r, s.len, data);
    } else {
      r := Reallocate(s, n, fill);
      Poke(r, s.len, data);
    }
  }

  /** A copy of `s` in a new array, extended to `n` elements of `fill`, with any spare capacity. */
  method Reallocate<T>(s: Slice<T>, n: nat, fill: T) returns (r: Slice<T>)
    requires s.Valid() && s.len <= n
    ensures r.Valid() && fresh(r.arr) && r.off == 0 && r.len == n
    ensures r.View()[..s.len] == s.View()
    ensures forall k :: s.len <= k < n ==> r.arr[k] == fill
  {
    var capacity: nat :| n <= capacity;
    var view := s.View();
    var arr := new T[capacity](i => if 0 <= i < |view| then view[i] else fill);
    r := Slice(arr, 0, n, capacity);
  }

  /** A new slice with the given octets. */
  method FromBytes(b: Bytes) returns (r: Slice<byte>)
    ensures r.Valid() && fresh(r.arr) && r.View() == b
  {
    var arr := new byte[|b|](i requires 0 <= i < |b| => b[i]);
    r := Slice(arr, 0, |b|, |b|);
  }
}
