/** Octets, big-endian fields and exclusive-or, shared by every other module. */
module Base {
  type byte = b: int | 0 <= b < 256
  type uint16 = v: int | 0 <= v < 0x1_0000
  type uint32 = v: int | 0 <= v < 0x1_0000_0000
  type Bytes = seq<byte>

  datatype Option<+T> = None | Some(value: T)

  function Min(a: int, b: int): int {
    if a <= b then a else b
  }

  function Zeros(n: nat): (r: Bytes)
    ensures |r| == n
    ensures forall i :: 0 <= i < n ==> r[i] == 0
  {
    seq(n, i => 0)
  }

  lemma Associates<T>(a: seq<T>, b: seq<T>, c: seq<T>)
    ensures a + (b + c) == (a + b) + c
  {
  }

  // Big-endian 16- and 32-bit fields.

  function Put16(v: uint16): (r: Bytes)
    ensures |r| == 2
  {
    [v / 256, v % 256]
  }

  function Get16(b: Bytes, i: nat): uint16
    requires i + 2 <= |b|
  {
    (b[i] as int) * 256 + b[i + 1]
  }

  function Put32(v: uint32): (r: Bytes)
    ensures |r| == 4
  {
    Put16(v / 0x1_0000) + Put16(v % 0x1_0000)
  }

  function Get32(b: Bytes, i: nat): uint32
    requires i + 4 <= |b|
  {
    Get16(b, i) * 0x1_0000 + Get16(b, i + 2)
  }

  /** The most significant octet comes first. */
  lemma NetworkOrder(v: uint16, w: uint32)
    ensures v == (Put16(v)[0] as int) * 0x100 + Put16(v)[1]
    ensures w == (Put32(w)[0] as int) * 0x100_0000 + (Put32(w)[1] as int) * 0x1_0000 + (Put32(w)[2] as int) * 0x100 + Put32(w)[3]
  {
  }

  lemma Get16Unique(b: Bytes, i: nat, v: uint16)
    requires i + 2 <= |b|
    ensures Get16(b, i) == v <==> b[i..i + 2] == Put16(v)
  {
  }

  lemma Get32Unique(b: Bytes, i: nat, v: uint32)
    requires i + 4 <= |b|
    ensures Get32(b, i) == v <==> b[i..i + 4] == Put32(v)
  {
    var c := b[i..i + 4];
    assert c == [b[i], b[i + 1], b[i + 2], b[i + 3]];
    Get16Unique(b, i, v / 0x1_0000);
    Get16Unique(b, i + 2, v % 0x1_0000);
    assert c == b[i..i + 2] + b[i + 2..i + 4];
    assert c[..2] == b[i..i + 2] && c[2..] == b[i + 2..i + 4];
    assert Put32(v)[..2] == Put16(v / 0x1_0000) && Put32(v)[2..] == Put16(v % 0x1_0000);
  }

  // Exclusive-or of the low `bits` bits, one bit at a time.

  function Pow2(n: nat): (r: nat)
    ensures r > 0
  {
    if n == 0 then 1 else 2 * Pow2(n - 1)
  }

  function Xor(a: nat, b: nat, bits: nat): (r: nat)
    ensures r < Pow2(bits)
  {
    if bits == 0 then 0
    else (a % 2 + b % 2) % 2 + 2 * Xor(a / 2, b / 2, bits - 1)
  }

  lemma LowBit(bit: nat, high: nat)
    requires bit < 2
    ensures (bit + 2 * high) % 2 == bit && (bit + 2 * high) / 2 == high
  {
  }

  lemma BitTwice(a: nat, b: nat)
    ensures ((a % 2 + b % 2) % 2 + b % 2) % 2 == a % 2
  {
  }

  lemma {:induction false} XorInvolutive(a: nat, b: nat, bits: nat)
    requires a < Pow2(bits)
    ensures Xor(Xor(a, b, bits), b, bits) == a
  {
    if bits > 0 {
      Halved(a, bits - 1);
      hide Xor, Pow2;
      XorInvolutive(a / 2, b / 2, bits - 1);
      XorTwice(a, b, bits - 1);
    }
  }

  lemma Halved(a: nat, n: nat)
    requires a < Pow2(n + 1)
    ensures a / 2 < Pow2(n)
  {
  }

  /** One more bit, twice. */
  lemma XorTwice(a: nat, b: nat, n: nat)
    requires Xor(Xor(a / 2, b / 2, n), b / 2, n) == a / 2
    ensures Xor(Xor(a, b, n + 1), b, n + 1) == a
  {
    hide Xor;
    var bit, high := (a % 2 + b % 2) % 2, Xor(a / 2, b / 2, n);
    XorStep(a, b, n);
    LowBit(bit, high);
    XorStep(bit + 2 * high, b, n);
    BitTwice(a, b);
  }

  lemma XorNone(a: nat, b: nat)
    ensures Xor(a, b, 0) == 0
  {
  }

  /** The i-th bit of a number. */
  function Bit(n: nat, i: nat): nat {
    if i == 0 then n % 2 else Bit(n / 2, i - 1)
  }

  /** Each bit of an exclusive-or is set exactly where the two differ. */
  lemma {:induction false} XorBit(a: nat, b: nat, bits: nat, i: nat)
    requires i < bits
    ensures Bit(Xor(a, b, bits), i) == 1 <==> Bit(a, i) != Bit(b, i)
    decreases bits
  {
    LowBit((a % 2 + b % 2) % 2, Xor(a / 2, b / 2, bits - 1));
    if i > 0 {
      XorBit(a / 2, b / 2, bits - 1, i - 1);
    }
  }

  // The low bits and the others are combined apart: for one, two, four and eight low bits.

  lemma XorSplit1(a: nat, b: nat, n: nat)
    ensures Xor(a, b, 1 + n) == Xor(a % 2, b % 2, 1) + 2 * Xor(a / 2, b / 2, n)
  {
    hide Xor;
    XorStep(a, b, n);
    XorOne(a % 2, b % 2);
  }

  lemma XorStep(a: nat, b: nat, n: nat)
    ensures Xor(a, b, 1 + n) == (a % 2 + b % 2) % 2 + 2 * Xor(a / 2, b / 2, n)
  {
  }

  lemma XorOne(a: nat, b: nat)
    requires a < 2 && b < 2
    ensures Xor(a, b, 1) == (a + b) % 2
  {
    assert Xor(a / 2, b / 2, 0) == 0;
  }

  lemma XorSplit2(a: nat, b: nat, n: nat)
    ensures Xor(a, b, 2 + n) == Xor(a % 4, b % 4, 2) + 4 * Xor(a / 4, b / 4, n)
  {
    hide Xor;
    XorSplit1(a, b, 1 + n);
    XorSplit1(a / 2, b / 2, n);
    XorSplit1(a % 4, b % 4, 1);
    assert a / 2 / 2 == a / 4 && b / 2 / 2 == b / 4;
    assert a % 4 % 2 == a % 2 && b % 4 % 2 == b % 2;
    assert a % 4 / 2 == a / 2 % 2 && b % 4 / 2 == b / 2 % 2;
  }

  lemma XorSplit4(a: nat, b: nat, n: nat)
    ensures Xor(a, b, 4 + n) == Xor(a % 16, b % 16, 4) + 16 * Xor(a / 16, b / 16, n)
  {
    hide Xor;
    XorSplit2(a, b, 2 + n);
    XorSplit2(a / 4, b / 4, n);
    XorSplit2(a % 16, b % 16, 2);
    assert a / 4 / 4 == a / 16 && b / 4 / 4 == b / 16;
    assert a % 16 % 4 == a % 4 && b % 16 % 4 == b % 4;
    assert a % 16 / 4 == a / 4 % 4 && b % 16 / 4 == b / 4 % 4;
  }

  lemma XorSplit8(a: nat, b: nat, n: nat)
    ensures Xor(a, b, 8 + n) == Xor(a % 256, b % 256, 8) + 256 * Xor(a / 256, b / 256, n)
  {
    hide Xor;
    XorSplit4(a, b, 4 + n);
    XorSplit4(a / 16, b / 16, n);
    XorSplit4(a % 256, b % 256, 4);
    assert a / 16 / 16 == a / 256 && b / 16 / 16 == b / 256;
    assert a % 256 % 16 == a % 16 && b % 256 % 16 == b % 16;
    assert a % 256 / 16 == a / 16 % 16 && b % 256 / 16 == b / 16 % 16;
  }

  function Xor8(a: byte, b: byte): (r: byte) {
    Pow2Small();
    Xor(a, b, 8)
  }

  function Xor16(a: uint16, b: uint16): (r: uint16) {
    Pow2Small();
    Xor(a, b, 16)
  }

  function Xor32(a: uint32, b: uint32): (r: uint32) {
    Pow2Small();
    Xor(a, b, 32)
  }

  lemma Pow2Small()
    ensures Pow2(8) == 0x100
    ensures Pow2(16) == 0x1_0000
    ensures Pow2(32) == 0x1_0000_0000
  {
    assert Pow2(4) == 16;
    assert Pow2(8) == 0x100;
    assert Pow2(12) == 0x1000;
    assert Pow2(16) == 0x1_0000;
    assert Pow2(20) == 0x10_0000;
    assert Pow2(24) == 0x100_0000;
    assert Pow2(28) == 0x1000_0000;
    assert Pow2(32) == 0x1_0000_0000;
  }

  lemma PutJoined(high: byte, low: byte)
    ensures Put16(low + 256 * high) == [high, low]
  {
  }

  /** A 16-bit exclusive-or is that of the two octets. */
  lemma Xor16Octets(a: uint16, b: uint16)
    ensures Put16(Xor16(a, b)) == [Xor8(Put16(a)[0], Put16(b)[0]), Xor8(Put16(a)[1], Put16(b)[1])]
  {
    Pow2Small();
    XorSplit8(a, b, 8);
    hide Xor, Pow2;
    PutJoined(Xor8(a / 256, b / 256), Xor8(a % 256, b % 256));
  }

  /** Octet-wise exclusive-or, as long as the shorter operand. */
  function XorBytes(a: Bytes, b: Bytes): (r: Bytes)
    ensures |r| == Min(|a|, |b|)
    ensures forall i :: 0 <= i < |r| ==> r[i] == Xor8(a[i], b[i])
  {
    seq(Min(|a|, |b|), i requires 0 <= i < Min(|a|, |b|) => Xor8(a[i], b[i]))
  }

  lemma XorBytesInvolutive(a: Bytes, b: Bytes)
    requires |a| <= |b|
    ensures XorBytes(XorBytes(a, b), b) == a
  {
    var r := XorBytes(XorBytes(a, b), b);
    Pow2Small();
    forall i | 0 <= i < |a| ensures r[i] == a[i] {
      XorInvolutive(a[i], b[i], 8);
    }
  }

  lemma Xor16Involutive(a: uint16, b: uint16)
    ensures Xor16(Xor16(a, b), b) == a
  {
    Pow2Small();
    XorInvolutive(a, b, 16);
  }
}
