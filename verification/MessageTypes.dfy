/** The 14-bit interleaving of method and class in the first two octets of a header. */
module MessageTypes {
  import opened Base

  /** A method is a 16-bit word of which 12 bits travel; a class is an octet of which 2 travel. */
  datatype MessageType = MessageType(meth: bv16, cls: bv8) {
    predicate InRange() {
      meth < 0x1000 && cls < 4
    }
  }

  // The method splits into A(M0-M3), B(M4-M6), D(M7-M11), with C0 above A and C1 above B.

  function Interleave(t: MessageType): bv16 {
    var a := t.meth & 0xf;
    var b := t.meth & 0x70;
    var d := t.meth & 0xf80;
    var c := t.cls as bv16;
    var c0 := (c & 1) << 4;
    var c1 := (c & 2) << 7;
    (a + (b << 1) + (d << 2)) + (c0 + c1)
  }

  function Deinterleave(v: bv16): MessageType {
    var c0 := (v >> 4) & 1;
    var c1 := (v >> 7) & 2;
    var a := v & 0xf;
    var b := (v >> 1) & 0x70;
    var d := (v >> 2) & 0xf80;
    MessageType(a + b + d, (c0 + c1) as bv8)
  }

  function Value(t: MessageType): uint16 {
    Interleave(t) as int
  }

  function ReadValue(v: uint16): MessageType {
    Deinterleave(v as bv16)
  }

  /** A type survives the wire exactly when its method has 12 bits and its class 2. */
  lemma TypeRoundTrip(t: MessageType)
    ensures ReadValue(Value(t)) == t <==> t.InRange()
  {
    WordSurvivesInt(Interleave(t));
    InterleaveRoundTrip(t);
  }

  lemma WordSurvivesInt(v: bv16)
    ensures (v as int) as bv16 == v
  {
  }

  lemma InterleaveRoundTrip(t: MessageType)
    ensures Deinterleave(Interleave(t)) == t <==> t.InRange()
  {
  }

  /** Where each bit goes: bits 0-3 of the word are those of the method, bit 4 is bit 0 of the class, bits 5-7 are
      bits 4-6 of the method, bit 8 is bit 1 of the class, bits 9-13 are bits 7-11 of the method. */
  predicate Placed(t: MessageType, v: bv16) {
    var c := t.cls as bv16;
    && v & 0xf == t.meth & 0xf && (v >> 4) & 1 == c & 1 && (v >> 5) & 7 == (t.meth >> 4) & 7
    && (v >> 8) & 1 == (c >> 1) & 1 && (v >> 9) & 0x1f == (t.meth >> 7) & 0x1f
  }

  lemma WrittenPlaces(t: MessageType)
    ensures Placed(t, Interleave(t)) && Interleave(t) < 0x4000
  {
  }

  lemma ReadPlaces(v: bv16)
    ensures Placed(Deinterleave(v), v)
  {
  }

  /** A Binding request, indication, success and error response. */
  lemma BindingWords()
    ensures Interleave(MessageType(1, 0)) == 0x0001 && Interleave(MessageType(1, 1)) == 0x0011
    ensures Interleave(MessageType(1, 2)) == 0x0101 && Interleave(MessageType(1, 3)) == 0x0111
  {
  }

  /** Every word reads as a type in range, and writing it back loses only the two top bits. */
  lemma WordRoundTrip(v: bv16)
    ensures Deinterleave(v).InRange()
    ensures Interleave(Deinterleave(v)) == v & 0x3fff
  {
  }

  lemma ReadInRange(v: uint16)
    ensures ReadValue(v).InRange()
  {
    WordRoundTrip(v as bv16);
  }
}
