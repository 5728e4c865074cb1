/** The control word written to LA lane 1 (probes LA[63:32]) while the user
    core's instruction memory is loaded: RST in bits [3:0] (active high),
    WEN in bits [7:4] (active high), CSB in bits [11:8] (active low) and the
    memory address ADR in bits [19:12]; bits [31:20] are unused. */
module LaControl {
  import Bits

  /** The four fields of a control word, at their wire widths. */
  datatype ControlFields = ControlFields(rst: bv4, wen: bv4, csb: bv4, adr: bv8)

  function Rst(w: bv32): bv4 { (w & 0xF) as bv4 }
  function Wen(w: bv32): bv4 { ((w >> 4) & 0xF) as bv4 }
  function Csb(w: bv32): bv4 { ((w >> 8) & 0xF) as bv4 }
  function Adr(w: bv32): bv8 { ((w >> 12) & 0xFF) as bv8 }

  /** The bits above the address field, which carry no signal. */
  function Reserved(w: bv32): bv32 { w >> 20 }

  function Decode(w: bv32): ControlFields {
    ControlFields(Rst(w), Wen(w), Csb(w), Adr(w))
  }

  /** Packs the fields into a word; decoding gives them back and leaves the
      unused bits clear. */
  function Encode(f: ControlFields): (w: bv32)
    ensures Decode(w) == f
    ensures Reserved(w) == 0
  {
    (f.rst as bv32) | ((f.wen as bv32) << 4) | ((f.csb as bv32) << 8) | ((f.adr as bv32) << 12)
  }

  /** The other half of the round trip: a word with clear unused bits is the
      encoding of its own fields. */
  lemma EncodeDecode(w: bv32)
    requires Reserved(w) == 0
    ensures Encode(Decode(w)) == w
  {
  }

  /** The target is held in reset while RST is set. The wiring connects only
      bit 0 of each field (RST is LA[32], WEN LA[36], CSB LA[40]); every word
      the test stores has 0 or 1 in each field, so testing the whole field
      and testing its bit 0 agree on them. */
  predicate InReset(w: bv32) { Rst(w) != 0 }

  /** A write is requested while WEN is set. */
  predicate WriteEnabled(w: bv32) { Wen(w) != 0 }

  /** The memory is selected when CSB is low (active low). */
  predicate Selected(w: bv32) { Csb(w) == 0 }

  /** The word written for instruction-memory address `i` by the load loop.
      Defined for addresses that fit the 8-bit ADR field. */
  function ControlWord(i: nat): bv32
    requires i < 256
  {
    0x11 | ((Bits.ByteOf(i) as bv32) << 12)
  }

  /** The control word for address `i` holds reset, enables the write,
      selects the memory (CSB low), carries `i` as its address and leaves the
      unused bits clear; it is the encoding of exactly that request. */
  lemma ControlWordFields(i: nat)
    requires i < 256
    ensures var w := ControlWord(i);
      Rst(w) == 1 && Wen(w) == 1 && Csb(w) == 0 && Adr(w) as int == i && Reserved(w) == 0
    ensures InReset(ControlWord(i)) && WriteEnabled(ControlWord(i)) && Selected(ControlWord(i))
    ensures ControlWord(i) == Encode(ControlFields(1, 1, 0, Bits.ByteOf(i)))
  {
    Bits.ByteOfValue(i);
    AddressBits(Bits.ByteOf(i));
    EncodeDecode(ControlWord(i));
  }

  /** The bit-level half of ControlWord, free of integer conversions. */
  lemma AddressBits(a: bv8)
    ensures var w := 0x11 | ((a as bv32) << 12);
      Rst(w) == 1 && Wen(w) == 1 && Csb(w) == 0 && Adr(w) == a && Reserved(w) == 0
  {
  }

  /** Written after the last instruction: write enable cleared, reset still held. */
  const HoldReset: bv32 := 0x1

  /** Written last: reset released, so the user core starts executing. */
  const ReleaseReset: bv32 := 0x0

  lemma ReleaseWords()
    ensures Decode(HoldReset) == ControlFields(1, 0, 0, 0)
    ensures InReset(HoldReset) && !WriteEnabled(HoldReset)
    ensures !InReset(ReleaseReset) && !WriteEnabled(ReleaseReset)
  {
  }
}
