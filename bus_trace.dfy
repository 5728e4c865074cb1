/** The memory-mapped registers the test touches and the record of its
    accesses to them, in program order. */
module BusTrace {

  /** One of the four 32-bit logic-analyzer lanes: lane k is LA[32k+31:32k]. */
  type Lane = k: nat | k < 4

  datatype Reg =
    | LaData(lane: Lane)   // reg_laK_data
    | LaOenb(lane: Lane)   // reg_laK_oenb: output enable, active low
    | LaIena(lane: Lane)   // reg_laK_iena: input enable, active high
    | MprjDatal            // reg_mprj_datal: the GPIO word the test bench watches

  datatype Event = Write(reg: Reg, value: bv32) | Read(reg: Reg, value: bv32)

  predicate IsLaDataWrite(e: Event) { e.Write? && e.reg.LaData? }

  predicate IsDirectionWrite(e: Event) { e.Write? && (e.reg.LaOenb? || e.reg.LaIena?) }

  /** The value one access stores to `r`: its value if it is a store to
      `r`, nothing otherwise. */
  function Stored(e: Event, r: Reg): seq<bv32> {
    if e.Write? && e.reg == r then [e.value] else []
  }

  /** The values written to `r`, in the order of the trace. */
  function WritesTo(t: seq<Event>, r: Reg): seq<bv32> {
    if t == [] then [] else WritesTo(t[..|t| - 1], r) + Stored(t[|t| - 1], r)
  }

  /** Filtering a trace distributes over its concatenation. */
  lemma {:induction false} WritesToAppend(a: seq<Event>, b: seq<Event>, r: Reg)
    ensures WritesTo(a + b, r) == WritesTo(a, r) + WritesTo(b, r)
  {
    if b == [] {
      assert a + b == a;
    } else {
      var b' := b[..|b| - 1];
      assert (a + b)[..|a + b| - 1] == a + b';
      WritesToAppend(a, b', r);
    }
  }

  /** The same over four consecutive pieces. */
  lemma WritesToAppend4(a: seq<Event>, b: seq<Event>, c: seq<Event>, d: seq<Event>, r: Reg)
    ensures WritesTo(a + b + c + d, r) == WritesTo(a, r) + WritesTo(b, r) + WritesTo(c, r) + WritesTo(d, r)
  {
    WritesToAppend(a + b + c, d, r);
    WritesToAppend(a + b, c, r);
    WritesToAppend(a, b, r);
  }

  /** The empty sequence is a unit of concatenation. Not a property of the
      test: called only to point the solver at this identity. */
  lemma EmptyUnit(s: seq<bv32>)
    ensures s + [] == s && [] + s == s
  {
  }

  lemma WritesToSingle(e: Event, r: Reg)
    ensures WritesTo([e], r) == Stored(e, r)
  {
    assert [e][..0] == [];
  }

  /** Two accesses store what each stores, in order. */
  lemma WritesToPair(a: Event, b: Event, r: Reg)
    ensures WritesTo([a, b], r) == Stored(a, r) + Stored(b, r)
  {
    assert [a, b][..1] == [a];
    WritesToSingle(a, r);
  }

  /** Three accesses store what each stores, in order. */
  lemma WritesToTriple(a: Event, b: Event, c: Event, r: Reg)
    ensures WritesTo([a, b, c], r) == Stored(a, r) + Stored(b, r) + Stored(c, r)
  {
    assert [a, b, c][..2] == [a, b];
    WritesToPair(a, b, r);
  }

  /** A trace without stores to `r` contributes no values for `r`. */
  lemma {:induction false} WritesToNone(t: seq<Event>, r: Reg)
    requires forall j :: 0 <= j < |t| ==> !(t[j].Write? && t[j].reg == r)
    ensures WritesTo(t, r) == []
  {
    if t != [] {
      var t' := t[..|t| - 1];
      assert forall j :: 0 <= j < |t'| ==> t'[j] == t[j];
      WritesToNone(t', r);
    }
  }
}
