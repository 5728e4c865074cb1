/** What the register-access sequence of the logic-analyzer test promises:
    the order and contents of the stores to each register, the position of
    the direction setup and of the two flags, and the separation of the
    lanes the CPU drives from the lane it reads.

    Positions in RunTrace(obs): 0-7 direction setup, 8 start flag, 9-10 the
    data and control lanes cleared, 11-36 the load loop (two stores per
    address), 37-38 write enable dropped then reset released, 39 onwards the
    reads of lane 2, and last the pass flag when the poll ended on a match. */
module LaTestProperties {
  import opened LaControl
  import opened ProgramImage
  import opened BusTrace
  import opened LaTest

  // ---------------------------------------------------------------------
  // The load loop

  /** One iteration stores its control word to lane 1 once. */
  lemma LoadPairControl(i: nat)
    requires i < 256
    ensures WritesTo(LoadPair(i), LaData(1)) == [ControlWord(i)]
  {
    WritesToPair(Write(LaData(1), ControlWord(i)), Write(LaData(0), Instr(i)), LaData(1));
    EmptyUnit([ControlWord(i)]);
  }

  /** One iteration stores its instruction word to lane 0 once. */
  lemma LoadPairData(i: nat)
    requires i < 256
    ensures WritesTo(LoadPair(i), LaData(0)) == [Instr(i)]
  {
    WritesToPair(Write(LaData(1), ControlWord(i)), Write(LaData(0), Instr(i)), LaData(0));
  }

  /** One iteration stores no other register. */
  lemma LoadPairElsewhere(i: nat, r: Reg)
    requires i < 256 && r != LaData(0) && r != LaData(1)
    ensures WritesTo(LoadPair(i), r) == []
  {
    WritesToPair(Write(LaData(1), ControlWord(i)), Write(LaData(0), Instr(i)), r);
  }

  /** One more iteration appends its own stores to those of the earlier ones. */
  lemma LoadStep(n: nat, r: Reg)
    requires 0 < n <= 256
    ensures WritesTo(LoadTrace(n), r) == WritesTo(LoadTrace(n - 1), r) + WritesTo(LoadPair(n - 1), r)
  {
    WritesToAppend(LoadTrace(n - 1), LoadPair(n - 1), r);
  }

  /** The load loop stores no register but lanes 0 and 1. */
  lemma {:induction false} LoadStoresElsewhere(n: nat, r: Reg)
    requires n <= 256 && r != LaData(0) && r != LaData(1)
    ensures WritesTo(LoadTrace(n), r) == []
  {
    if n > 0 {
      LoadStoresElsewhere(n - 1, r);
      LoadStep(n, r);
      LoadPairElsewhere(n - 1, r);
    }
  }

  /** The control words of the first n iterations, in order. */
  function ControlWords(n: nat): (ws: seq<bv32>)
    requires n <= 256
    ensures |ws| == n
  {
    if n == 0 then [] else ControlWords(n - 1) + [ControlWord(n - 1)]
  }

  /** The instruction words of the first n iterations, in order. */
  function InstrWords(n: nat): (ws: seq<bv32>)
    ensures |ws| == n
  {
    if n == 0 then [] else InstrWords(n - 1) + [Instr(n - 1)]
  }

  /** Word k of the first n control words is the one for address k. */
  lemma {:induction false} ControlWordsAt(n: nat)
    requires n <= 256
    ensures forall k :: 0 <= k < n ==> ControlWords(n)[k] == ControlWord(k)
  {
    if n > 0 {
      ControlWordsAt(n - 1);
      var prev := ControlWords(n - 1);
      forall k | 0 <= k < n - 1 ensures ControlWords(n)[k] == ControlWord(k) {
        assert ControlWords(n)[k] == prev[k];
      }
    }
  }

  /** The instruction words of the whole loop are the program image. */
  lemma InstrWordsImage()
    ensures InstrWords(ImageSize) == Image
  {
  }

  /** Over n iterations, lane 1 receives the control words for addresses
      0, 1, ..., n - 1, in that order and each once. */
  lemma {:induction false} LoadControlLane(n: nat)
    requires n <= 256
    ensures WritesTo(LoadTrace(n), LaData(1)) == ControlWords(n)
  {
    if n == 0 {
      assert LoadTrace(0) == [];
    } else {
      LoadControlLane(n - 1);
      LoadStep(n, LaData(1));
      LoadPairControl(n - 1);
    }
  }

  /** Over n iterations, lane 0 receives the instruction words for addresses
      0, 1, ..., n - 1, in that order and each once. */
  lemma {:induction false} LoadDataLane(n: nat)
    requires n <= 256
    ensures WritesTo(LoadTrace(n), LaData(0)) == InstrWords(n)
  {
    if n == 0 {
      assert LoadTrace(0) == [];
    } else {
      LoadDataLane(n - 1);
      LoadStep(n, LaData(0));
      LoadPairData(n - 1);
    }
  }

  /** The load loop stores nothing but the two data lanes 0 and 1. */
  lemma LoadTraceLanes(n: nat)
    requires n <= 256
    ensures forall j :: 0 <= j < |LoadTrace(n)| ==>
      IsLaDataWrite(LoadTrace(n)[j]) && LoadTrace(n)[j].reg.lane < 2
  {
    forall j | 0 <= j < |LoadTrace(n)|
      ensures IsLaDataWrite(LoadTrace(n)[j]) && LoadTrace(n)[j].reg.lane < 2
    {
      LoadTraceAt(n, j);
    }
  }

  /** The loader emits thirteen control words whose addresses are 0 to 12
      in ascending order; each holds reset, enables the write and selects
      the memory. */
  lemma LoaderAddresses()
    ensures var cw := WritesTo(LoadTrace(ImageSize), LaData(1));
      |cw| == 13 &&
      forall k :: 0 <= k < |cw| ==>
        Adr(cw[k]) as int == k && InReset(cw[k]) && WriteEnabled(cw[k]) && Selected(cw[k]) &&
        Reserved(cw[k]) == 0
  {
    LoadControlLane(ImageSize);
    ControlWordsAt(ImageSize);
    var cw := WritesTo(LoadTrace(ImageSize), LaData(1));
    forall k | 0 <= k < |cw|
      ensures Adr(cw[k]) as int == k && InReset(cw[k]) && WriteEnabled(cw[k]) && Selected(cw[k])
      ensures Reserved(cw[k]) == 0
    {
      ControlWordFields(k);
    }
  }

  /** The instruction words the loader emits are the program image, in order. */
  lemma LoaderImage()
    ensures WritesTo(LoadTrace(ImageSize), LaData(0)) == Image
  {
    LoadDataLane(ImageSize);
    InstrWordsImage();
  }

  // ---------------------------------------------------------------------
  // The stores of each phase

  /** One lane's direction pair stores that lane's oenb and iena, once each,
      with the lane's mask, and nothing else. */
  lemma DirectionPairStores(k: Lane, r: Reg)
    ensures WritesTo(DirectionPair(k), r) ==
      if (r.LaOenb? || r.LaIena?) && r.lane == k then [DirectionMask(k)] else []
  {
    WritesToPair(Write(LaIena(k), DirectionMask(k)), Write(LaOenb(k), DirectionMask(k)), r);
    EmptyUnit([DirectionMask(k)]);
  }

  /** The stores to a register during the setup, lane by lane. */
  lemma ProbeSetupWrites(r: Reg)
    ensures WritesTo(ProbeSetup(), r) == WritesTo(DirectionPair(0), r) + WritesTo(DirectionPair(1), r) +
      WritesTo(DirectionPair(2), r) + WritesTo(DirectionPair(3), r)
  {
    WritesToAppend4(DirectionPair(0), DirectionPair(1), DirectionPair(2), DirectionPair(3), r);
  }

  /** The direction setup stores no data lane and no flag. */
  lemma ProbeSetupStores(r: Reg)
    requires r.LaData? || r.MprjDatal?
    ensures WritesTo(ProbeSetup(), r) == []
  {
    ProbeSetupWrites(r);
    DirectionPairStores(0, r);
    DirectionPairStores(1, r);
    DirectionPairStores(2, r);
    DirectionPairStores(3, r);
  }

  /** Four pieces of which only piece i is non-empty concatenate to that piece. */
  lemma OnlyPiece(w0: seq<bv32>, w1: seq<bv32>, w2: seq<bv32>, w3: seq<bv32>, m: seq<bv32>, i: nat)
    requires i < 4
    requires w0 == (if i == 0 then m else []) && w1 == (if i == 1 then m else [])
    requires w2 == (if i == 2 then m else []) && w3 == (if i == 3 then m else [])
    ensures w0 + w1 + w2 + w3 == m
  {
    EmptyUnit(m);
  }

  /** The setup stores each direction register once, with its lane's mask. */
  lemma ProbeSetupDirection(reg: Reg)
    requires reg.LaOenb? || reg.LaIena?
    ensures WritesTo(ProbeSetup(), reg) == [DirectionMask(reg.lane)]
  {
    var k: Lane := reg.lane;
    var w0, w1 := WritesTo(DirectionPair(0), reg), WritesTo(DirectionPair(1), reg);
    var w2, w3 := WritesTo(DirectionPair(2), reg), WritesTo(DirectionPair(3), reg);
    ProbeSetupWrites(reg);
    DirectionPairStores(0, reg);
    DirectionPairStores(1, reg);
    DirectionPairStores(2, reg);
    DirectionPairStores(3, reg);
    OnlyPiece(w0, w1, w2, w3, [DirectionMask(k)], k);
  }

  /** The setup's eight accesses are all direction stores, each with the
      mask of the lane it configures. */
  lemma ProbeSetupAt(j: nat)
    requires j < |ProbeSetup()|
    ensures |ProbeSetup()| == 8
    ensures IsDirectionWrite(ProbeSetup()[j]) && ProbeSetup()[j].value == DirectionMask(ProbeSetup()[j].reg.lane)
  {
    assert ProbeSetup() == DirectionPair(0) + DirectionPair(1) + DirectionPair(2) + DirectionPair(3);
  }

  /** The prelude stores the start flag, then clears lane 0, then lane 1. */
  lemma PreludeStores(r: Reg)
    ensures WritesTo(Prelude(), r) ==
      if r == MprjDatal then [StartSentinel] else if r == LaData(0) || r == LaData(1) then [0] else []
  {
    WritesToTriple(Write(MprjDatal, StartSentinel), Write(LaData(0), 0), Write(LaData(1), 0), r);
    EmptyUnit(WritesTo(Prelude(), r));
  }

  /** The release stores lane 1 twice, HoldReset then ReleaseReset, and
      nothing else. */
  lemma ReleaseStores(r: Reg)
    ensures WritesTo(Release(), r) == if r == LaData(1) then [HoldReset, ReleaseReset] else []
  {
    WritesToPair(Write(LaData(1), HoldReset), Write(LaData(1), ReleaseReset), r);
  }

  /** Only the setup stores a direction register. */
  lemma DirectionsSetOnce(reg: Reg)
    requires reg.LaOenb? || reg.LaIena?
    ensures WritesTo(Prelude(), reg) == [] && WritesTo(LoadTrace(ImageSize), reg) == []
    ensures WritesTo(Release(), reg) == []
  {
    PreludeStores(reg);
    LoadStoresElsewhere(ImageSize, reg);
    ReleaseStores(reg);
  }

  /** After the release, the only store is the pass flag, made exactly when
      the poll ended on a match. */
  lemma PollPhaseStores(obs: seq<bv32>, r: Reg)
    ensures WritesTo(PollPhase(obs), r) ==
      if FirstMatch(obs).Some? && r == MprjDatal then [PassSentinel] else []
  {
    WritesToNone(ReadsOf(Polled(obs)), r);
    WritesToAppend(ReadsOf(Polled(obs)), Finish(obs), r);
    EmptyUnit(WritesTo(Finish(obs), r));
    if FirstMatch(obs).Some? {
      WritesToSingle(Write(MprjDatal, PassSentinel), r);
    } else {
      assert Finish(obs) == [];
    }
  }

  // ---------------------------------------------------------------------
  // The accesses before the poll, register by register

  /** The stores to a register before the poll are those of each phase in turn. */
  lemma StartupWrites(r: Reg)
    ensures WritesTo(Startup(), r) ==
      WritesTo(ProbeSetup(), r) + WritesTo(Prelude(), r) + WritesTo(LoadTrace(ImageSize), r) +
      WritesTo(Release(), r)
  {
    WritesToAppend4(ProbeSetup(), Prelude(), LoadTrace(ImageSize), Release(), r);
  }

  /** Lane 1 before the poll: cleared, the load loop's words, HoldReset and
      ReleaseReset. */
  lemma StartupControlLane()
    ensures WritesTo(Startup(), LaData(1)) ==
      [0] + WritesTo(LoadTrace(ImageSize), LaData(1)) + [HoldReset, ReleaseReset]
  {
    StartupWrites(LaData(1));
    ProbeSetupStores(LaData(1));
    PreludeStores(LaData(1));
    ReleaseStores(LaData(1));
    EmptyUnit([0]);
  }

  /** Lane 0 before the poll: cleared, then the load loop's words. */
  lemma StartupDataLane()
    ensures WritesTo(Startup(), LaData(0)) == [0] + WritesTo(LoadTrace(ImageSize), LaData(0))
  {
    StartupWrites(LaData(0));
    ProbeSetupStores(LaData(0));
    PreludeStores(LaData(0));
    ReleaseStores(LaData(0));
    EmptyUnit([0]);
    EmptyUnit([0] + WritesTo(LoadTrace(ImageSize), LaData(0)));
  }

  /** The flag word before the poll: the start value, once. */
  lemma StartupFlag()
    ensures WritesTo(Startup(), MprjDatal) == [StartSentinel]
  {
    StartupWrites(MprjDatal);
    ProbeSetupStores(MprjDatal);
    PreludeStores(MprjDatal);
    LoadStoresElsewhere(ImageSize, MprjDatal);
    ReleaseStores(MprjDatal);
    EmptyUnit([StartSentinel]);
  }

  /** A direction register before the poll: its lane's mask, once. */
  lemma StartupDirection(reg: Reg)
    requires reg.LaOenb? || reg.LaIena?
    ensures WritesTo(Startup(), reg) == [DirectionMask(reg.lane)]
  {
    StartupWrites(reg);
    ProbeSetupDirection(reg);
    DirectionsSetOnce(reg);
    EmptyUnit([DirectionMask(reg.lane)]);
  }

  /** Only the flag word is stored after the release. */
  lemma RunWrites(obs: seq<bv32>, r: Reg)
    requires r != MprjDatal
    ensures WritesTo(RunTrace(obs), r) == WritesTo(Startup(), r)
  {
    WritesToAppend(Startup(), PollPhase(obs), r);
    PollPhaseStores(obs, r);
    EmptyUnit(WritesTo(Startup(), r));
  }

  // ---------------------------------------------------------------------
  // The whole run, register by register

  /** Lane 1 over the whole run: cleared, then the thirteen control words,
      then HoldReset and ReleaseReset. */
  lemma ControlLaneWrites(obs: seq<bv32>)
    ensures WritesTo(RunTrace(obs), LaData(1)) == [0] + ControlWords(ImageSize) + [HoldReset, ReleaseReset]
  {
    RunWrites(obs, LaData(1));
    StartupControlLane();
    LoadControlLane(ImageSize);
  }

  /** The same sequence position by position: 0 first, the control word for
      address k - 1 at position k, then HoldReset and ReleaseReset last. */
  lemma ControlLaneAt()
    ensures var vs := [0] + ControlWords(ImageSize) + [HoldReset, ReleaseReset];
      |vs| == 16 && vs[0] == 0 && vs[14] == HoldReset && vs[15] == ReleaseReset &&
      forall k :: 1 <= k < 14 ==> vs[k] == ControlWord(k - 1)
  {
    ControlWordsAt(ImageSize);
    var cw := ControlWords(ImageSize);
    var vs := [0] + cw + [HoldReset, ReleaseReset];
    forall k | 1 <= k < 14 ensures vs[k] == ControlWord(k - 1) {
      assert vs[k] == cw[k - 1];
    }
  }

  /** The clear of lane 1 before the load leaves RST = 0 and WEN = 0 with
      the memory selected (CSB low), so the core is out of reset until the
      first control word. Reset is asserted by the first control word and
      held through the second-last word; every word that enables a write
      also holds reset and selects the memory, and comes before the last
      two; the second-last word drops write enable while reset is still
      held; after reset is first asserted, only the last word releases it. */
  lemma WriteEnableDroppedBeforeReset(obs: seq<bv32>)
    ensures var vs := WritesTo(RunTrace(obs), LaData(1));
      |vs| == 16 &&
      !InReset(vs[0]) && !WriteEnabled(vs[0]) && Selected(vs[0]) &&
      (forall k :: 0 <= k < |vs| && WriteEnabled(vs[k]) ==> InReset(vs[k]) && Selected(vs[k]) && k < |vs| - 2) &&
      (forall k :: 1 <= k < |vs| - 1 ==> InReset(vs[k])) &&
      InReset(vs[14]) && !WriteEnabled(vs[14]) && !InReset(vs[15]) && !WriteEnabled(vs[15])
  {
    ControlLaneWrites(obs);
    ControlLaneAt();
    ResetDiscipline([0] + ControlWords(ImageSize) + [HoldReset, ReleaseReset]);
  }

  /** The reset discipline for any sequence of that shape. */
  lemma ResetDiscipline(vs: seq<bv32>)
    requires |vs| == 16 && vs[0] == 0 && vs[14] == HoldReset && vs[15] == ReleaseReset
    requires forall k :: 1 <= k < 14 ==> vs[k] == ControlWord(k - 1)
    ensures !InReset(vs[0]) && !WriteEnabled(vs[0]) && Selected(vs[0])
    ensures forall k :: 0 <= k < |vs| && WriteEnabled(vs[k]) ==> InReset(vs[k]) && Selected(vs[k]) && k < |vs| - 2
    ensures forall k :: 1 <= k < |vs| - 1 ==> InReset(vs[k])
    ensures InReset(vs[14]) && !WriteEnabled(vs[14]) && !InReset(vs[15]) && !WriteEnabled(vs[15])
  {
    ReleaseWords();
    forall k | 1 <= k < 14
      ensures InReset(vs[k]) && WriteEnabled(vs[k]) && Selected(vs[k])
    {
      ControlWordFields(k - 1);
    }
    assert !WriteEnabled(vs[0]);
  }

  /** Lane 0 over the whole run: cleared, then the program image word by word. */
  lemma DataLaneWrites(obs: seq<bv32>)
    ensures WritesTo(RunTrace(obs), LaData(0)) == [0] + Image
  {
    RunWrites(obs, LaData(0));
    StartupDataLane();
    LoaderImage();
  }

  /** Each direction register is stored exactly once in the run, with the
      mask for its lane. */
  lemma DirectionWrites(obs: seq<bv32>, k: Lane)
    ensures WritesTo(RunTrace(obs), LaOenb(k)) == [DirectionMask(k)]
    ensures WritesTo(RunTrace(obs), LaIena(k)) == [DirectionMask(k)]
  {
    RunWrites(obs, LaOenb(k));
    StartupDirection(LaOenb(k));
    RunWrites(obs, LaIena(k));
    StartupDirection(LaIena(k));
  }

  /** The poll ends on a match exactly when some observation has the
      expected value in its result field. */
  lemma MatchFound(obs: seq<bv32>)
    ensures FirstMatch(obs).Some? <==> exists j :: 0 <= j < |obs| && ResultReady(obs[j])
  {
    FirstMatchSpec(obs);
  }

  /** The flag word over the whole run: the start value, then the pass
      value when the poll ended on a match. */
  lemma FlagStores(obs: seq<bv32>)
    ensures WritesTo(RunTrace(obs), MprjDatal) ==
      [StartSentinel] + if FirstMatch(obs).Some? then [PassSentinel] else []
  {
    WritesToAppend(Startup(), PollPhase(obs), MprjDatal);
    StartupFlag();
    PollPhaseStores(obs, MprjDatal);
  }

  /** The GPIO flag word is stored once with the start value and, exactly
      when some observation matched, once more with the pass value. */
  lemma SentinelWrites(obs: seq<bv32>)
    ensures WritesTo(RunTrace(obs), MprjDatal) ==
      if exists j :: 0 <= j < |obs| && ResultReady(obs[j]) then [StartSentinel, PassSentinel]
      else [StartSentinel]
  {
    FlagStores(obs);
    MatchFound(obs);
    EmptyUnit([StartSentinel]);
  }

  // ---------------------------------------------------------------------
  // Positions in the run

  /** The events before the poll, position by position. */
  lemma StartupAt(j: nat)
    requires j < |Startup()|
    ensures |Startup()| == 39
    ensures j < 8 ==> Startup()[j] == ProbeSetup()[j]
    ensures 8 <= j < 11 ==> Startup()[j] == Prelude()[j - 8]
    ensures 11 <= j < 37 ==> Startup()[j] == LoadEvent(j - 11)
    ensures 37 <= j ==> Startup()[j] == Release()[j - 37]
  {
    var p, pre, l, rel := ProbeSetup(), Prelude(), LoadTrace(ImageSize), Release();
    assert Startup() == p + pre + l + rel;
    if 11 <= j < 37 {
      LoadTraceAt(ImageSize, j - 11);
    }
  }

  /** The poll's events: reads of lane 2 and, last, the pass flag. */
  lemma PollPhaseAt(obs: seq<bv32>, j: nat)
    requires j < |PollPhase(obs)|
    ensures j < |Polled(obs)| ==> PollPhase(obs)[j] == Read(LaData(2), Polled(obs)[j])
    ensures j >= |Polled(obs)| ==>
      j == |PollPhase(obs)| - 1 && FirstMatch(obs).Some? && PollPhase(obs)[j] == Write(MprjDatal, PassSentinel)
  {
  }

  /** Every event of the run, classified by its position. */
  lemma EventAt(obs: seq<bv32>, j: nat)
    requires j < |RunTrace(obs)|
    ensures |RunTrace(obs)| == 39 + |PollPhase(obs)|
    ensures j < 39 ==> RunTrace(obs)[j] == Startup()[j]
    ensures j < 8 ==> IsDirectionWrite(RunTrace(obs)[j])
    ensures 8 <= j ==> !IsDirectionWrite(RunTrace(obs)[j])
  {
    var t := RunTrace(obs);
    assert |Startup()| == 39 by { StartupAt(0); }
    if j < 39 {
      StartupAt(j);
      if j < 8 {
        ProbeSetupAt(j);
      }
      assert t[j] == Startup()[j];
    } else {
      PollPhaseAt(obs, j - 39);
      assert t[j] == PollPhase(obs)[j - 39];
    }
  }

  /** Every direction store comes before every other access, and only the
      first eight accesses set directions. */
  lemma DirectionsFirst(obs: seq<bv32>)
    ensures forall j :: 0 <= j < |RunTrace(obs)| ==> (IsDirectionWrite(RunTrace(obs)[j]) <==> j < 8)
    ensures forall i, j ::
      (0 <= i < |RunTrace(obs)| && 0 <= j < |RunTrace(obs)| &&
       IsDirectionWrite(RunTrace(obs)[i]) && !IsDirectionWrite(RunTrace(obs)[j])) ==> i < j
  {
    var t := RunTrace(obs);
    forall j | 0 <= j < |t| ensures IsDirectionWrite(t[j]) <==> j < 8 {
      EventAt(obs, j);
    }
  }

  /** The lanes the firmware drives and the lane it watches are disjoint:
      every data store of the run goes to lane 0 or 1, which the setup makes
      CPU outputs, and every read is of lane 2, which the setup makes a CPU
      input. */
  lemma LanesDisjoint(obs: seq<bv32>, j: nat)
    requires j < |RunTrace(obs)|
    ensures IsLaDataWrite(RunTrace(obs)[j]) ==>
      RunTrace(obs)[j].reg.lane < 2 && DirectionMask(RunTrace(obs)[j].reg.lane) == 0
    ensures RunTrace(obs)[j].Read? ==>
      RunTrace(obs)[j].reg == LaData(2) && DirectionMask(2) == 0xFFFF_FFFF
  {
    EventAt(obs, j);
    if j < 39 {
      StartupAt(j);
      if j < 8 {
        ProbeSetupAt(j);
      }
    } else {
      PollPhaseAt(obs, j - 39);
    }
  }
}
