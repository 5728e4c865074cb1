/** The logic-analyzer test of the management firmware: set the LA lane
    directions, flag the start of the test, load the program into the user
    core's instruction memory one word at a time, release the core from
    reset, wait for its 10-bit result on lane 2 and flag success.

    The functions below give the sequence of register accesses the test
    performs; the class Harness performs them on a model of the registers
    and is proved to produce exactly that sequence. */
module LaTest {
  import opened LaControl
  import opened ProgramImage
  import opened BusTrace

  datatype Option<T> = None | Some(value: T)

  /** GPIO word meaning "test started": 0xAB in the top byte, 0x60 below it. */
  const StartSentinel: bv32 := 0xAB60_0000

  /** GPIO word meaning "test passed". */
  const PassSentinel: bv32 := 0xAB61_0000

  /** The result field of lane 2 (LA[73:64]) and the value the firmware
      waits for there (la_test.c:29 gives it as the sum of 0 to 9). */
  const ResultMask: bv32 := 0x3FF
  const Expected: bv32 := 0x2D

  /** Direction programmed into both oenb and iena of a lane: all zeros
      (driven by the CPU) for lanes 0 and 1, all ones (inputs to the CPU)
      for lanes 2 and 3. */
  function DirectionMask(k: Lane): bv32 {
    if k < 2 then 0x0000_0000 else 0xFFFF_FFFF
  }

  /** The direction stores of one lane. In the chained assignment
      `oenb = iena = mask` the inner register is stored first. */
  function DirectionPair(k: Lane): seq<Event> {
    [Write(LaIena(k), DirectionMask(k)), Write(LaOenb(k), DirectionMask(k))]
  }

  /** The four direction stores, lane by lane. */
  function ProbeSetup(): seq<Event> {
    DirectionPair(0) + DirectionPair(1) + DirectionPair(2) + DirectionPair(3)
  }

  /** The stores between the direction setup and the load loop: the start
      flag, then the data lane and the control lane cleared. */
  function Prelude(): seq<Event> {
    [ Write(MprjDatal, StartSentinel), Write(LaData(0), 0), Write(LaData(1), 0) ]
  }

  /** The event at position j of the load loop's stores: even positions are
      the control word of iteration j / 2 on lane 1, odd positions the
      instruction word of that iteration on lane 0. */
  function LoadEvent(j: nat): Event
    requires j < 512
  {
    if j % 2 == 0 then Write(LaData(1), ControlWord(j / 2))
    else Write(LaData(0), Instr(j / 2))
  }

  /** The stores of iteration i of the load loop: its control word on
      lane 1, then its instruction word on lane 0. */
  function LoadPair(i: nat): seq<Event>
    requires i < 256
  {
    [Write(LaData(1), ControlWord(i)), Write(LaData(0), Instr(i))]
  }

  /** The stores of the first n iterations of the load loop. */
  function LoadTrace(n: nat): (t: seq<Event>)
    requires n <= 256
    ensures |t| == 2 * n
  {
    if n == 0 then [] else LoadTrace(n - 1) + LoadPair(n - 1)
  }

  /** Position j of the load loop's stores is the event LoadEvent(j): each
      iteration stores its control word, then its instruction word. */
  lemma {:induction false} LoadTraceAt(n: nat, j: nat)
    requires n <= 256 && j < 2 * n
    ensures LoadTrace(n)[j] == LoadEvent(j)
  {
    if j < 2 * n - 2 {
      LoadTraceAt(n - 1, j);
    } else if j == 2 * n - 2 {
      assert j % 2 == 0 && j / 2 == n - 1;
    } else {
      assert j % 2 == 1 && j / 2 == n - 1;
    }
  }

  /** The two stores after the loop: write enable dropped with reset held,
      then reset released. */
  function Release(): seq<Event> {
    [ Write(LaData(1), HoldReset), Write(LaData(1), ReleaseReset) ]
  }

  /** The poll's exit condition on one value of lane 2. */
  predicate ResultReady(la2: bv32) { la2 & ResultMask == Expected }

  /** The position of the first observation of lane 2 that ends the poll. */
  function FirstMatch(obs: seq<bv32>): (r: Option<nat>)
    ensures r.Some? ==> r.value < |obs|
  {
    if obs == [] then None
    else if ResultReady(obs[0]) then Some(0)
    else match FirstMatch(obs[1..])
      case None => None
      case Some(k) => Some(k + 1)
  }

  /** FirstMatch finds the earliest observation that ends the poll, and finds
      none only when no observation would. */
  lemma {:induction false} FirstMatchSpec(obs: seq<bv32>)
    ensures FirstMatch(obs).Some? ==>
      FirstMatch(obs).value < |obs| && ResultReady(obs[FirstMatch(obs).value]) &&
      forall j :: 0 <= j < FirstMatch(obs).value ==> !ResultReady(obs[j])
    ensures FirstMatch(obs).None? ==> forall j :: 0 <= j < |obs| ==> !ResultReady(obs[j])
  {
    if obs != [] && !ResultReady(obs[0]) {
      FirstMatchSpec(obs[1..]);
      forall j | 1 <= j < |obs| ensures obs[j] == obs[1..][j - 1] { }
    }
  }

  /** The observations the poll reads: up to and including the first match,
      or all of them when none matches. */
  function Polled(obs: seq<bv32>): seq<bv32> {
    match FirstMatch(obs)
    case Some(k) => obs[..k + 1]
    case None => obs
  }

  /** Reads of lane 2 returning the values vs, in order. */
  function ReadsOf(vs: seq<bv32>): seq<Event> {
    seq(|vs|, j requires 0 <= j < |vs| => Read(LaData(2), vs[j]))
  }

  /** The poll stops at position k exactly when obs[k] is the first
      observation whose result field holds the expected value. */
  lemma {:induction false} FirstMatchIs(obs: seq<bv32>, k: nat)
    requires k < |obs| && ResultReady(obs[k])
    requires forall j :: 0 <= j < k ==> !ResultReady(obs[j])
    ensures FirstMatch(obs) == Some(k)
  {
    if k > 0 {
      forall j | 0 <= j < k - 1 ensures !ResultReady(obs[1..][j]) {
        assert obs[1..][j] == obs[j + 1];
      }
      FirstMatchIs(obs[1..], k - 1);
    }
  }

  /** When no observation ends the poll, FirstMatch finds nothing. */
  lemma {:induction false} FirstMatchNone(obs: seq<bv32>)
    requires forall j :: 0 <= j < |obs| ==> !ResultReady(obs[j])
    ensures FirstMatch(obs) == None
  {
    if obs != [] {
      forall j | 0 <= j < |obs| - 1 ensures !ResultReady(obs[1..][j]) {
        assert obs[1..][j] == obs[j + 1];
      }
      FirstMatchNone(obs[1..]);
    }
  }

  /** The success flag, stored only when the poll ended on a match. */
  function Finish(obs: seq<bv32>): seq<Event> {
    if FirstMatch(obs).Some? then [Write(MprjDatal, PassSentinel)] else []
  }

  /** The accesses that do not depend on lane 2: directions, start flag,
      lanes cleared, the load loop and the release. */
  function Startup(): seq<Event> {
    ProbeSetup() + Prelude() + LoadTrace(ImageSize) + Release()
  }

  /** The reads of the poll, then the success flag if the poll ended. */
  function PollPhase(obs: seq<bv32>): seq<Event> {
    ReadsOf(Polled(obs)) + Finish(obs)
  }

  /** Every register access of the test, in program order, when lane 2
      shows the values obs. */
  function RunTrace(obs: seq<bv32>): seq<Event> {
    Startup() + PollPhase(obs)
  }

  /** Regrouping of the phases of a trace. These are plain identities of
      concatenation, not properties of the test: they are called only to
      steer the solver, and are stated on abstract sequences so that no
      phase's contents are unfolded. */
  lemma AppendAssoc4(t: seq<Event>, a: seq<Event>, b: seq<Event>, c: seq<Event>, d: seq<Event>)
    ensures t + (a + b + c + d) == t + a + b + c + d
  {
  }

  lemma AppendAssoc3(t: seq<Event>, a: seq<Event>, b: seq<Event>)
    ensures t + (a + b) == t + a + b
  {
  }

  /** The poll loop. Lane 2 is an input driven by the user core, so `obs`
      gives the value each successive read returns. The loop stops after the
      first read whose result field holds the expected value, or when the
      observations run out; it reports whether it stopped on a match and how
      many reads it made. */
  method WaitForResult(obs: seq<bv32>) returns (done: bool, n: nat)
    ensures done <==> FirstMatch(obs).Some?
    ensures n <= |obs| && obs[..n] == Polled(obs)
  {
    done := false;
    n := 0;
    while n < |obs| && !done
      invariant 0 <= n <= |obs|
      invariant done ==> FirstMatch(obs) == Some(n - 1)
      invariant !done ==> forall j :: 0 <= j < n ==> !ResultReady(obs[j])
    {
      var la2 := obs[n];
      done := ResultReady(la2);
      if done {
        FirstMatchIs(obs, n);
      }
      n := n + 1;
    }
    if !done {
      assert obs[..n] == obs;
      FirstMatchNone(obs);
    }
  }

  /** The registers the test drives and reads, with a record of every access. */
  class Harness {
    var la0: bv32
    var la1: bv32
    var oenb: seq<bv32>
    var iena: seq<bv32>
    var mprjDatal: bv32
    ghost var trace: seq<Event>

    ghost predicate Valid()
      reads this
    {
      |oenb| == 4 && |iena| == 4
    }

    constructor ()
      ensures Valid() && trace == []
      ensures la0 == 0 && la1 == 0 && mprjDatal == 0
      ensures oenb == [0, 0, 0, 0] && iena == [0, 0, 0, 0]
    {
      la0, la1 := 0, 0;
      oenb, iena := [0, 0, 0, 0], [0, 0, 0, 0];
      mprjDatal := 0;
      trace := [];
    }

    method SetLa0(v: bv32)
      modifies this
      ensures la0 == v && trace == old(trace) + [Write(LaData(0), v)]
      ensures la1 == old(la1)
      ensures oenb == old(oenb) && iena == old(iena) && mprjDatal == old(mprjDatal)
    {
      la0 := v;
      trace := trace + [Write(LaData(0), v)];
    }

    method SetLa1(v: bv32)
      modifies this
      ensures la1 == v && trace == old(trace) + [Write(LaData(1), v)]
      ensures la0 == old(la0)
      ensures oenb == old(oenb) && iena == old(iena) && mprjDatal == old(mprjDatal)
    {
      la1 := v;
      trace := trace + [Write(LaData(1), v)];
    }

    method SetMprjDatal(v: bv32)
      modifies this
      ensures mprjDatal == v && trace == old(trace) + [Write(MprjDatal, v)]
      ensures la0 == old(la0) && la1 == old(la1)
      ensures oenb == old(oenb) && iena == old(iena)
    {
      mprjDatal := v;
      trace := trace + [Write(MprjDatal, v)];
    }

    /** One chained direction assignment: iena, then oenb, of lane k. */
    method SetDirection(k: Lane, mask: bv32)
      requires Valid()
      modifies this
      ensures Valid()
      ensures iena == old(iena)[k := mask] && oenb == old(oenb)[k := mask]
      ensures trace == old(trace) + [Write(LaIena(k), mask), Write(LaOenb(k), mask)]
      ensures la0 == old(la0) && la1 == old(la1)
      ensures mprjDatal == old(mprjDatal)
    {
      iena := iena[k := mask];
      oenb := oenb[k := mask];
      trace := trace + [Write(LaIena(k), mask), Write(LaOenb(k), mask)];
    }

    /** Lanes 0 and 1 become CPU outputs, lanes 2 and 3 CPU inputs. */
    method ConfigureProbes()
      requires Valid()
      modifies this
      ensures Valid()
      ensures forall k: Lane :: oenb[k] == DirectionMask(k) && iena[k] == DirectionMask(k)
      ensures trace == old(trace) + ProbeSetup()
      ensures la0 == old(la0) && la1 == old(la1)
      ensures mprjDatal == old(mprjDatal)
    {
      SetDirection(0, 0x0000_0000);
      SetDirection(1, 0x0000_0000);
      SetDirection(2, 0xFFFF_FFFF);
      SetDirection(3, 0xFFFF_FFFF);
      AppendAssoc4(old(trace), DirectionPair(0), DirectionPair(1), DirectionPair(2), DirectionPair(3));
    }

    /** The load loop: for each address, the control word on lane 1, then
        the instruction word on lane 0. */
    method LoadProgram()
      modifies this
      ensures la1 == ControlWord(ImageSize - 1) && la0 == Instr(ImageSize - 1)
      ensures trace == old(trace) + LoadTrace(ImageSize)
      ensures oenb == old(oenb) && iena == old(iena) && mprjDatal == old(mprjDatal)
    {
      for i := 0 to ImageSize
        invariant trace == old(trace) + LoadTrace(i)
        invariant i > 0 ==> la1 == ControlWord(i - 1) && la0 == Instr(i - 1)
        invariant oenb == old(oenb) && iena == old(iena) && mprjDatal == old(mprjDatal)
      {
        LoadWord(i);
        AppendAssoc3(old(trace), LoadTrace(i), LoadPair(i));
      }
    }

    /** One iteration of the load loop: the control word for address i is
        stored strictly before the instruction word for it. */
    method LoadWord(i: nat)
      requires i < 256
      modifies this
      ensures la1 == ControlWord(i) && la0 == Instr(i)
      ensures trace == old(trace) + LoadPair(i)
      ensures oenb == old(oenb) && iena == old(iena) && mprjDatal == old(mprjDatal)
    {
      SetLa1(ControlWord(i));
      SetLa0(Instr(i));
    }

    /** The poll: reads lane 2 once per observation until its result field
        holds the expected value; reports whether it did. */
    method Poll(obs: seq<bv32>) returns (done: bool)
      modifies this
      ensures done <==> FirstMatch(obs).Some?
      ensures trace == old(trace) + ReadsOf(Polled(obs))
      ensures la0 == old(la0) && la1 == old(la1)
      ensures oenb == old(oenb) && iena == old(iena) && mprjDatal == old(mprjDatal)
    {
      var n;
      done, n := WaitForResult(obs);
      trace := trace + ReadsOf(obs[..n]);
    }

    /** Everything before the load loop: directions, start flag, data and
        control lanes cleared. */
    method Prepare()
      requires Valid()
      modifies this
      ensures Valid()
      ensures forall k: Lane :: oenb[k] == DirectionMask(k) && iena[k] == DirectionMask(k)
      ensures trace == old(trace) + ProbeSetup() + Prelude()
      ensures mprjDatal == StartSentinel && la0 == 0 && la1 == 0
    {
      ConfigureProbes();
      SetMprjDatal(StartSentinel);
      SetLa0(0);
      SetLa1(0);
      // The delay loop that follows spends time only; no register changes.
    }

    /** Write enable dropped while reset is held, then reset released. */
    method ReleaseCore()
      modifies this
      ensures la1 == ReleaseReset
      ensures trace == old(trace) + Release()
      ensures la0 == old(la0)
      ensures oenb == old(oenb) && iena == old(iena) && mprjDatal == old(mprjDatal)
    {
      SetLa1(HoldReset);
      // A delay loop: no register changes.
      SetLa1(ReleaseReset);
    }

    /** The whole test, from the direction setup to the success flag. */
    method Run(obs: seq<bv32>) returns (passed: bool)
      requires Valid()
      modifies this
      ensures Valid()
      ensures trace == old(trace) + RunTrace(obs)
      ensures passed <==> exists j :: 0 <= j < |obs| && ResultReady(obs[j])
      ensures mprjDatal == if passed then PassSentinel else StartSentinel
      ensures la0 == Instr(ImageSize - 1) && la1 == ReleaseReset
      ensures forall k: Lane :: oenb[k] == DirectionMask(k) && iena[k] == DirectionMask(k)
    {
      ghost var before := trace;
      Prepare();
      LoadProgram();
      ReleaseCore();
      AppendAssoc4(before, ProbeSetup(), Prelude(), LoadTrace(ImageSize), Release());
      passed := Poll(obs);
      if passed {
        SetMprjDatal(PassSentinel);
      }
      AppendAssoc3(before, Startup(), PollPhase(obs));
      AppendAssoc3(before + Startup(), ReadsOf(Polled(obs)), Finish(obs));
      FirstMatchSpec(obs);
    }
  }
}
