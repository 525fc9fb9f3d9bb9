/** The invariant of the running pipeline: every instruction in flight is the one the sequential run
    executes at its index, carrying that run's values, and it is in its stage at a known cycle. */
module PipeInvariant {
  import opened Words
  import opened Memory
  import opened Isa
  import opened PipeStd
  import opened Psim
  import opened Sequential
  import opened StageLemmas

  // ----- the sequential run -----

  /** The state before instruction k of the run from s0. */
  function At(s0: IsaState, k: nat): IsaState {
    if k == 0 then s0 else Commit(At(s0, k - 1))
  }

  predicate Completes(s: IsaState) {
    IdealW(s).status == AOK
  }

  /** Instruction k is reached: every earlier one completed. */
  predicate Reached(s0: IsaState, k: nat) {
    k == 0 || (Reached(s0, k - 1) && Completes(At(s0, k - 1)))
  }

  predicate Loads(s: IsaState) {
    IdealE(s).icode in {I_MRMOVQ, I_POPQ}
  }

  /** The load at s feeds the instruction at s'. */
  predicate Feeds(s: IsaState, s': IsaState) {
    LoadUse(IdealE(s), IdealE(s').srca, IdealE(s').srcb)
  }

  predicate Returns(s: IsaState) {
    IdealE(s).icode == I_RET
  }

  predicate Mispredicts(s: IsaState) {
    IdealE(s).icode == I_JMP && !IdealM(s).takebranch
  }

  /** Bubbles that the instruction at s leaves between itself and its successor at s'. */
  function Gap(s: IsaState, s': IsaState): nat {
    if Returns(s) then 3
    else if Mispredicts(s) then 2
    else if Feeds(s, s') then 1
    else 0
  }

  /** The store made at s', if any, misses the bytes that are fetched for the instruction at s. */
  predicate StoreMisses(s': IsaState, s: IsaState) {
    var x := IdealM(s');
    MemWrite(x) && ByteOk(s.m, s.pc) && s.pc + 5 < |s.m| ==> Apart(MemAddr(x), 8, s.pc, FetchLength(s.m, s.pc))
  }

  /** What forwarding delivers to the newest of up to four consecutive states, listed newest first, for
      an operand without a register: the code that stands for no register matches itself, so the value is
      that of the first instruction in flight which lacks a destination. */
  function Stray(w: seq<IsaState>): Word
    requires |w| >= 1
  {
    if |w| < 2 || Gap(w[1], w[0]) > 0 then 0
    else if IdealM(w[1]).deste == REG_NONE then IdealM(w[1]).vale
    else if |w| < 3 || Gap(w[2], w[1]) > 0 then 0
    else if IdealM(w[2]).destm == REG_NONE then IdealW(w[2]).valm
    else if IdealM(w[2]).deste == REG_NONE then IdealM(w[2]).vale
    else if |w| < 4 || Gap(w[3], w[2]) > 0 then 0
    else if IdealW(w[3]).destm == REG_NONE then IdealW(w[3]).valm
    else if IdealW(w[3]).deste == REG_NONE then IdealW(w[3]).vale
    else 0
  }

  /** If the instruction has an operand without a register, no other value strays into it. */
  predicate Unstrayed(w: seq<IsaState>)
    requires |w| >= 1
  {
    ReadsNoRegister(IdealD(w[0])) ==> Stray(w) == 0
  }

  /** The last n states up to number k, newest first. */
  function Latest(s0: IsaState, k: nat, n: nat): (w: seq<IsaState>)
    ensures |w| == if n <= k then n else k + 1
  {
    seq(if n <= k then n else k + 1, i requires 0 <= i <= k => At(s0, k - i))
  }

  /** The cycle in which instruction k is in write back. */
  function Arrival(s0: IsaState, k: nat): (n: nat)
    ensures n >= 5
  {
    if k == 0 then 5 else Arrival(s0, k - 1) + 1 + Gap(At(s0, k - 1), At(s0, k))
  }

  /** Cycles by which the instruction at s delays the fetch of its successor. */
  function Redirect(s: IsaState): nat {
    if Returns(s) then 3 else if Mispredicts(s) then 2 else 0
  }

  /** The cycle in which instruction k is fetched, for good if a load-use hazard repeats its fetch. */
  function FetchTime(s0: IsaState, k: nat): nat {
    if k == 0 then 1 else Arrival(s0, k - 1) - 3 + Redirect(At(s0, k - 1))
  }

  /** The stores that are still to be made when instruction k is fetched do not change it. Those of the
      instructions before a return, a misprediction or another delay may have been made by then. */
  ghost predicate Unwritten(s0: IsaState, k: nat) {
    forall j: nat :: j < k && FetchTime(s0, k) < Arrival(s0, j) ==> StoreMisses(At(s0, j), At(s0, k))
  }

  /** No instruction fetched before cycle n is still to be overwritten, and those that have left decode by
      then have had no value stray into an operand. This is all that the pipeline needs to execute one
      instruction after the other, whatever each of them does. */
  ghost predicate Sound(s0: IsaState, n: nat) {
    && |s0.m| <= MAX_LEN
    && (forall k: nat :: Reached(s0, k) && FetchTime(s0, k) < n ==> Unwritten(s0, k))
    && (forall k: nat :: Reached(s0, k) && Arrival(s0, k) < n + 3 ==> Unstrayed(Latest(s0, k, 4)))
  }

  // ----- the pipeline, reduced to what a cycle starts from -----

  datatype Core = Core(c: Stages, r: RegFile, m: seq<Byte>, cc: Cc)

  function Next(a: Core): Stages {
    NextStages(a.c, a.r, a.m, a.cc)
  }

  /** The next cycle, with all updates of memory and condition codes enabled. */
  function Advance(a: Core): Core {
    var n := Next(a);
    var o := Controls(a.c, n);
    Core(Stages(Updated(o.f, a.c.f, n.f, BUBBLE_F), Updated(o.d, a.c.d, n.d, BUBBLE_D), Updated(o.e, a.c.e, n.e, BUBBLE_E),
                Updated(o.m, a.c.m, n.m, BUBBLE_M), Updated(o.w, a.c.w, n.w, BUBBLE_W)),
         WriteBack(a.r, a.c.w), Stored(a.m, a.c.m), NextCc(a.c, n.w, a.cc))
  }

  // ----- which instruction is where -----

  /** A stage holds an instruction of the run, nothing, or something fetched on a wrong path. */
  datatype Kind = Live | Empty | Junk

  /** The instruction index retires in write back; the stages behind hold the following ones. */
  datatype Tags = Tags(iw: nat, w: bool, m: bool, e: Kind, d: Kind) {
    function IM(): nat { if w then iw + 1 else iw }
    function IE(): nat { if m then IM() + 1 else IM() }
    function ID(): nat { if e.Live? then IE() + 1 else IE() }
    function IF(): nat { if d.Live? then ID() + 1 else ID() }
  }

  /** The states the instructions in the stages run in. */
  datatype View = View(w: IsaState, m: IsaState, e: IsaState, d: IsaState, f: IsaState)

  function ViewOf(s0: IsaState, t: Tags): View {
    View(At(s0, t.iw), At(s0, t.IM()), At(s0, t.IE()), At(s0, t.ID()), At(s0, t.IF()))
  }

  predicate StopW(v: View, t: Tags) { t.w && !Completes(v.w) }

  predicate StopM(v: View, t: Tags) { t.m && !Completes(v.m) }

  predicate StopE(v: View, t: Tags) { t.e.Live? && !Completes(v.e) }

  predicate StopD(v: View, t: Tags) { t.d.Live? && !Completes(v.d) }

  predicate Stopped(v: View, t: Tags) { StopW(v, t) || StopM(v, t) || StopE(v, t) || StopD(v, t) }

  /** The stall of a load-use hazard is on. */
  predicate Held(v: View, t: Tags) { t.e.Live? && t.d.Live? && Feeds(v.e, v.d) }

  /** What is fetched now is the next instruction of the run. */
  predicate OnPath(v: View, t: Tags) {
    && !Stopped(v, t)
    && (t.d.Live? ==> !Returns(v.d) && !Mispredicts(v.d))
    && (t.e.Live? ==> !Returns(v.e) && !Mispredicts(v.e))
    && (t.m ==> !Returns(v.m))
  }

  predicate Ordered(v: View, t: Tags) {
    && (StopW(v, t) ==> !t.m && !t.e.Live? && !t.d.Live?)
    && (StopM(v, t) ==> !t.e.Live? && !t.d.Live?)
    && (StopE(v, t) ==> !t.d.Live?)
    && (t.e.Junk? ==> StopW(v, t) || StopM(v, t))
    && (t.d.Junk? ==> StopW(v, t) || StopM(v, t) || StopE(v, t) || (t.e.Live? && Mispredicts(v.e)))
    && (t.e.Live? && Mispredicts(v.e) ==> !t.d.Live?)
    && (t.e.Live? && t.d.Empty? ==> Returns(v.e))
    && (t.m && Mispredicts(v.m) && Completes(v.m) ==> t.e.Empty? && t.d.Empty?)
    && (t.e.Live? && Returns(v.e) && Completes(v.e) ==> t.d.Empty?)
    && (t.m && Returns(v.m) && Completes(v.m) ==> t.e.Empty? && t.d.Empty?)
    && (t.w && Returns(v.w) && Completes(v.w) ==> !t.m && t.e.Empty? && t.d.Empty?)
  }

  /** A bubble that has moved on from an earlier stage keeps the values computed for it there. */
  predicate BubbleE(e: IdEx) {
    e == BUBBLE_E.(vala := e.vala, valb := e.valb)
  }

  predicate BubbleM(x: ExMem) {
    x.icode == I_NOP && x.deste == x.destm == REG_NONE && x.status == BUB && x.vale == 0
  }

  predicate BubbleW(w: MemWb) {
    w.icode == I_NOP && w.deste == w.destm == REG_NONE && w.status == BUB && w.valm == 0
  }

  predicate Holding(a: Core, v: View, t: Tags) {
    && (if t.w then a.c.w == IdealW(v.w) else BubbleW(a.c.w))
    && (if t.m then MatchesM(a.c.m, v.m) else BubbleM(a.c.m))
    && (t.e.Live? ==> MatchesE(a.c.e, v.e))
    && (t.e.Empty? ==> BubbleE(a.c.e))
    && (t.d.Live? ==> a.c.d == IdealD(v.d))
    && (t.d.Empty? ==> a.c.d == BUBBLE_D)
    && a.r == v.w.r && a.m == v.m.m && a.cc == v.e.cc
  }

  predicate Contents(a: Core, v: View, t: Tags) {
    Holding(a, v, t) && (OnPath(v, t) ==> FPc(a.c.f, a.c.m, a.c.w) == v.f.pc)
  }

  predicate Timely(s0: IsaState, n: nat, v: View, t: Tags) {
    var hold := if Held(v, t) then 1 else 0;
    && (t.w ==> StopW(v, t) || Arrival(s0, t.iw) == n)
    && (t.m ==> Arrival(s0, t.IM()) == n + 1)
    && (t.e.Live? ==> Arrival(s0, t.IE()) == n + 2)
    && (t.d.Live? ==> Arrival(s0, t.ID()) == n + 3 + hold)
    && (OnPath(v, t) && t.d.Empty? ==> Arrival(s0, t.IF()) == n + 4)
    && (StopW(v, t) ==> Arrival(s0, t.iw) <= n)
    && (t.iw > 0 ==> Arrival(s0, t.iw - 1) < n)
  }

  predicate AllReached(s0: IsaState, v: View, t: Tags) {
    && (t.w ==> Reached(s0, t.iw))
    && (t.m ==> Reached(s0, t.IM()))
    && (t.e.Live? ==> Reached(s0, t.IE()))
    && (t.d.Live? ==> Reached(s0, t.ID()))
    && (!Stopped(v, t) ==> Reached(s0, t.IF()))
  }

  /** Cycle n is at a, and t says which instructions are in flight. */
  predicate Inv(s0: IsaState, n: nat, a: Core, t: Tags) {
    var v := ViewOf(s0, t);
    AllReached(s0, v, t) && Ordered(v, t) && Contents(a, v, t) && Timely(s0, n, v, t)
  }

  /** What is in flight one cycle later. */
  function NextTags(v: View, t: Tags): Tags {
    if StopW(v, t) then Tags(t.iw, true, false, Junk, Junk)
    else if StopM(v, t) then Tags(t.IM(), true, false, Junk, Junk)
    else if StopE(v, t) then Tags(t.IM(), t.m, true, Junk, Junk)
    else if t.e.Live? && Mispredicts(v.e) then Tags(t.IM(), t.m, true, Empty, Empty)
    else if Held(v, t) then Tags(t.IM(), t.m, true, Empty, Live)
    else
      var returning := (t.d.Live? && Returns(v.d)) || (t.e.Live? && Returns(v.e)) || (t.m && Returns(v.m));
      Tags(t.IM(), t.m, t.e.Live?, t.d, if returning then Empty else if OnPath(v, t) then Live else Junk)
  }

  // ----- one cycle keeps the invariant -----

  lemma ViewChain(s0: IsaState, t: Tags)
    ensures var v := ViewOf(s0, t);
      && v.m == (if t.w then Commit(v.w) else v.w)
      && v.e == (if t.m then Commit(v.m) else v.m)
      && v.d == (if t.e.Live? then Commit(v.e) else v.e)
      && v.f == (if t.d.Live? then Commit(v.d) else v.d)
  {
    hide Commit;
  }

  lemma StatusOfInstruction(s: IsaState)
    ensures Completes(s) || Excepting(IdealW(s).status)
    ensures Mispredicts(s) ==> Completes(s)
    ensures IdealW(s).icode == IdealM(s).icode == IdealE(s).icode == IdealD(s).icode
    ensures IdealM(s).deste == IdealW(s).deste && IdealM(s).vale == IdealW(s).vale
    ensures IdealE(s).destm == IdealM(s).destm == IdealW(s).destm
    ensures IdealE(s).destm < REG_NONE ==> Loads(s)
  {
    hide ComputeAlu, CondHolds, WordAt, GetReg;
  }

  lemma LengthAt(s0: IsaState, k: nat)
    ensures |At(s0, k).m| == |s0.m|
  {
    hide IdealM, IdealW, NextPc, FlagsAfter, WriteBack;
  }

  /** An instruction is in write back four cycles after its fetch, or five if it has been held back. */
  lemma FetchBeforeArrival(s0: IsaState, k: nat)
    ensures FetchTime(s0, k) + 4 == Arrival(s0, k)
         || (k > 0 && Gap(At(s0, k - 1), At(s0, k)) == 1 && FetchTime(s0, k) + 5 == Arrival(s0, k))
    ensures k > 0 && Gap(At(s0, k - 1), At(s0, k)) == 1 ==> FetchTime(s0, k) + 5 == Arrival(s0, k)
  {
    hide At, Returns, Mispredicts, Feeds;
  }

  lemma SoundEarlier(s0: IsaState, j: nat, n: nat)
    requires Sound(s0, n) && j <= n
    ensures Sound(s0, j)
  {
    hide At, Reached, FetchTime, Arrival, Unwritten, Unstrayed, Latest;
  }

  /** Fetching instruction k while the stores of the instructions from j on are still to be made. */
  lemma {:induction false} FetchEarly(s0: IsaState, j: nat, k: nat)
    requires |s0.m| <= MAX_LEN && Unwritten(s0, k) && j <= k && (j < k ==> FetchTime(s0, k) < Arrival(s0, j))
    ensures FetchStage(At(s0, j).m, At(s0, k).pc) == IdealD(At(s0, k))
    decreases k - j
  {
    hide FetchStage, StoreWord, IdealM, IdealW, NextPc, FlagsAfter, WriteBack, FetchTime, Gap, Unwritten;
    if j < k {
      assert Arrival(s0, j) < Arrival(s0, j + 1);
      FetchEarly(s0, j + 1, k);
      LengthAt(s0, j);
      LengthAt(s0, j + 1);
      LengthAt(s0, k);
      var s, x, pc := At(s0, j), IdealM(At(s0, j)), At(s0, k).pc;
      assert At(s0, j + 1).m == Stored(s.m, x);
      if MemWrite(x) {
        MissesAt(s0, j, k);
        if ByteOk(s.m, pc) && pc + 5 < |s.m| {
          FetchLengthAgrees(At(s0, j + 1).m, At(s0, k).m, pc);
        }
        FetchUnaffected(s.m, MemAddr(x), x.vala, pc);
      }
    }
  }

  lemma MissesAt(s0: IsaState, j: nat, k: nat)
    requires Unwritten(s0, k) && j < k && FetchTime(s0, k) < Arrival(s0, j)
    ensures StoreMisses(At(s0, j), At(s0, k))
  {}

  lemma FetchLengthAgrees(m: seq<Byte>, m': seq<Byte>, pc: Word)
    requires |m| == |m'| <= MAX_LEN && ByteOk(m, pc) && pc + 5 < |m| && FetchStage(m, pc) == FetchStage(m', pc)
    ensures FetchLength(m, pc) == FetchLength(m', pc)
  {
    assert Wrap(pc + 5) == pc + 5;
  }
}
