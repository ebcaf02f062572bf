/**
  The core as configured: the execution unit `exec` (declares a branch
  request), the load/store unit `ldst` (declares the memory port and an
  asynchronous write-back), and a CSR bank holding the 64-bit cycle and
  retired-instruction counters.
 */
module PicoRV {
  import opened Bus
  import opened WideCounter
  import opened CsrBank
  import opened Components
  import opened Core

  const Exec := Component("exec", false, false, true)
  const Ldst := Component("ldst", true, true, false)

  /** The configuration with `CSRS` set as given. */
  function Configured(csrsEnabled: bool): (cfg: Config)
    ensures ValidConfig(cfg)
  {
    CountersWellFormed();
    Config([Exec, Ldst], Counters, csrsEnabled)
  }

  const ExecIx: nat := 1
  const LdstIx: nat := 2

  /**
    Only the load/store unit and the control unit compete for the memory
    port: the bank and `exec` are never granted, `ldst` is granted whenever
    it requests, and the control unit exactly when it asks and `ldst` does not.
   */
  lemma ConfiguredMemPort(csrsEnabled: bool, s: State, inp: Inputs)
    requires ValidState(Configured(csrsEnabled), s) && ValidInputs(Configured(csrsEnabled), inp)
    ensures var o := Signals(Configured(csrsEnabled), s, inp);
            var ldstReq := inp.units[LdstIx - 1].mem.reqst;
            && !o.memGrants[0] && !o.memGrants[ExecIx]
            && (o.memGrants[LdstIx] <==> ldstReq)
            && (o.ctrlGrant <==> inp.ctrl.memValid && !ldstReq)
  {
    var cfg := Configured(csrsEnabled);
    assert !cfg.units[ExecIx - 1].mem && cfg.units[LdstIx - 1].mem;
    SoleMemUnit(cfg, s, inp, LdstIx);
  }

  // ---------------------------------------------------------------------
  // The counters

  /** `{mcycleh, mcycle}` as one 64-bit value. */
  function Mcycle(s: State): bv64
    requires |s.csrRegs| == |CounterDefs|
  {
    Wide(s.csrRegs[McyclehIx], s.csrRegs[McycleIx])
  }

  /** `{minstreth, minstret}` as one 64-bit value. */
  function Minstret(s: State): bv64
    requires |s.csrRegs| == |CounterDefs|
  {
    Wide(s.csrRegs[MinstrethIx], s.csrRegs[MinstretIx])
  }

  /** An instruction retires in this cycle: `pcpi_valid && pcpi_ready_ctrl`. */
  predicate Retires(inp: Inputs)
    requires ValidInputs(Configured(true), inp)
  {
    inp.ctrl.pcpiValid && ReadyCtrl(Configured(true), inp)
  }

  /** A flag as a 64-bit increment. */
  function Count(b: bool): bv64
  {
    if b then 1 else 0
  }

  /** The retirement count of one cycle, 0 or 1, as a 64-bit increment. */
  function RetiredCount(inp: Inputs): bv64
    requires ValidInputs(Configured(true), inp)
  {
    Count(Retires(inp))
  }

  /**
    With the counter bank enabled and no reset, the next register values are
    the two counter statements applied to the stored ones, whatever CSR
    instruction is on offer and whatever the components do.
   */
  lemma CounterRegs(cfg: Config, s: State, inp: Inputs)
    requires ValidConfig(cfg) && ValidState(cfg, s) && ValidInputs(cfg, inp)
    requires cfg.bank == Counters && cfg.csrsEnabled && !inp.reset
    ensures var r := s.csrRegs;
            var n := Next(cfg, s, inp).csrRegs;
            var d := Retired(Env(cfg, inp));
            && n[McycleIx] == AddLow(r[McycleIx], 1)
            && n[McyclehIx] == AddHigh(r[McyclehIx], r[McycleIx], 1)
            && n[MinstretIx] == AddLow(r[MinstretIx], d)
            && n[MinstrethIx] == AddHigh(r[MinstrethIx], r[MinstretIx], d)
  {
    CsrLatch(cfg, s, inp);
    CountersAdvance(DecodeInsn(inp), s.csrRegs, Env(cfg, inp));
  }

  /** With `CSRS = 1` and no reset, `{mcycleh, mcycle}` advances by exactly one per cycle, modulo 2^64. */
  lemma McycleStep(s: State, inp: Inputs)
    requires ValidState(Configured(true), s) && ValidInputs(Configured(true), inp)
    requires !inp.reset
    ensures Mcycle(Next(Configured(true), s, inp)) == Plus(Mcycle(s), 1)
  {
    var n := Next(Configured(true), s, inp);
    CounterRegs(Configured(true), s, inp);
    PairAdvance(s.csrRegs, n.csrRegs, McyclehIx, McycleIx, 1);
  }

  /**
    With `CSRS = 1` and no reset, `{minstreth, minstret}` advances by one
    exactly when an instruction retires, modulo 2^64.
   */
  lemma MinstretStep(s: State, inp: Inputs)
    requires ValidState(Configured(true), s) && ValidInputs(Configured(true), inp)
    requires !inp.reset
    ensures Minstret(Next(Configured(true), s, inp)) == Plus(Minstret(s), RetiredCount(inp))
  {
    var n := Next(Configured(true), s, inp);
    var d := Retired(Env(Configured(true), inp));
    assert (d == 1) == Retires(inp);
    CounterRegs(Configured(true), s, inp);
    PairAdvance(s.csrRegs, n.csrRegs, MinstrethIx, MinstretIx, d);
  }

  /** A register pair updated by the counter snippet advances as one 64-bit value. */
  lemma PairAdvance(regs: seq<bv32>, n: seq<bv32>, hi: nat, lo: nat, d: bv32)
    requires hi < |regs| && lo < |regs| && hi < |n| && lo < |n| && d <= 1
    requires n[lo] == AddLow(regs[lo], d) && n[hi] == AddHigh(regs[hi], regs[lo], d)
    ensures Wide(n[hi], n[lo]) == Plus(Wide(regs[hi], regs[lo]), Count(d == 1))
  {
    CarryIsWideAdd(regs[hi], regs[lo]);
  }

  /** `x` incremented `n` times as a 64-bit counter, wrapping around. */
  function Advance(x: bv64, n: nat): bv64
  {
    if n == 0 then x else Plus(Advance(x, n - 1), 1)
  }

  /** 64-bit addition, wrapping around. */
  function Plus(x: bv64, d: bv64): bv64 { x + d }

  /** `x` incremented once for every retiring cycle among `ins`, wrapping around. */
  function Retire(x: bv64, ins: seq<Inputs>): bv64
    requires forall k :: 0 <= k < |ins| ==> ValidInputs(Configured(true), ins[k])
  {
    if |ins| == 0 then x
    else Plus(Retire(x, ins[..|ins| - 1]), RetiredCount(ins[|ins| - 1]))
  }

  /** A run of the core with `CSRS = 1` from `s`, on valid inputs and with reset held low throughout. */
  predicate NoResetRun(s: State, ins: seq<Inputs>)
  {
    && ValidState(Configured(true), s)
    && forall j :: 0 <= j < |ins| ==> ValidInputs(Configured(true), ins[j]) && !ins[j].reset
  }

  /** Along a run without reset, after `k` cycles `{mcycleh, mcycle}` has advanced `k` times. */
  lemma {:induction false} McycleAlong(s: State, ins: seq<Inputs>, k: nat)
    requires NoResetRun(s, ins)
    requires k <= |ins|
    ensures Mcycle(Run(Configured(true), s, ins)[k]) == Advance(Mcycle(s), k)
  {
    if k > 0 {
      McycleAlong(s, ins, k - 1);
      McycleInRun(s, ins, k);
    }
  }

  /** Cycle `k` of a run without reset advances `{mcycleh, mcycle}` by one. */
  lemma McycleInRun(s: State, ins: seq<Inputs>, k: nat)
    requires NoResetRun(s, ins)
    requires 0 < k <= |ins|
    ensures var trace := Run(Configured(true), s, ins);
            Mcycle(trace[k]) == Plus(Mcycle(trace[k - 1]), 1)
  {
    var trace := Run(Configured(true), s, ins);
    McycleStep(trace[k - 1], ins[k - 1]);
  }

  /**
    Along a run without reset, after `k` cycles `{minstreth, minstret}` has
    advanced once for every retiring cycle among the first `k`.
   */
  lemma {:induction false} MinstretAlong(s: State, ins: seq<Inputs>, k: nat)
    requires NoResetRun(s, ins)
    requires k <= |ins|
    ensures Minstret(Run(Configured(true), s, ins)[k]) == Retire(Minstret(s), ins[..k])
  {
    if k > 0 {
      MinstretAlong(s, ins, k - 1);
      MinstretCycle(s, ins, k);
    }
  }

  /** One more cycle of the run extends the count of retiring cycles by that cycle's. */
  lemma MinstretCycle(s: State, ins: seq<Inputs>, k: nat)
    requires NoResetRun(s, ins)
    requires 0 < k <= |ins|
    ensures var trace := Run(Configured(true), s, ins);
            Minstret(trace[k - 1]) == Retire(Minstret(s), ins[..k - 1]) ==>
              Minstret(trace[k]) == Retire(Minstret(s), ins[..k])
  {
    MinstretInRun(s, ins, k);
    RetireOneMore(Minstret(s), ins, k);
  }

  /** Cycle `k` of a run without reset advances `{minstreth, minstret}` by that cycle's retire flag. */
  lemma MinstretInRun(s: State, ins: seq<Inputs>, k: nat)
    requires NoResetRun(s, ins)
    requires 0 < k <= |ins|
    ensures var trace := Run(Configured(true), s, ins);
            Minstret(trace[k]) == Plus(Minstret(trace[k - 1]), RetiredCount(ins[k - 1]))
  {
    var trace := Run(Configured(true), s, ins);
    MinstretStep(trace[k - 1], ins[k - 1]);
  }

  lemma RetireOneMore(x: bv64, ins: seq<Inputs>, k: nat)
    requires forall j :: 0 <= j < |ins| ==> ValidInputs(Configured(true), ins[j])
    requires 0 < k <= |ins|
    ensures Retire(x, ins[..k]) == Plus(Retire(x, ins[..k - 1]), RetiredCount(ins[k - 1]))
  {
    assert ins[..k][..k - 1] == ins[..k - 1];
  }

}
