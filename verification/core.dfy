/**
  One clock cycle of the composed core.

  The requester order is `components`: the CSR bank's pseudo-component
  first, then the configured components in configuration order; the control
  unit requests the memory port behind all of them. The control unit and the
  configured components are modules whose behaviour is not part of this
  model: what they drive in a cycle is an input of the cycle.
 */
module Core {
  import opened Options
  import opened Bus
  import opened CsrDecode
  import opened WideCounter
  import opened CsrBank
  import opened Components
  import MemArbiter
  import AwbArbiter

  /** The generator's configuration: the components, the CSR bank and the `CSRS` parameter. */
  datatype Config = Config(units: seq<Component>, bank: BankConfig, csrsEnabled: bool)

  predicate ValidConfig(cfg: Config)
  {
    WellFormed(cfg.bank)
  }

  /** What the control unit drives in a cycle. */
  datatype CtrlOut = CtrlOut(
    memValid: bool,
    memAddr: bv32,
    awbReady: bool,
    pcpiValid: bool,
    pcpiInsn: bv32,
    rs1Valid: bool,
    wbValid: bool)

  /** The core's inputs in a cycle, and what its sub-modules drive. */
  datatype Inputs = Inputs(
    reset: bool,
    memReady: bool,
    ctrl: CtrlOut,
    units: seq<UnitOut>,  // each configured component's module, before tie-off
    pcpi: PcpiResp,       // the external co-processor inputs
    awb: AwbFields)       // the external asynchronous write-back

  /** The registers: one lock per requester, the control unit's lock, the CSRs. */
  datatype State = State(memLocks: seq<bool>, ctrlLock: bool, csrRegs: seq<bv32>)

  /** The signals of one cycle; the requester sequences are in `components` order. */
  datatype Outputs = Outputs(
    memGrants: seq<bool>,    // arb_mem_<r>
    memReadyTo: seq<bool>,   // mem_ready_<r>
    ctrlGrant: bool,         // arb_mem_ctrl
    ctrlMemReady: bool,      // mem_ready_ctrl
    mem: MemFields,          // mem_valid, mem_addr, mem_wdata, mem_wstrb
    memInsn: bool,           // mem_insn
    awbGrants: seq<bool>,    // arb_awb_<r>
    awbReadyTo: seq<bool>,   // awb_ready_<r>
    awbToCtrl: AwbFields,    // awb_valid_ctrl, awb_addr_ctrl, awb_data_ctrl
    awbReady: bool,          // awb_ready
    csrs: PcpiResp,          // the CSR bank's co-processor response
    csrOut: bv32,            // csrinsn_out
    pcpiToCtrl: PcpiResp)    // what the control unit sees on the co-processor interface

  predicate ValidInputs(cfg: Config, inp: Inputs)
  {
    |inp.units| == |cfg.units|
  }

  predicate ValidState(cfg: Config, s: State)
  {
    |s.memLocks| == |cfg.units| + 1 && |s.csrRegs| == |cfg.bank.defs|
  }

  // ---------------------------------------------------------------------
  // The pieces of a cycle

  /** The configured components' outputs after tie-off. */
  function Tied(cfg: Config, inp: Inputs): (t: seq<UnitOut>)
    requires ValidInputs(cfg, inp)
    ensures |t| == |cfg.units|
    ensures forall i :: 0 <= i < |t| ==> t[i] == TieOff(cfg.units[i], inp.units[i])
  {
    seq(|cfg.units|, i requires 0 <= i < |cfg.units| => TieOff(cfg.units[i], inp.units[i]))
  }

  /** `csrinsn_valid` and `csrinsn_addr` for the instruction on offer. */
  function DecodeInsn(inp: Inputs): Decoded
  {
    Decode(inp.ctrl.pcpiValid, inp.ctrl.pcpiInsn, inp.ctrl.rs1Valid)
  }

  /** `pcpi_ready_csrs`, which depends only on the decoded address, never on register values. */
  function CsrsReady(cfg: Config, inp: Inputs): bool
  {
    Acknowledges(cfg.bank.defs, DecodeInsn(inp)) && inp.ctrl.pcpiValid && inp.ctrl.wbValid
  }

  /** Some configured component accepts the instruction. */
  predicate UnitReady(t: seq<UnitOut>)
  {
    exists i :: 0 <= i < |t| && t[i].pcpi.ready
  }

  /** `pcpi_ready_ctrl`, as the counter snippet reads it. */
  function ReadyCtrl(cfg: Config, inp: Inputs): bool
    requires ValidInputs(cfg, inp)
  {
    inp.pcpi.ready || CsrsReady(cfg, inp) || UnitReady(Tied(cfg, inp))
  }

  function Env(cfg: Config, inp: Inputs): SnippetEnv
    requires ValidInputs(cfg, inp)
  {
    SnippetEnv(inp.ctrl.pcpiValid, ReadyCtrl(cfg, inp))
  }

  /** The CSR bank's evaluation in this cycle. */
  function Bank(cfg: Config, s: State, inp: Inputs): (r: BankResult)
    requires ValidConfig(cfg) && ValidState(cfg, s) && ValidInputs(cfg, inp)
    ensures |r.proposed| == |cfg.bank.defs|
  {
    Evaluate(cfg.bank, cfg.csrsEnabled, DecodeInsn(inp), s.csrRegs, Env(cfg, inp))
  }

  /** Every requester's outputs in `components` order: the bank first, then the tied-off components. */
  function AllUnits(cfg: Config, s: State, inp: Inputs): (all: seq<UnitOut>)
    requires ValidConfig(cfg) && ValidState(cfg, s) && ValidInputs(cfg, inp)
    ensures |all| == |cfg.units| + 1
  {
    var r := Bank(cfg, s, inp);
    [CsrsUnit(r.ready, r.out, inp.ctrl.pcpiValid, inp.ctrl.wbValid)] + Tied(cfg, inp)
  }

  function MemRequests(all: seq<UnitOut>): (req: seq<bool>)
    ensures |req| == |all|
    ensures forall i :: 0 <= i < |all| ==> req[i] == all[i].mem.reqst
  {
    seq(|all|, i requires 0 <= i < |all| => all[i].mem.reqst)
  }

  function MemBuses(all: seq<UnitOut>): (b: seq<MemFields>)
    ensures |b| == |all|
    ensures forall i :: 0 <= i < |all| ==> b[i] == all[i].mem.bus
  {
    seq(|all|, i requires 0 <= i < |all| => all[i].mem.bus)
  }

  function AwbValids(all: seq<UnitOut>): (v: seq<bool>)
    ensures |v| == |all|
    ensures forall i :: 0 <= i < |all| ==> v[i] == all[i].awb.valid
  {
    seq(|all|, i requires 0 <= i < |all| => all[i].awb.valid)
  }

  function AwbBuses(all: seq<UnitOut>): (b: seq<AwbFields>)
    ensures |b| == |all|
    ensures forall i :: 0 <= i < |all| ==> b[i] == all[i].awb
  {
    seq(|all|, i requires 0 <= i < |all| => all[i].awb)
  }

  function PcpiResps(all: seq<UnitOut>): (p: seq<PcpiResp>)
    ensures |p| == |all|
    ensures forall i :: 0 <= i < |all| ==> p[i] == all[i].pcpi
  {
    seq(|all|, i requires 0 <= i < |all| => all[i].pcpi)
  }

  /** The control unit drives zeros on the write data and strobes: it only reads. */
  function CtrlBus(c: CtrlOut): MemFields
  {
    MemFields(c.memValid, c.memAddr, 0, 0)
  }

  /** Gate every flag with a shared ready: `<flag>_<r> && ready`. */
  function AndAll(gs: seq<bool>, ready: bool): (rs: seq<bool>)
    ensures |rs| == |gs|
    ensures forall i :: 0 <= i < |gs| ==> (rs[i] <==> gs[i] && ready)
  {
    seq(|gs|, i requires 0 <= i < |gs| => gs[i] && ready)
  }

  /** `arb_mem_<r>` for every requester in `components` order. */
  function MemGrants(cfg: Config, s: State, inp: Inputs): (g: seq<bool>)
    requires ValidConfig(cfg) && ValidState(cfg, s) && ValidInputs(cfg, inp)
    ensures |g| == |cfg.units| + 1
  {
    MemArbiter.Grants(MemRequests(AllUnits(cfg, s, inp)), s.memLocks)
  }

  /** The combinational signals of one clock cycle. */
  function Signals(cfg: Config, s: State, inp: Inputs): (o: Outputs)
    requires ValidConfig(cfg) && ValidState(cfg, s) && ValidInputs(cfg, inp)
    ensures |o.memGrants| == |o.memReadyTo| == |cfg.units| + 1
    ensures |o.awbGrants| == |o.awbReadyTo| == |cfg.units| + 1
  {
    var all := AllUnits(cfg, s, inp);
    var g := MemGrants(cfg, s, inp);
    var ctrlG := MemArbiter.CtrlGrant(inp.ctrl.memValid, g);
    var ag := AwbArbiter.Grants(inp.awb.valid, AwbValids(all));
    Outputs(
      g, AndAll(g, inp.memReady), ctrlG, ctrlG && inp.memReady,
      MemArbiter.MergedBus(ctrlG, CtrlBus(inp.ctrl), g, MemBuses(all)), ctrlG,
      ag, AndAll(ag, inp.ctrl.awbReady),
      AwbArbiter.ToCtrl(inp.awb, ag, AwbBuses(all)), inp.awb.valid && inp.ctrl.awbReady,
      all[0].pcpi, Bank(cfg, s, inp).out, Aggregate(inp.pcpi, PcpiResps(all)))
  }

  /** The registers' values after one clock cycle. */
  function Next(cfg: Config, s: State, inp: Inputs): (n: State)
    requires ValidConfig(cfg) && ValidState(cfg, s) && ValidInputs(cfg, inp)
    ensures ValidState(cfg, n)
  {
    var g := MemGrants(cfg, s, inp);
    State(
      MemArbiter.NextLocks(inp.reset, g),
      !inp.reset && MemArbiter.CtrlGrant(inp.ctrl.memValid, g),
      Latch(inp.reset, cfg.bank.defs, Bank(cfg, s, inp).proposed))
  }

  // ---------------------------------------------------------------------
  // The memory port

  /** At most one requester holds the memory port, and the control unit only when none does. */
  lemma MemGrantExclusive(cfg: Config, s: State, inp: Inputs)
    requires ValidConfig(cfg) && ValidState(cfg, s) && ValidInputs(cfg, inp)
    ensures var o := Signals(cfg, s, inp);
            && AtMostOne(o.memGrants)
            && (o.ctrlGrant ==> MemArbiter.NoneGranted(o.memGrants))
  {
    var all := AllUnits(cfg, s, inp);
    MemArbiter.MutualExclusion(MemRequests(all), s.memLocks, inp.ctrl.memValid);
  }

  /** Requester `i` in `components` order: the bank never requests, then each tied-off component. */
  lemma MemRequestAt(cfg: Config, s: State, inp: Inputs, i: nat)
    requires ValidConfig(cfg) && ValidState(cfg, s) && ValidInputs(cfg, inp)
    requires i <= |cfg.units|
    ensures MemRequests(AllUnits(cfg, s, inp))[i] == (i > 0 && Tied(cfg, inp)[i - 1].mem.reqst)
  {
    var r := Bank(cfg, s, inp);
    var first := CsrsUnit(r.ready, r.out, inp.ctrl.pcpiValid, inp.ctrl.wbValid);
    var t := Tied(cfg, inp);
    assert AllUnits(cfg, s, inp) == [first] + t;
    assert Inert(CsrsComponent, first);
    if i > 0 {
      assert ([first] + t)[i] == t[i - 1];
    }
  }

  /** The memory grants and the control unit's grant as `Signals` drives them. */
  lemma MemPort(cfg: Config, s: State, inp: Inputs)
    requires ValidConfig(cfg) && ValidState(cfg, s) && ValidInputs(cfg, inp)
    ensures var g := MemArbiter.Grants(MemRequests(AllUnits(cfg, s, inp)), s.memLocks);
            && Signals(cfg, s, inp).memGrants == g
            && Signals(cfg, s, inp).ctrlGrant == MemArbiter.CtrlGrant(inp.ctrl.memValid, g)
  {
  }

  /** The CSR bank and every component declared without `mem` are never granted the memory port. */
  lemma NoMemNeverGranted(cfg: Config, s: State, inp: Inputs, i: nat)
    requires ValidConfig(cfg) && ValidState(cfg, s) && ValidInputs(cfg, inp)
    requires i == 0 || (i <= |cfg.units| && !cfg.units[i - 1].mem)
    ensures !Signals(cfg, s, inp).memGrants[i]
    ensures !Signals(cfg, s, inp).memReadyTo[i]
  {
    var req := MemRequests(AllUnits(cfg, s, inp));
    MemRequestAt(cfg, s, inp, i);
    if i > 0 {
      assert Inert(cfg.units[i - 1], Tied(cfg, inp)[i - 1]);
    }
    MemArbiter.GrantImpliesRequest(req, s.memLocks, i);
    MemPort(cfg, s, inp);
  }

  /**
    When a single component declares the memory port, it is granted exactly
    when it requests, nobody else is granted, and the control unit is granted
    exactly when it asks and that component does not request.
   */
  lemma SoleMemUnit(cfg: Config, s: State, inp: Inputs, i: nat)
    requires ValidConfig(cfg) && ValidState(cfg, s) && ValidInputs(cfg, inp)
    requires 1 <= i <= |cfg.units| && forall j :: 0 <= j < |cfg.units| && j != i - 1 ==> !cfg.units[j].mem
    ensures Signals(cfg, s, inp).memGrants[i] <==> Tied(cfg, inp)[i - 1].mem.reqst
    ensures forall j :: 0 <= j < |cfg.units| + 1 && j != i ==> !Signals(cfg, s, inp).memGrants[j]
    ensures Signals(cfg, s, inp).ctrlGrant <==> inp.ctrl.memValid && !Tied(cfg, inp)[i - 1].mem.reqst
  {
    var req := MemRequests(AllUnits(cfg, s, inp));
    var t := Tied(cfg, inp);
    forall j | 0 <= j < |req| && j != i
      ensures !req[j]
    {
      MemRequestAt(cfg, s, inp, j);
      if j > 0 {
        assert Inert(cfg.units[j - 1], t[j - 1]);
      }
    }
    MemRequestAt(cfg, s, inp, i);
    MemArbiter.SoleRequester(req, s.memLocks, i);
    MemArbiter.ExactWinner(req, s.memLocks, inp.ctrl.memValid);
    MemPort(cfg, s, inp);
  }

  /**
    The control unit gets the port exactly when it asks and no component
    (after tie-off) requests it.
   */
  lemma CtrlGrantedWhenAlone(cfg: Config, s: State, inp: Inputs)
    requires ValidConfig(cfg) && ValidState(cfg, s) && ValidInputs(cfg, inp)
    ensures Signals(cfg, s, inp).ctrlGrant <==>
              inp.ctrl.memValid && forall i :: 0 <= i < |cfg.units| ==> !Tied(cfg, inp)[i].mem.reqst
  {
    var req := MemRequests(AllUnits(cfg, s, inp));
    NoRequests(cfg, s, inp);
    MemArbiter.ExactWinner(req, s.memLocks, inp.ctrl.memValid);
    MemPort(cfg, s, inp);
  }

  /** Nobody requests the port exactly when no tied-off component does. */
  lemma NoRequests(cfg: Config, s: State, inp: Inputs)
    requires ValidConfig(cfg) && ValidState(cfg, s) && ValidInputs(cfg, inp)
    ensures var req := MemRequests(AllUnits(cfg, s, inp));
            var t := Tied(cfg, inp);
            (forall i :: 0 <= i < |req| ==> !req[i]) <==> (forall i :: 0 <= i < |t| ==> !t[i].mem.reqst)
  {
    var req := MemRequests(AllUnits(cfg, s, inp));
    var t := Tied(cfg, inp);
    if forall i :: 0 <= i < |t| ==> !t[i].mem.reqst {
      forall i | 0 <= i < |req|
        ensures !req[i]
      {
        MemRequestAt(cfg, s, inp, i);
      }
    }
    if forall i :: 0 <= i < |req| ==> !req[i] {
      forall i | 0 <= i < |t|
        ensures !t[i].mem.reqst
      {
        MemRequestAt(cfg, s, inp, i + 1);
      }
    }
  }

  /**
    The merged memory port carries exactly the granted requester's fields
    (the control unit's address with zero write data when it is granted), or
    zeros when nobody is granted; `mem_insn` is the control unit's grant and
    each requester's `mem_ready` is its grant gated by the memory's ready.
   */
  lemma MergedMemPort(cfg: Config, s: State, inp: Inputs)
    requires ValidConfig(cfg) && ValidState(cfg, s) && ValidInputs(cfg, inp)
    ensures var o := Signals(cfg, s, inp);
            var all := AllUnits(cfg, s, inp);
            && (o.ctrlGrant ==> o.mem == MemFields(inp.ctrl.memValid, inp.ctrl.memAddr, 0, 0))
            && (forall i :: 0 <= i < |all| && o.memGrants[i] ==> o.mem == all[i].mem.bus)
            && (!o.ctrlGrant && MemArbiter.NoneGranted(o.memGrants) ==> o.mem == MemIdle)
            && o.memInsn == o.ctrlGrant
            && (forall i :: 0 <= i < |all| ==> (o.memReadyTo[i] <==> o.memGrants[i] && inp.memReady))
            && (o.ctrlMemReady <==> o.ctrlGrant && inp.memReady)
  {
    var all := AllUnits(cfg, s, inp);
    MemArbiter.MergedBusSelects(MemRequests(all), s.memLocks, inp.ctrl.memValid, CtrlBus(inp.ctrl), MemBuses(all));
  }

  /** The lock registers take this cycle's grants, and reset clears them. */
  lemma LocksFollowGrants(cfg: Config, s: State, inp: Inputs)
    requires ValidConfig(cfg) && ValidState(cfg, s) && ValidInputs(cfg, inp)
    ensures var n := Next(cfg, s, inp);
            var o := Signals(cfg, s, inp);
            && (inp.reset ==> forall i :: 0 <= i < |n.memLocks| ==> !n.memLocks[i])
            && (!inp.reset ==> n.memLocks == o.memGrants)
            && (n.ctrlLock <==> !inp.reset && o.ctrlGrant)
            && AtMostOne(n.memLocks)
  {
    MemGrantExclusive(cfg, s, inp);
  }

  /**
    Hold under lock: a requester granted in one cycle (without reset) that
    still requests in the next cycle is granted again, whatever the others do.
   */
  lemma HoldUnderLock(cfg: Config, s: State, inp: Inputs, inp2: Inputs, i: nat)
    requires ValidConfig(cfg) && ValidState(cfg, s) && ValidInputs(cfg, inp) && ValidInputs(cfg, inp2)
    requires !inp.reset && i <= |cfg.units|
    requires Signals(cfg, s, inp).memGrants[i]
    requires AllUnits(cfg, Next(cfg, s, inp), inp2)[i].mem.reqst
    ensures Signals(cfg, Next(cfg, s, inp), inp2).memGrants[i]
  {
    var s2 := Next(cfg, s, inp);
    var req := MemRequests(AllUnits(cfg, s, inp));
    var req2 := MemRequests(AllUnits(cfg, s2, inp2));
    MemArbiter.HoldUnderLock(req, s.memLocks, req2, i);
  }

  /** A requester that stops requesting loses the grant, and its lock is clear after that cycle. */
  lemma LockDropsWhenIdle(cfg: Config, s: State, inp: Inputs, i: nat)
    requires ValidConfig(cfg) && ValidState(cfg, s) && ValidInputs(cfg, inp)
    requires i <= |cfg.units| && !AllUnits(cfg, s, inp)[i].mem.reqst
    ensures !Signals(cfg, s, inp).memGrants[i]
    ensures !Next(cfg, s, inp).memLocks[i]
  {
    MemArbiter.GrantImpliesRequest(MemRequests(AllUnits(cfg, s, inp)), s.memLocks, i);
  }

  /**
    The control unit's own lock is never consulted: it does not change any
    signal of the cycle, so a component's request takes the port from the
    control unit even in the middle of its transfer.
   */
  lemma CtrlLockUnused(cfg: Config, s: State, inp: Inputs, b: bool)
    requires ValidConfig(cfg) && ValidState(cfg, s) && ValidInputs(cfg, inp)
    ensures Signals(cfg, s.(ctrlLock := b), inp) == Signals(cfg, s, inp)
    ensures Next(cfg, s.(ctrlLock := b), inp) == Next(cfg, s, inp)
  {
  }

  lemma CtrlPreempted(cfg: Config, s: State, inp: Inputs, i: nat)
    requires ValidConfig(cfg) && ValidState(cfg, s) && ValidInputs(cfg, inp)
    requires s.ctrlLock && i <= |cfg.units| && AllUnits(cfg, s, inp)[i].mem.reqst
    ensures !Signals(cfg, s, inp).ctrlGrant
    ensures exists j :: 0 <= j <= |cfg.units| && Signals(cfg, s, inp).memGrants[j]
  {
    var req := MemRequests(AllUnits(cfg, s, inp));
    MemArbiter.ExactWinner(req, s.memLocks, inp.ctrl.memValid);
  }

  // ---------------------------------------------------------------------
  // The asynchronous write-back port

  /**
    At most one requester's write-back is granted, none while the external
    write-back is valid; the control unit receives the external write-back
    when valid, else the first valid requester's, else nothing; the external
    `awb_ready` and each requester's `awb_ready` follow the control unit's.
   */
  lemma AwbArbitration(cfg: Config, s: State, inp: Inputs)
    requires ValidConfig(cfg) && ValidState(cfg, s) && ValidInputs(cfg, inp)
    ensures var o := Signals(cfg, s, inp);
            var all := AllUnits(cfg, s, inp);
            && AtMostOne(o.awbGrants)
            && (inp.awb.valid ==> o.awbToCtrl == inp.awb && forall i :: 0 <= i < |all| ==> !o.awbGrants[i])
            && (!inp.awb.valid ==> match FirstTrue(AwbValids(all))
                                   case Some(k) => o.awbGrants[k] && o.awbToCtrl == all[k].awb
                                   case None => o.awbToCtrl == AwbIdle)
            && (o.awbReady <==> inp.awb.valid && inp.ctrl.awbReady)
            && (forall i :: 0 <= i < |all| ==> (o.awbReadyTo[i] <==> o.awbGrants[i] && inp.ctrl.awbReady))
  {
    var all := AllUnits(cfg, s, inp);
    var v := AwbValids(all);
    var b := AwbBuses(all);
    AwbArbiter.GrantsAreFirstValid(inp.awb.valid, v);
    AwbArbiter.ToCtrlForwards(inp.awb, b);
    assert v == seq(|b|, i requires 0 <= i < |b| => b[i].valid);
  }

  // ---------------------------------------------------------------------
  // The co-processor interface and the CSR bank

  /**
    The acceptance the counter snippet reads is the one the control unit
    receives: the combinational loop through `pcpi_ready_ctrl` is consistent.
   */
  lemma ReadyCtrlConsistent(cfg: Config, s: State, inp: Inputs)
    requires ValidConfig(cfg) && ValidState(cfg, s) && ValidInputs(cfg, inp)
    ensures Signals(cfg, s, inp).pcpiToCtrl.ready == ReadyCtrl(cfg, inp)
    ensures Signals(cfg, s, inp).csrs.ready == CsrsReady(cfg, inp)
  {
    ReadyIsAcknowledges(cfg.bank, cfg.csrsEnabled, DecodeInsn(inp), s.csrRegs, Env(cfg, inp));
    var r := Bank(cfg, s, inp);
    AggregateOfAll(inp.pcpi, CsrsUnit(r.ready, r.out, inp.ctrl.pcpiValid, inp.ctrl.wbValid), Tied(cfg, inp));
  }

  /** The control unit sees an acceptance iff the external input, the first requester or one of the rest accepts. */
  lemma AggregateOfAll(ext: PcpiResp, first: UnitOut, rest: seq<UnitOut>)
    ensures Aggregate(ext, PcpiResps([first] + rest)).ready <==> ext.ready || first.pcpi.ready || UnitReady(rest)
  {
    var all := [first] + rest;
    var ps := PcpiResps(all);
    AggregateReady(ext, ps);
    assert ps[0] == first.pcpi;
    if UnitReady(rest) {
      var i :| 0 <= i < |rest| && rest[i].pcpi.ready;
      assert ps[i + 1].ready;
    }
    if AnyReady(ps) && !ps[0].ready {
      var i :| 0 <= i < |ps| && ps[i].ready;
      assert rest[i - 1].pcpi.ready;
    }
  }

  /**
    A CSR instruction naming a declared CSR is accepted when the interface
    offers it and a write-back can be taken, and writes back the value of the
    first register with that address as it stood before this cycle's update (after the pre-update
    snippets); any other instruction gets a silent response.
   */
  lemma CsrAccess(cfg: Config, s: State, inp: Inputs)
    requires ValidConfig(cfg) && ValidState(cfg, s) && ValidInputs(cfg, inp)
    ensures var o := Signals(cfg, s, inp);
            var dec := DecodeInsn(inp);
            && (o.csrs.ready <==> Acknowledges(cfg.bank.defs, dec) && inp.ctrl.pcpiValid && inp.ctrl.wbValid)
            && (forall k: nat :: dec.valid && FirstWith(cfg.bank.defs, dec.addr, k)
                  ==> o.csrOut == ApplyStmts(cfg.bank.pre, Env(cfg, inp), s.csrRegs)[k])
            && (o.csrs.ready ==> o.csrs.wbWrite && o.csrs.wbData == o.csrOut)
            && (!o.csrs.ready ==> o.csrs == Silent)
            && (!Acknowledges(cfg.bank.defs, dec) ==> o.csrOut == 0)
  {
    var dec := DecodeInsn(inp);
    var env := Env(cfg, inp);
    ReadyIsAcknowledges(cfg.bank, cfg.csrsEnabled, dec, s.csrRegs, env);
    forall k: nat | dec.valid && FirstWith(cfg.bank.defs, dec.addr, k)
      ensures Signals(cfg, s, inp).csrOut == ApplyStmts(cfg.bank.pre, env, s.csrRegs)[k]
    {
      ReadBeforeModify(cfg.bank, cfg.csrsEnabled, dec, s.csrRegs, env, k);
    }
    if !Acknowledges(cfg.bank.defs, dec) {
      SilentOnMismatch(cfg.bank, cfg.csrsEnabled, dec, s.csrRegs, env);
    }
  }

  /** Without reset the CSR registers latch the bank's proposed values. */
  lemma CsrLatch(cfg: Config, s: State, inp: Inputs)
    requires ValidConfig(cfg) && ValidState(cfg, s) && ValidInputs(cfg, inp)
    requires !inp.reset
    ensures Next(cfg, s, inp).csrRegs
         == Evaluate(cfg.bank, cfg.csrsEnabled, DecodeInsn(inp), s.csrRegs, Env(cfg, inp)).proposed
  {
  }

  /** With `CSRS = 0` every CSR register holds its reset value after every cycle. */
  lemma CsrBypass(cfg: Config, s: State, inp: Inputs)
    requires ValidConfig(cfg) && ValidState(cfg, s) && ValidInputs(cfg, inp)
    requires !cfg.csrsEnabled
    ensures Next(cfg, s, inp).csrRegs == ResetValues(cfg.bank.defs)
  {
    Bypass(cfg.bank, inp.reset, DecodeInsn(inp), s.csrRegs, Env(cfg, inp));
  }

  /** Reset clears every lock and puts every CSR at its reset value. */
  lemma ResetState(cfg: Config, s: State, inp: Inputs)
    requires ValidConfig(cfg) && ValidState(cfg, s) && ValidInputs(cfg, inp)
    requires inp.reset
    ensures var n := Next(cfg, s, inp);
            && (forall i :: 0 <= i < |n.memLocks| ==> !n.memLocks[i])
            && !n.ctrlLock
            && n.csrRegs == ResetValues(cfg.bank.defs)
  {
  }

  // ---------------------------------------------------------------------
  // Runs of many cycles

  /** The states of a run: `trace[0]` is the start, `trace[k + 1]` the state after cycle `k`. */
  function Run(cfg: Config, s: State, ins: seq<Inputs>): (trace: seq<State>)
    requires ValidConfig(cfg) && ValidState(cfg, s)
    requires forall k :: 0 <= k < |ins| ==> ValidInputs(cfg, ins[k])
    ensures |trace| == |ins| + 1 && trace[0] == s
    ensures forall k :: 0 <= k < |trace| ==> ValidState(cfg, trace[k])
    ensures forall k :: 0 <= k < |ins| ==> trace[k + 1] == Next(cfg, trace[k], ins[k])
    decreases |ins|
  {
    if |ins| == 0 then [s]
    else [s] + Run(cfg, Next(cfg, s, ins[0]), ins[1..])
  }

  /** In every state a run reaches, at most one lock is set. */
  lemma LocksExclusiveAlong(cfg: Config, s: State, ins: seq<Inputs>)
    requires ValidConfig(cfg) && ValidState(cfg, s)
    requires forall k :: 0 <= k < |ins| ==> ValidInputs(cfg, ins[k])
    ensures var trace := Run(cfg, s, ins);
            forall k :: 1 <= k < |trace| ==> AtMostOne(trace[k].memLocks)
  {
    var trace := Run(cfg, s, ins);
    forall k | 1 <= k < |trace|
      ensures AtMostOne(trace[k].memLocks)
    {
      LocksFollowGrants(cfg, trace[k - 1], ins[k - 1]);
    }
  }

  /** With `CSRS = 0`, after the first cycle every CSR holds its reset value, whatever the traffic. */
  lemma BypassAlong(cfg: Config, s: State, ins: seq<Inputs>)
    requires ValidConfig(cfg) && ValidState(cfg, s) && !cfg.csrsEnabled
    requires forall k :: 0 <= k < |ins| ==> ValidInputs(cfg, ins[k])
    ensures var trace := Run(cfg, s, ins);
            forall k :: 1 <= k < |trace| ==> trace[k].csrRegs == ResetValues(cfg.bank.defs)
  {
    var trace := Run(cfg, s, ins);
    forall k | 1 <= k < |trace|
      ensures trace[k].csrRegs == ResetValues(cfg.bank.defs)
    {
      CsrBypass(cfg, trace[k - 1], ins[k - 1]);
    }
  }

  /**
    With `CSRS = 0`, once a cycle has passed a CSR instruction that is
    accepted reads out the reset value of the first register with its address.
   */
  lemma BypassReadOut(cfg: Config, s: State, inp: Inputs, inp2: Inputs, k: nat)
    requires ValidConfig(cfg) && ValidState(cfg, s) && ValidInputs(cfg, inp) && ValidInputs(cfg, inp2)
    requires !cfg.csrsEnabled && |cfg.bank.pre| == 0
    requires DecodeInsn(inp2).valid && FirstWith(cfg.bank.defs, DecodeInsn(inp2).addr, k)
    ensures Signals(cfg, Next(cfg, s, inp), inp2).csrOut == cfg.bank.defs[k].rstval
  {
    var s2 := Next(cfg, s, inp);
    CsrBypass(cfg, s, inp);
    CsrAccess(cfg, s2, inp2);
  }

}
