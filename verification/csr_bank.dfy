/**
  The CSR bank: one register per CSR definition and a combinational
  next-value network evaluated once per cycle in this order:
    1. every proposed value starts as the register's stored value;
    2. the pre-update snippets run;
    3. a decoded CSR instruction selects the first definition with its
       address, which acknowledges, reads out the value as it stands now and
       applies the instruction's masks; when no instruction decodes, every
       register applies its own masks instead;
    4. the post-update snippets run;
    5. when the bank is disabled, every proposed value is forced to reset.
  Each register then latches `reset ? reset value : proposed value`.
 */
module CsrBank {
  import opened Options
  import opened CsrDecode
  import opened WideCounter

  datatype CsrDef = CsrDef(name: string, addr: bv12, rstval: bv32)

  /** What a counter snippet adds in a cycle. */
  datatype Increment =
    | ByOne      // every cycle
    | ByRetired  // `pcpi_valid && pcpi_ready_ctrl`

  /**
    A snippet statement `{v[hi], v[lo]} = {v[hi], v[lo]} + inc`: a counter of
    twice the register width split across two registers, wrapping around.
   */
  datatype Stmt = AddWide(hi: nat, lo: nat, inc: Increment)

  datatype BankConfig = BankConfig(defs: seq<CsrDef>, pre: seq<Stmt>, post: seq<Stmt>)

  /** The core signals a snippet may read. */
  datatype SnippetEnv = SnippetEnv(pcpiValid: bool, pcpiReadyCtrl: bool)

  /** The outcome of one evaluation of the bank. */
  datatype BankResult = BankResult(proposed: seq<bv32>, ready: bool, out: bv32)

  /** The instruction's clear and set masks, and each register's own: all wired to zero. */
  const InsnClr: bv32 := 0
  const InsnSet: bv32 := 0
  const RegClr: bv32 := 0
  const RegSet: bv32 := 0

  function Masked(x: bv32, clr: bv32, setMask: bv32): bv32 { (x & !clr) | setMask }

  predicate UniqueAddrs(defs: seq<CsrDef>)
  {
    forall i, j :: 0 <= i < j < |defs| ==> defs[i].addr != defs[j].addr
  }

  predicate StmtFits(s: Stmt, n: nat)
  {
    s.hi < n && s.lo < n && s.hi != s.lo
  }

  /** Every snippet names registers the bank declares. */
  predicate WellFormed(cfg: BankConfig)
  {
    && (forall k :: 0 <= k < |cfg.pre| ==> StmtFits(cfg.pre[k], |cfg.defs|))
    && (forall k :: 0 <= k < |cfg.post| ==> StmtFits(cfg.post[k], |cfg.defs|))
  }

  function ResetValues(defs: seq<CsrDef>): (v: seq<bv32>)
    ensures |v| == |defs|
    ensures forall i :: 0 <= i < |defs| ==> v[i] == defs[i].rstval
  {
    seq(|defs|, i requires 0 <= i < |defs| => defs[i].rstval)
  }

  /** The case statement's selection: the first definition with the address. */
  function FirstMatch(defs: seq<CsrDef>, addr: bv12): (k: Option<nat>)
    ensures k.Some? ==> k.value < |defs| && defs[k.value].addr == addr
                        && forall j :: 0 <= j < k.value ==> defs[j].addr != addr
    ensures k.None? ==> forall j :: 0 <= j < |defs| ==> defs[j].addr != addr
    decreases |defs|
  {
    if |defs| == 0 then None
    else if defs[0].addr == addr then Some(0)
    else match FirstMatch(defs[1..], addr)
      case Some(k) => Some(k + 1)
      case None => None
  }

  /** Definition `k` is the first one with address `addr`: the one the case statement selects. */
  predicate FirstWith(defs: seq<CsrDef>, addr: bv12, k: nat)
  {
    k < |defs| && defs[k].addr == addr && forall j :: 0 <= j < k ==> defs[j].addr != addr
  }

  /** `csrinsn_ready`: a CSR instruction decodes and some definition has its address. */
  predicate Acknowledges(defs: seq<CsrDef>, dec: Decoded)
  {
    dec.valid && exists k :: 0 <= k < |defs| && defs[k].addr == dec.addr
  }

  // ---------------------------------------------------------------------
  // Wide counters

  function Amount(inc: Increment, env: SnippetEnv): (d: bv32)
    ensures d <= 1
  {
    match inc
    case ByOne => 1
    case ByRetired => Retired(env)
  }

  /** The instructions retired this cycle: 1 when `pcpi_valid && pcpi_ready_ctrl`. */
  function Retired(env: SnippetEnv): bv32
  {
    if env.pcpiValid && env.pcpiReadyCtrl then 1 else 0
  }

  /** `{hi, lo} = {hi, lo} + d` on the register vector; nothing else moves. */
  function AddPair(hi: nat, lo: nat, d: bv32, v: seq<bv32>): (w: seq<bv32>)
    requires hi < |v| && lo < |v| && hi != lo
    ensures |w| == |v|
    ensures w[lo] == AddLow(v[lo], d) && w[hi] == AddHigh(v[hi], v[lo], d)
    ensures forall i :: 0 <= i < |v| && i != hi && i != lo ==> w[i] == v[i]
  {
    v[hi := AddHigh(v[hi], v[lo], d)][lo := AddLow(v[lo], d)]
  }

  /** One snippet statement. */
  function ApplyStmt(s: Stmt, env: SnippetEnv, v: seq<bv32>): (w: seq<bv32>)
    requires StmtFits(s, |v|)
    ensures |w| == |v|
  {
    AddPair(s.hi, s.lo, Amount(s.inc, env), v)
  }

  /** The snippets in order. */
  function ApplyStmts(ss: seq<Stmt>, env: SnippetEnv, v: seq<bv32>): (w: seq<bv32>)
    requires forall k :: 0 <= k < |ss| ==> StmtFits(ss[k], |v|)
    ensures |w| == |v|
    decreases |ss|
  {
    if |ss| == 0 then v else ApplyStmts(ss[1..], env, ApplyStmt(ss[0], env, v))
  }

  // ---------------------------------------------------------------------
  // The per-cycle evaluation

  /** Step 3: the case statement on the decoded address, or each register's own masks. */
  function Dispatch(defs: seq<CsrDef>, dec: Decoded, v: seq<bv32>): (r: BankResult)
    requires |v| == |defs|
  {
    if dec.valid then
      match FirstMatch(defs, dec.addr)
      case Some(k) => BankResult(v[k := Masked(v[k], InsnClr, InsnSet)], true, v[k])
      case None => BankResult(v, false, 0)
    else
      BankResult(seq(|v|, i requires 0 <= i < |v| => Masked(v[i], RegClr, RegSet)), false, 0)
  }

  /** The whole always-block of one cycle. */
  function Evaluate(cfg: BankConfig, enabled: bool, dec: Decoded, regs: seq<bv32>, env: SnippetEnv): (r: BankResult)
    requires WellFormed(cfg) && |regs| == |cfg.defs|
    ensures |r.proposed| == |regs|
  {
    var v1 := ApplyStmts(cfg.pre, env, regs);
    var d := Dispatch(cfg.defs, dec, v1);
    var v2 := ApplyStmts(cfg.post, env, d.proposed);
    BankResult(if enabled then v2 else ResetValues(cfg.defs), d.ready, d.out)
  }

  /** `csr_<n>_reg <= reset ? rstval : csr_<n>`. */
  function Latch(reset: bool, defs: seq<CsrDef>, proposed: seq<bv32>): seq<bv32>
  {
    if reset then ResetValues(defs) else proposed
  }

  // ---------------------------------------------------------------------
  // Properties

  /**
    With every mask wired to zero the dispatch never changes a value; it
    acknowledges exactly the instructions with a declared address and then
    reads out the selected register, and is otherwise silent.
   */
  lemma DispatchReadsOnly(defs: seq<CsrDef>, dec: Decoded, v: seq<bv32>)
    requires |v| == |defs|
    ensures Dispatch(defs, dec, v).proposed == v
    ensures Dispatch(defs, dec, v).ready <==> Acknowledges(defs, dec)
    ensures !Acknowledges(defs, dec) ==> Dispatch(defs, dec, v).out == 0
    ensures forall k: nat :: dec.valid && FirstWith(defs, dec.addr, k) ==> Dispatch(defs, dec, v).out == v[k]
  {
    var r := Dispatch(defs, dec, v);
    if dec.valid {
      match FirstMatch(defs, dec.addr)
      case Some(k) =>
        assert r.proposed == v[k := v[k]];
      case None =>
    } else {
      assert r.proposed == v;
    }
  }

  /**
    Read before modify: an acknowledged instruction reads out the selected
    register (the first definition with the decoded address) as it stood
    before the case statement, after the pre-update snippets, while the
    stored value may change in the same cycle.
   */
  lemma ReadBeforeModify(cfg: BankConfig, enabled: bool, dec: Decoded, regs: seq<bv32>, env: SnippetEnv, k: nat)
    requires WellFormed(cfg) && |regs| == |cfg.defs|
    requires dec.valid && FirstWith(cfg.defs, dec.addr, k)
    ensures Evaluate(cfg, enabled, dec, regs, env).ready
    ensures Evaluate(cfg, enabled, dec, regs, env).out == ApplyStmts(cfg.pre, env, regs)[k]
  {
    DispatchReadsOnly(cfg.defs, dec, ApplyStmts(cfg.pre, env, regs));
  }

  /** An instruction that does not decode, or names no declared CSR, gets no acknowledgement and reads zero. */
  lemma SilentOnMismatch(cfg: BankConfig, enabled: bool, dec: Decoded, regs: seq<bv32>, env: SnippetEnv)
    requires WellFormed(cfg) && |regs| == |cfg.defs|
    requires !Acknowledges(cfg.defs, dec)
    ensures !Evaluate(cfg, enabled, dec, regs, env).ready
    ensures Evaluate(cfg, enabled, dec, regs, env).out == 0
  {
    DispatchReadsOnly(cfg.defs, dec, ApplyStmts(cfg.pre, env, regs));
  }

  /** Whether the bank acknowledges depends only on the decoded instruction and the addresses. */
  lemma ReadyIsAcknowledges(cfg: BankConfig, enabled: bool, dec: Decoded, regs: seq<bv32>, env: SnippetEnv)
    requires WellFormed(cfg) && |regs| == |cfg.defs|
    ensures Evaluate(cfg, enabled, dec, regs, env).ready <==> Acknowledges(cfg.defs, dec)
  {
    DispatchReadsOnly(cfg.defs, dec, ApplyStmts(cfg.pre, env, regs));
  }

  /** A disabled bank stores the reset values after every cycle, whatever the traffic. */
  lemma Bypass(cfg: BankConfig, reset: bool, dec: Decoded, regs: seq<bv32>, env: SnippetEnv)
    requires WellFormed(cfg) && |regs| == |cfg.defs|
    ensures Latch(reset, cfg.defs, Evaluate(cfg, false, dec, regs, env).proposed) == ResetValues(cfg.defs)
  {
  }

  // ---------------------------------------------------------------------
  // The configured bank: the machine counters

  const McycleIx: nat := 0
  const MinstretIx: nat := 1
  const McyclehIx: nat := 2
  const MinstrethIx: nat := 3

  /** mcycle, minstret and their upper halves at their RISC-V Privileged Architecture addresses. */
  const CounterDefs: seq<CsrDef> := [
    CsrDef("mcycle", 0xb00, 0),
    CsrDef("minstret", 0xb02, 0),
    CsrDef("mcycleh", 0xb80, 0),
    CsrDef("minstreth", 0xb82, 0)
  ]

  /** No pre-update snippet; the post-update snippet advances the two 64-bit counters. */
  const Counters := BankConfig(CounterDefs, [],
    [AddWide(McyclehIx, McycleIx, ByOne), AddWide(MinstrethIx, MinstretIx, ByRetired)])

  lemma CountersWellFormed()
    ensures WellFormed(Counters) && UniqueAddrs(Counters.defs)
  {
  }

  /** With no masks and no pre-snippet, the configured bank's next value is the post-snippet's. */
  lemma CountersEvaluate(dec: Decoded, regs: seq<bv32>, env: SnippetEnv)
    requires |regs| == |CounterDefs|
    ensures Evaluate(Counters, true, dec, regs, env).proposed
         == AddPair(MinstrethIx, MinstretIx, Retired(env), AddPair(McyclehIx, McycleIx, 1, regs))
  {
    CountersWellFormed();
    var cfg := Counters;
    assert ApplyStmts(cfg.pre, env, regs) == regs;
    DispatchReadsOnly(cfg.defs, dec, regs);
    ApplyTwo(cfg.post, env, regs);
  }

  /**
    In the configured, enabled bank, {mcycleh, mcycle} advances by one and
    {minstreth, minstret} by one exactly when an instruction retires, each as
    a 64-bit counter (see CarryIsWideAdd), whatever CSR instruction is in flight.
   */
  lemma CountersAdvance(dec: Decoded, regs: seq<bv32>, env: SnippetEnv)
    requires |regs| == |CounterDefs|
    ensures var p := Evaluate(Counters, true, dec, regs, env).proposed;
            && p[McycleIx] == AddLow(regs[McycleIx], 1)
            && p[McyclehIx] == AddHigh(regs[McyclehIx], regs[McycleIx], 1)
            && p[MinstretIx] == AddLow(regs[MinstretIx], Retired(env))
            && p[MinstrethIx] == AddHigh(regs[MinstrethIx], regs[MinstretIx], Retired(env))
  {
    CountersEvaluate(dec, regs, env);
  }

  /** Two snippet statements run one after the other. */
  lemma ApplyTwo(ss: seq<Stmt>, env: SnippetEnv, v: seq<bv32>)
    requires |ss| == 2 && StmtFits(ss[0], |v|) && StmtFits(ss[1], |v|)
    ensures ApplyStmts(ss, env, v) == ApplyStmt(ss[1], env, ApplyStmt(ss[0], env, v))
  {
    var v1 := ApplyStmt(ss[0], env, v);
    assert ApplyStmts(ss[1..], env, v1) == ApplyStmts(ss[1..][1..], env, ApplyStmt(ss[1], env, v1));
  }

}
