# PicoRV core composition: a Dafny model

`picorv_core.py` generates the top-level Verilog module of the PicoRV
processor. The module composes a control unit with a list of pluggable
components and a bank of control and status registers (CSRs). This project
models the meaning of the generated hardware rather than its text, as one
clock cycle of a synchronous circuit:

- **Memory-port arbiter** (`MemArbiter`). The requesters, in order, are the
  CSR bank's pseudo-component `csrs`, then the configured components. Each
  requester has a lock bit holding its grant from the previous cycle. A
  requester is granted when nobody before it is granted, it requests, and no
  later requester both requests and holds its lock. The control unit comes
  last and is granted only when no component is. The memory port carries
  the OR of every requester's fields gated by its grant.
- **Asynchronous write-back arbiter** (`AwbArbiter`). Strict priority in the
  same order, with no locks. The core's external `awb_valid` input pre-empts
  every component.
- **CSR decode** (`CsrDecode`). This recognises Zicsr instructions as laid
  out in the Zicsr chapter of the RISC-V Unprivileged ISA.
- **CSR bank** (`CsrBank`, `WideCounter`). It evaluates once per cycle:
  1. it copies the stored registers;
  2. it runs the pre-update snippets;
  3. a first-match case on the decoded address acknowledges the
     instruction, reads out the current value and applies the instruction's
     masks; when no instruction decodes, each register applies its own masks
     instead;
  4. it runs the post-update snippets;
  5. when `CSRS` is 0, it forces every value back to reset.

  Registers then latch `reset ? reset value : proposed value`. Snippets are
  modelled as a small statement language: `{hi, lo} = {hi, lo} + inc`, where
  `inc` is 1 or `pcpi_valid && pcpi_ready_ctrl`. This is the form the
  configured 64-bit `mcycle` and `minstret` counters use.
- **Components** (`Components`). A group (`mem`, `br`, `awb`) that a
  component does not declare is tied to zero. The CSR bank answers on the
  co-processor interface like a component. The control unit sees the OR of
  the external co-processor inputs and every component's answer.
- **One cycle and runs** (`Core`). `Signals` computes a cycle's
  combinational outputs and `Next` the registers' next values from all of
  the above; `Run` iterates `Next` over a sequence of inputs. `PicoRV` instantiates the
  configuration in the generator: `exec` (branch), `ldst` (memory and
  asynchronous write-back), and the counter bank.

The control unit and the configured components are separate Verilog modules
whose source is not part of this model. What they drive in a cycle is an
input of the cycle (`Inputs.ctrl`, `Inputs.units`).

Four details of the generated code are easy to misread; the model follows
the code:

- A CSR instruction also needs `pcpi_valid`, and either `pcpi_rs1_valid` or
  the immediate form (`insn[14]`). A zero immediate is not excluded.
- The registers' own clear/set masks apply only in cycles where no CSR
  instruction decodes. They do not apply to non-matching registers in a
  decoding cycle.
- What pre-empts the write-back arbiter is the core's external `awb_valid`
  input, not a write-back of the control unit.
- The control unit's lock register is written but never read. A component's
  request therefore takes the memory port from the control unit even in the
  middle of the control unit's transfer (`Core.CtrlLockUnused`,
  `Core.CtrlPreempted`).

## Model

| member | source | states |
|---|---|---|
| MemArbiter.GrantsFrom | source/picorv_core.py:296-305 | the generator's loop from requester `i` on: one grant per remaining requester, each the conjunction of no earlier grant, its request and no later locked requester (MemArbiter.GrantRule) |
| MemArbiter.Grants | source/picorv_core.py:296-305 | `arb_mem_<r>` for every requester, one per requester; which one is granted is stated by MemArbiter.GrantsAreWinner |
| MemArbiter.CtrlGrant | source/picorv_core.py:307 | `arb_mem_ctrl`: the control unit's `mem_valid` when no requester is granted; MemArbiter.ExactWinner shows it holds iff no requester requests |
| MemArbiter.NextLocks | source/picorv_core.py:303 | `arb_mem_<r>_reg` as the next-state function of the locks; what the locks then mean is stated by Core.LocksFollowGrants (the locks take `Signals`' grants, reset clears them, at most one is set) and MemArbiter.HoldUnderLock (a winner that still requests wins again) |
| MemArbiter.MergedBus | source/picorv_core.py:317-318 | `mem_valid`, `mem_addr`, `mem_wdata`, `mem_wstrb` as the OR of every driver's fields gated by its grant; MemArbiter.MergedBusSelects states what it carries |
| MemArbiter.GrantsAreWinner | source/picorv_core.py:296-305 | the chain of generated grants grants exactly the reference winner: the highest-positioned requester whose lock is set, else the first requester |
| MemArbiter.GrantRule | source/picorv_core.py:299-300 | each requester's grant is: no earlier grant, it requests, and no later requester both requests and holds its lock |
| MemArbiter.MutualExclusion | source/picorv_core.py:298-307 | at most one requester is granted, and the control unit only when no requester is |
| MemArbiter.GrantImpliesRequest | source/picorv_core.py:299-300 | a grant is only ever given to a requester that requests |
| MemArbiter.ExactWinner | source/picorv_core.py:298-307 | when any requester asks, exactly one is granted: the highest locked requester, or the first if none is locked; the control unit is granted iff it asks and no requester does |
| MemArbiter.PriorityTieBreak | source/picorv_core.py:299-300 | when no requester holds its lock (a lock left by a unit that stopped requesting is allowed), requester i is granted iff it requests and no earlier one does |
| MemArbiter.SoleRequester | source/picorv_core.py:299-300 | a requester without competitors is granted iff it requests, and nobody else is |
| MemArbiter.HoldUnderLock | source/picorv_core.py:299-303 | when the locks are the previous grants, a granted requester that still requests is granted again, whatever the others request |
| MemArbiter.MergedBusSelects | source/picorv_core.py:317-318 | the merged memory port carries the control unit's fields when it is granted, the granted requester's fields, or zeros |
| Bus.MergeOfExclusive | source/picorv_core.py:317-318 | an OR of fields gated by at most one grant is the granted driver's value, or zero when nobody is granted |
| AwbArbiter.GrantsFrom | source/picorv_core.py:311-313 | the generator's loop from unit `i` on, one grant per remaining unit; AwbArbiter.GrantsFromIsFirstValid states that it grants exactly the first valid unit while the external write-back is idle |
| AwbArbiter.Grants | source/picorv_core.py:311-313 | `arb_awb_<r>` for every unit, one per unit; AwbArbiter.GrantsAreFirstValid states which one |
| AwbArbiter.ToCtrl | source/picorv_core.py:321-322 | `awb_*_ctrl`: the external write-back when valid, else the OR of the units' fields gated by their grants; AwbArbiter.ToCtrlForwards states what arrives |
| AwbArbiter.GrantsAreFirstValid | source/picorv_core.py:311-315 | a requester's write-back is granted iff the external write-back is idle and it is the first valid requester; at most one is granted |
| AwbArbiter.ToCtrlForwards | source/picorv_core.py:321-322 | the control unit receives the external write-back when it is valid, else the first valid requester's fields, else zeros |
| CsrDecode.Decode | source/picorv_core.py:122-123 | `csrinsn_valid` and `csrinsn_addr` from the offered word; CsrDecode.DecodeOfEncode and CsrDecode.NotCsrNotDecoded state which instructions it recognises |
| CsrDecode.DecodeOfEncode | source/picorv_core.py:122-123 | an encoded SYSTEM instruction is recognised iff it is offered, its operation bits are not 00 and its operand is available; the address is its CSR field |
| CsrDecode.NotCsrNotDecoded | source/picorv_core.py:122 | words with another opcode, or with operation bits 00, are never recognised |
| CsrDecode.FieldsOfEncode | source/picorv_core.py:123 | decoding the fields of an encoded instruction gives back every field, including the 12-bit CSR address |
| CsrDecode.EncodeOfFields | source/picorv_core.py:123 | every SYSTEM-opcode word is the encoding of its own fields |
| CsrBank.Dispatch | source/picorv_core.py:159-171 | the case statement on the decoded address, or every register's own masks when nothing decodes; CsrBank.DispatchReadsOnly states its effect |
| CsrBank.Evaluate | source/picorv_core.py:149-179 | the whole always-block, one proposed value per register; CsrBank.ReadBeforeModify (read-out before the case assignment), CsrBank.SilentOnMismatch (no decode or no match is silent) and CsrBank.Bypass (`CSRS = 0` forces the reset values) state what it computes |
| CsrBank.Latch | source/picorv_core.py:139 | `csr_<n>_reg <= reset ? rstval : csr_<n>`; CsrBank.Bypass and Core.CsrLatch state its use |
| CsrBank.FirstMatch | source/picorv_core.py:160-163 | the case statement selects the first definition with the decoded address, or none when no definition has it |
| CsrBank.DispatchReadsOnly | source/picorv_core.py:159-169 | with the masks wired to zero the dispatch changes no value, acknowledges exactly a decoded instruction with a declared address, and reads out the first register with that address, or zero |
| CsrBank.ReadBeforeModify | source/picorv_core.py:149-171 | an acknowledged instruction reads out the selected register (the first with the decoded address) as it stood before the case statement, after the pre-update snippets |
| CsrBank.SilentOnMismatch | source/picorv_core.py:150-165 | without a decoded instruction naming a declared CSR, the bank neither acknowledges nor reads out anything |
| CsrBank.ReadyIsAcknowledges | source/picorv_core.py:159-163 | whether the bank acknowledges depends only on the decoded instruction and the declared addresses |
| CsrBank.Bypass | source/picorv_core.py:176-179 | with the bank disabled, the latched registers are the reset values whatever the traffic and the reset input |
| CsrBank.CountersWellFormed | source/picorv_core.py:21-29 | the configured bank's addresses are distinct and its snippet names distinct declared registers |
| CsrBank.CountersEvaluate | source/picorv_core.py:149-174 | in the configured bank the next values are exactly the two counter statements applied to the stored values, whatever instruction is in flight |
| CsrBank.CountersAdvance | source/picorv_core.py:26-29 | mcycle advances by one and minstret by the retire flag, each carrying into its upper half, whatever instruction is in flight |
| WideCounter.CarryIsWideAdd | source/picorv_core.py:27-28 | low half plus increment and high half plus carry is the 64-bit addition `{hi, lo} + inc`, including the wrap from all ones |
| Components.TieOff | source/picorv_core.py:261-276 | undeclared groups are driven with zeros, declared groups and the ready/write-back signals pass through |
| Components.TieOffOfInert | source/picorv_core.py:261-276 | tie-off leaves an output that is already inert unchanged, so applying it twice is the same as once |
| Components.FullComponentUnchanged | source/picorv_core.py:261-276 | a component declaring every group is connected unchanged |
| Components.CsrsResponse | source/picorv_core.py:183-185 | the bank's `pcpi_*_csrs` response; Core.CsrAccess states what the control unit receives from it: a matched CSR instruction is accepted under these conditions and writes back the first match's value, anything else is silent |
| Components.CsrsUnit | source/picorv_core.py:102-120 | the bank's pseudo-component drives no memory request, branch or asynchronous write-back |
| Components.CsrsUnitIsTiedOff | source/picorv_core.py:102-120 | the bank's pseudo-component behaves as a component that declares no group |
| Components.Aggregate | source/picorv_core.py:356-360 | the co-processor signals the control unit sees: the external inputs ORed with every component's; Components.AggregateReady and Components.AggregateExclusive state what arrives |
| Components.AggregateReady | source/picorv_core.py:325 | the control unit sees an acceptance iff the external input or some component accepts |
| Components.AggregateExclusive | source/picorv_core.py:356-360 | when all but one party are silent, the control unit receives exactly that party's response |
| Core.Signals | source/picorv_core.py:293-325 | every combinational signal of a cycle, one grant and one ready per requester; the Core lemmas below state their properties |
| Core.Next | source/picorv_core.py:303-309 | the registers after a cycle: the locks, the control unit's lock and the latched CSRs (line 139), always of the configured sizes |
| Core.ReadyCtrl | source/picorv_core.py:325 | `pcpi_ready_ctrl` as the counter snippet reads it; Core.ReadyCtrlConsistent shows it is what the control unit receives |
| Core.MemGrantExclusive | source/picorv_core.py:298-307 | in every cycle at most one requester holds the memory port, and the control unit only when none does |
| Core.NoMemNeverGranted | source/picorv_core.py:261-262 | the CSR bank and any component declared without `mem` are never granted the memory port and never see its ready |
| Core.CtrlGrantedWhenAlone | source/picorv_core.py:307 | the control unit is granted iff it asks and no component requests |
| Core.SoleMemUnit | source/picorv_core.py:299-307 | with a single memory-capable component, it is granted iff it requests, and the control unit iff it asks and that component does not |
| Core.MergedMemPort | source/picorv_core.py:301-319 | the memory port carries the granted requester's fields or zeros, `mem_insn` is the control unit's grant, and each `mem_ready` is grant and memory ready |
| Core.LocksFollowGrants | source/picorv_core.py:303-309 | the lock registers take this cycle's grants, reset clears them, and at most one is set afterwards |
| Core.HoldUnderLock | source/picorv_core.py:299-303 | a requester granted in one cycle without reset that still requests in the next cycle is granted again |
| Core.LockDropsWhenIdle | source/picorv_core.py:299-303 | a requester that stops requesting loses the grant and its lock is clear afterwards |
| Core.CtrlLockUnused | source/picorv_core.py:307-309 | the control unit's lock register changes no signal of the cycle |
| Core.CtrlPreempted | source/picorv_core.py:299-309 | even when the control unit held the port last cycle, a component's request takes it |
| Core.AwbArbitration | source/picorv_core.py:311-323 | at most one write-back is granted; the external one pre-empts all; otherwise the first valid requester's is forwarded; the ready signals follow the control unit's |
| Core.ReadyCtrlConsistent | source/picorv_core.py:325 | the `pcpi_ready_ctrl` the counter snippet reads is the acceptance the control unit receives |
| Core.AggregateOfAll | source/picorv_core.py:325 | the control unit sees an acceptance iff the external input, the CSR bank or some configured component accepts |
| Core.CsrAccess | source/picorv_core.py:149-185 | a CSR instruction naming a declared CSR is accepted under the interface conditions and writes back the value, from before the update, of the first register with that address; any other instruction gets silence |
| Core.CsrLatch | source/picorv_core.py:139 | without reset the CSR registers latch the bank's proposed values |
| Core.CsrBypass | source/picorv_core.py:176-179 | with `CSRS = 0` every CSR register holds its reset value after every cycle |
| Core.ResetState | source/picorv_core.py:139 | a reset cycle clears every lock and puts every CSR at its reset value |
| Core.Run | source/picorv_core.py:303 | each state of a run is the previous state stepped by that cycle's inputs |
| Core.LocksExclusiveAlong | source/picorv_core.py:303 | in every state a run reaches, at most one lock bit is set |
| Core.BypassAlong | source/picorv_core.py:176-179 | with `CSRS = 0`, every state after the first cycle of a run holds the reset values |
| Core.BypassReadOut | source/picorv_core.py:163-179 | with `CSRS = 0` and no pre-update snippet, after one cycle an instruction naming a CSR reads out the reset value of the first register with that address |
| PicoRV.Configured | source/picorv_core.py:31-33 | the configured core is well formed: the counter bank and the components `exec` and `ldst` |
| PicoRV.ConfiguredMemPort | source/picorv_core.py:31-33 | in the configured core only `ldst` and the control unit ever hold the memory port; `ldst` wins whenever it requests |
| PicoRV.CounterRegs | source/picorv_core.py:26-29 | with the counter bank enabled and no reset, each counter half latches the low-half sum or the high half plus carry, whatever instruction is on offer |
| PicoRV.McycleStep | source/picorv_core.py:27 | with `CSRS = 1` and no reset, `{mcycleh, mcycle}` advances by one per cycle, modulo 2^64 |
| PicoRV.MinstretStep | source/picorv_core.py:28 | with `CSRS = 1` and no reset, `{minstreth, minstret}` advances by one iff `pcpi_valid && pcpi_ready_ctrl`, modulo 2^64 |
| PicoRV.PairAdvance | source/picorv_core.py:27-28 | a register pair updated by the counter statement advances as one 64-bit value |
| PicoRV.McycleInRun | source/picorv_core.py:27 | each cycle of a run without reset advances `{mcycleh, mcycle}` by one |
| PicoRV.McycleAlong | source/picorv_core.py:27 | along a run without reset, after k cycles `{mcycleh, mcycle}` has been incremented k times |
| PicoRV.MinstretInRun | source/picorv_core.py:28 | each cycle of a run without reset advances `{minstreth, minstret}` by that cycle's retire flag |
| PicoRV.MinstretAlong | source/picorv_core.py:28 | along a run without reset, `{minstreth, minstret}` has been incremented once per retiring cycle |

## Left out

- Text emission: the `print` calls, Verilog syntax and signal names are not modelled. The model states what the printed circuit computes.
- The control unit, `picorv_exec` and `picorv_ldst` are separate modules whose source is not part of this model. Their outputs are inputs of each cycle.
- Snippets are arbitrary Verilog text. Only the statement form the configured counters use is modelled: a 64-bit add of 1 or of the retire flag over a register pair.
- CSR operation semantics (write, set, clear) are not implemented by the code. Every mask is wired to zero and `csrinsn_op` and `csrinsn_data` are unused, so the model keeps the masks as constants 0 and leaves out the operand.
- A reset value is a Verilog expression in the code. The model takes it as a 32-bit constant.
- The code never checks that CSR addresses are unique. The model does not need it: with a duplicate address the case statement selects the first definition, and the read-out lemmas are stated for that first definition (`CsrBank.FirstWith`).
- Names are not modelled, and the model assumes the printed module elaborates. The code does not check names either. Two components with the same instance name, a component named `csrs` or `ctrl`, or two CSRs with the same name make the printed module declare the same wire or register twice (source/picorv_core.py:102, 135, 194-212, 282, 293), so it does not elaborate. `Core.ValidConfig` does not exclude such a configuration, because no modelled signal depends on a name.
- The `params`, `ports` and `csrs` arguments of `add_component` are forwarded unchanged or unused, and are not modelled.
- Pass-through wires are not modelled: `rvec`, `mem_rdata`, the decode outputs, the PC, `pcpi_prefix`, and the rs2/rs3 operands.
- The code leaves `XLEN` as a parameter but hard-codes some 32-bit widths. The model fixes `XLEN = 32`.
- Components.AggregateExclusive: that at most one party answers is a precondition. The code does not enforce it, and without it the control unit sees the OR of the answers (Components.AggregateReady still holds).
- PicoRV.McycleAlong: states the 64-bit value after k cycles as k successive wrapping increments, not as one addition of k. Each increment is shown to be the 64-bit `+ 1` by PicoRV.McycleStep.
- PicoRV.MinstretAlong: states the value as successive wrapping increments by each cycle's retire flag, not as one sum.
- The combinational path through `pcpi_ready_ctrl` is resolved by computing it from the inputs before evaluating the bank. This is sound because the bank's acceptance depends only on the decoded address; Core.ReadyCtrlConsistent shows the two views agree.
