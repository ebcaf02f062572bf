/**
  The components attached to the core and what they drive.

  Every component owns three optional signal groups: a memory requester
  (`mem`), a branch request (`br`) and an asynchronous write-back port
  together with its `pcpi_wb_async` flag (`awb`). A group the component does
  not declare is driven with zeros. Every component answers on the
  co-processor interface; the control unit sees the OR of the external
  co-processor inputs and every component's answer.
 */
module Components {
  import opened Bus

  /** A configured component: its instance name and the groups it declares. */
  datatype Component = Component(name: string, mem: bool, awb: bool, br: bool)

  /** A component's memory request flag and the bus fields it drives. */
  datatype MemReq = MemReq(reqst: bool, bus: MemFields)

  const NoMemReq := MemReq(false, MemIdle)

  /** Everything a component drives towards the core in one cycle. */
  datatype UnitOut = UnitOut(mem: MemReq, pcpi: PcpiResp, awb: AwbFields)

  /** `o` drives nothing in the groups `c` does not declare. */
  predicate Inert(c: Component, o: UnitOut)
  {
    && (!c.mem ==> o.mem == NoMemReq)
    && (!c.br ==> !o.pcpi.brEnable && o.pcpi.brNextPc == 0)
    && (!c.awb ==> o.awb == AwbIdle && !o.pcpi.wbAsync)
  }

  /**
    What the core receives from component `c` whose module drives `raw`:
    the declared groups pass through, the others are tied to zero. The
    acceptance flag and the synchronous write-back always pass through.
   */
  function TieOff(c: Component, raw: UnitOut): (o: UnitOut)
    ensures Inert(c, o)
    ensures c.mem ==> o.mem == raw.mem
    ensures c.br ==> o.pcpi.brEnable == raw.pcpi.brEnable && o.pcpi.brNextPc == raw.pcpi.brNextPc
    ensures c.awb ==> o.awb == raw.awb && o.pcpi.wbAsync == raw.pcpi.wbAsync
    ensures o.pcpi.ready == raw.pcpi.ready && o.pcpi.wbWrite == raw.pcpi.wbWrite
    ensures o.pcpi.wbData == raw.pcpi.wbData
  {
    var p := raw.pcpi;
    UnitOut(
      if c.mem then raw.mem else NoMemReq,
      PcpiResp(p.ready, p.wbWrite, c.awb && p.wbAsync, p.wbData,
               c.br && p.brEnable, if c.br then p.brNextPc else 0),
      if c.awb then raw.awb else AwbIdle)
  }

  /** Tying off leaves an already inert output alone, so it is idempotent. */
  lemma TieOffOfInert(c: Component, raw: UnitOut)
    ensures Inert(c, raw) ==> TieOff(c, raw) == raw
    ensures TieOff(c, TieOff(c, raw)) == TieOff(c, raw)
  {
  }

  /** A component that declares every group is connected unchanged. */
  lemma FullComponentUnchanged(c: Component, raw: UnitOut)
    requires c.mem && c.br && c.awb
    ensures TieOff(c, raw) == raw
  {
  }

  // ---------------------------------------------------------------------
  // The CSR bank's pseudo-component

  /** The CSR bank sits first in the requester order and declares no group. */
  const CsrsComponent := Component("csrs", false, false, false)

  /**
    `pcpi_ready_csrs`, `pcpi_wb_write_csrs`, `pcpi_wb_data_csrs`: the bank
    accepts when it recognised the instruction, the interface offers it and
    the control unit can take a write-back; it then writes back the read-out
    value, and otherwise answers nothing.
   */
  function CsrsResponse(csrReady: bool, out: bv32, pcpiValid: bool, wbValid: bool): (r: PcpiResp)
    ensures r.ready <==> csrReady && pcpiValid && wbValid
    ensures r.ready ==> r == PcpiResp(true, true, false, out, false, 0)
    ensures !r.ready ==> r == Silent
  {
    var ready := csrReady && pcpiValid && wbValid;
    PcpiResp(ready, ready, false, if ready then out else 0, false, 0)
  }

  /**
    The bank's outputs as a component: its co-processor response, no memory
    request, no branch and no asynchronous write-back.
   */
  function CsrsUnit(csrReady: bool, out: bv32, pcpiValid: bool, wbValid: bool): (o: UnitOut)
    ensures o.pcpi == CsrsResponse(csrReady, out, pcpiValid, wbValid)
    ensures Inert(CsrsComponent, o)
  {
    UnitOut(NoMemReq, CsrsResponse(csrReady, out, pcpiValid, wbValid), AwbIdle)
  }

  /** Tying the bank off as a component that declares no group changes nothing. */
  lemma CsrsUnitIsTiedOff(csrReady: bool, out: bv32, pcpiValid: bool, wbValid: bool)
    ensures var o := CsrsUnit(csrReady, out, pcpiValid, wbValid);
            TieOff(CsrsComponent, o) == o
  {
  }

  // ---------------------------------------------------------------------
  // The co-processor response seen by the control unit

  /** `pcpi_ready_ctrl`, `pcpi_wb_*` and `pcpi_br_*` of the control unit: the external inputs ORed with every component's. */
  function Aggregate(ext: PcpiResp, resps: seq<PcpiResp>): PcpiResp
  {
    OrAll([ext] + resps, PcpiOr, Silent)
  }

  /** Some response in `xs` accepts. */
  predicate AnyReady(xs: seq<PcpiResp>)
  {
    exists i :: 0 <= i < |xs| && xs[i].ready
  }

  lemma {:induction false} OrAllReady(xs: seq<PcpiResp>)
    ensures OrAll(xs, PcpiOr, Silent).ready <==> AnyReady(xs)
    decreases |xs|
  {
    if |xs| > 0 {
      OrAllReady(xs[1..]);
      if AnyReady(xs[1..]) {
        var i :| 0 <= i < |xs[1..]| && xs[1..][i].ready;
        assert xs[i + 1].ready;
      }
      if AnyReady(xs) && !xs[0].ready {
        var i :| 0 <= i < |xs| && xs[i].ready;
        assert xs[1..][i - 1].ready;
      }
    }
  }

  /** The control unit sees an acceptance exactly when the external input or some component accepts. */
  lemma AggregateReady(ext: PcpiResp, resps: seq<PcpiResp>)
    ensures Aggregate(ext, resps).ready <==> ext.ready || AnyReady(resps)
  {
    var xs := [ext] + resps;
    OrAllReady(xs);
    if AnyReady(resps) {
      var i :| 0 <= i < |resps| && resps[i].ready;
      assert xs[i + 1].ready;
    }
    if AnyReady(xs) && !ext.ready {
      var i :| 0 <= i < |xs| && xs[i].ready;
      assert resps[i - 1].ready;
    }
  }

  /**
    When at most one party answers (the others are silent), the control unit
    receives exactly that answer; when nobody answers it receives silence.
   */
  lemma AggregateExclusive(ext: PcpiResp, resps: seq<PcpiResp>, k: nat)
    requires k <= |resps|
    requires k != 0 ==> ext == Silent
    requires forall i :: 0 <= i < |resps| && i + 1 != k ==> resps[i] == Silent
    ensures Aggregate(ext, resps) == if k == 0 then ext else resps[k - 1]
  {
    var xs := [ext] + resps;
    SilentIsIdentity();
    OrAllOfSingle(xs, PcpiOr, Silent, k);
  }

}
