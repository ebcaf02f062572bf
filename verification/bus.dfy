/** An optional value: the position of a winner, a matching CSR, or nothing. */
module Options {

  datatype Option<+T> = None | Some(value: T)

}

/**
  Shared signal groups of the core and the bitwise-OR merge the generated
  hardware uses to put many drivers onto one bus.

  Every bus field is merged as `(g_0 ? x_0 : 0) | (g_1 ? x_1 : 0) | ...`;
  `OrAll` is that fold over a sequence, parameterised by the record's OR and
  its all-zero value, so one set of lemmas serves every signal group.
 */
module Bus {
  import opened Options

  /** The fields a requester drives onto the memory port. */
  datatype MemFields = MemFields(valid: bool, addr: bv32, wdata: bv32, wstrb: bv4)

  const MemIdle := MemFields(false, 0, 0, 0)

  function MemOr(a: MemFields, b: MemFields): MemFields
  {
    MemFields(a.valid || b.valid, a.addr | b.addr, a.wdata | b.wdata, a.wstrb | b.wstrb)
  }

  /** An asynchronous register write-back: valid flag, 5-bit register number, data. */
  datatype AwbFields = AwbFields(valid: bool, addr: bv5, data: bv32)

  const AwbIdle := AwbFields(false, 0, 0)

  function AwbOr(a: AwbFields, b: AwbFields): AwbFields
  {
    AwbFields(a.valid || b.valid, a.addr | b.addr, a.data | b.data)
  }

  /** A co-processor (PCPI) response: acceptance, write-back and branch request. */
  datatype PcpiResp = PcpiResp(
    ready: bool,
    wbWrite: bool,
    wbAsync: bool,
    wbData: bv32,
    brEnable: bool,
    brNextPc: bv32)

  /** The response of a unit that does not claim the instruction. */
  const Silent := PcpiResp(false, false, false, 0, false, 0)

  function PcpiOr(a: PcpiResp, b: PcpiResp): PcpiResp
  {
    PcpiResp(a.ready || b.ready, a.wbWrite || b.wbWrite, a.wbAsync || b.wbAsync,
             a.wbData | b.wbData, a.brEnable || b.brEnable, a.brNextPc | b.brNextPc)
  }

  /** `zero` is a two-sided identity of `or`. */
  ghost predicate IsIdentity<T(!new)>(or: (T, T) -> T, zero: T)
  {
    forall x: T :: or(zero, x) == x && or(x, zero) == x
  }

  lemma MemIdleIsIdentity()
    ensures IsIdentity(MemOr, MemIdle)
  {
  }

  lemma AwbIdleIsIdentity()
    ensures IsIdentity(AwbOr, AwbIdle)
  {
  }

  lemma SilentIsIdentity()
    ensures IsIdentity(PcpiOr, Silent)
  {
  }

  /** The OR of every element of `xs`; `zero` when `xs` is empty. */
  function OrAll<T>(xs: seq<T>, or: (T, T) -> T, zero: T): T
    decreases |xs|
  {
    if |xs| == 0 then zero else or(xs[0], OrAll(xs[1..], or, zero))
  }

  /** Each driver's contribution after gating by its grant: `g ? x : 0`. */
  function Gated<T>(gs: seq<bool>, xs: seq<T>, zero: T): (ys: seq<T>)
    requires |gs| == |xs|
    ensures |ys| == |xs|
    ensures forall i :: 0 <= i < |xs| ==> ys[i] == if gs[i] then xs[i] else zero
  {
    seq(|xs|, i requires 0 <= i < |xs| => if gs[i] then xs[i] else zero)
  }

  /** At most one of the flags is set. */
  predicate AtMostOne(gs: seq<bool>)
  {
    forall i, j :: 0 <= i < |gs| && 0 <= j < |gs| && gs[i] && gs[j] ==> i == j
  }

  /** Fixed priority: the first position, in order, whose flag is set. */
  function FirstTrue(gs: seq<bool>): (w: Option<nat>)
    ensures w.Some? ==> w.value < |gs| && gs[w.value]
                        && forall j :: 0 <= j < w.value ==> !gs[j]
    ensures w.None? ==> forall j :: 0 <= j < |gs| ==> !gs[j]
    decreases |gs|
  {
    if |gs| == 0 then None
    else if gs[0] then Some(0)
    else match FirstTrue(gs[1..])
      case Some(k) => Some(k + 1)
      case None => None
  }

  /** When every driver drives zero, the bus reads zero. */
  lemma {:induction false} OrAllOfZeros<T(!new)>(xs: seq<T>, or: (T, T) -> T, zero: T)
    requires IsIdentity(or, zero)
    requires forall i :: 0 <= i < |xs| ==> xs[i] == zero
    ensures OrAll(xs, or, zero) == zero
    decreases |xs|
  {
    if |xs| > 0 {
      OrAllOfZeros(xs[1..], or, zero);
    }
  }

  /** When every driver but `k` drives zero, the bus carries exactly `xs[k]`. */
  lemma {:induction false} OrAllOfSingle<T(!new)>(xs: seq<T>, or: (T, T) -> T, zero: T, k: nat)
    requires IsIdentity(or, zero)
    requires k < |xs|
    requires forall i :: 0 <= i < |xs| && i != k ==> xs[i] == zero
    ensures OrAll(xs, or, zero) == xs[k]
    decreases |xs|
  {
    if k == 0 {
      OrAllOfZeros(xs[1..], or, zero);
    } else {
      OrAllOfSingle(xs[1..], or, zero, k - 1);
    }
  }

  /**
    Gating by mutually exclusive grants selects: the merged bus carries the
    granted driver's fields, or zero when nobody is granted.
   */
  lemma MergeOfExclusive<T(!new)>(gs: seq<bool>, xs: seq<T>, or: (T, T) -> T, zero: T)
    requires IsIdentity(or, zero)
    requires |gs| == |xs|
    requires AtMostOne(gs)
    ensures forall k :: 0 <= k < |gs| && gs[k] ==> OrAll(Gated(gs, xs, zero), or, zero) == xs[k]
    ensures (forall k :: 0 <= k < |gs| ==> !gs[k]) ==> OrAll(Gated(gs, xs, zero), or, zero) == zero
  {
    var ys := Gated(gs, xs, zero);
    forall k | 0 <= k < |gs| && gs[k]
      ensures OrAll(ys, or, zero) == xs[k]
    {
      OrAllOfSingle(ys, or, zero, k);
    }
    if forall k :: 0 <= k < |gs| ==> !gs[k] {
      OrAllOfZeros(ys, or, zero);
    }
  }

}
