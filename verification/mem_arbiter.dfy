/**
  The memory-port arbiter: fixed priority over the requesters in
  configuration order, with one "locked owner" bit per requester that keeps a
  transfer in progress from being torn by a higher-priority newcomer.

  For requester `i` the generated grant is
    (no earlier requester granted) && req[i] && (no later requester both requests and is locked),
  and the control unit, which comes last, is granted only when nobody else is.
 */
module MemArbiter {
  import opened Options
  import opened Bus

  /** Some requester after position `i` requests and held the bus last cycle. */
  predicate LockedAfter(req: seq<bool>, lock: seq<bool>, i: nat)
    requires |req| == |lock|
  {
    exists j :: i < j < |req| && req[j] && lock[j]
  }

  /**
    The generator's loop from position `i` on, where `taken` says an earlier
    requester already holds the grant.
   */
  function GrantsFrom(req: seq<bool>, lock: seq<bool>, i: nat, taken: bool): (g: seq<bool>)
    requires |req| == |lock| && i <= |req|
    ensures |g| == |req| - i
    decreases |req| - i
  {
    if i == |req| then []
    else
      var gi := !taken && req[i] && !LockedAfter(req, lock, i);
      [gi] + GrantsFrom(req, lock, i + 1, taken || gi)
  }

  /** `arb_mem_<r>` for every requester, in configuration order. */
  function Grants(req: seq<bool>, lock: seq<bool>): (g: seq<bool>)
    requires |req| == |lock|
    ensures |g| == |req|
  {
    GrantsFrom(req, lock, 0, false)
  }

  /** No requester is granted. */
  predicate NoneGranted(g: seq<bool>)
  {
    forall i :: 0 <= i < |g| ==> !g[i]
  }

  /** `arb_mem_ctrl`: the control unit is granted only behind every requester. */
  function CtrlGrant(memValidCtrl: bool, g: seq<bool>): bool
  {
    memValidCtrl && NoneGranted(g)
  }

  /** The lock register update: last cycle's grant, cleared by reset. */
  function NextLocks(reset: bool, g: seq<bool>): (l: seq<bool>)
    ensures |l| == |g|
    ensures reset ==> forall i :: 0 <= i < |l| ==> !l[i]
    ensures !reset ==> l == g
  {
    if reset then seq(|g|, i => false) else g
  }

  // ---------------------------------------------------------------------
  // The reference definition of the winner

  /** The highest position that both requests and holds the lock. */
  function HighestLocked(req: seq<bool>, lock: seq<bool>): (w: Option<nat>)
    requires |req| == |lock|
    ensures w.Some? ==> w.value < |req| && req[w.value] && lock[w.value]
                        && !LockedAfter(req, lock, w.value)
    ensures w.None? ==> forall j :: 0 <= j < |req| ==> !(req[j] && lock[j])
    decreases |req|
  {
    if |req| == 0 then None
    else
      var n := |req| - 1;
      if req[n] && lock[n] then Some(n)
      else HighestLocked(req[..n], lock[..n])
  }

  /**
    Who should hold the bus: the highest-positioned requester whose lock is
    set, or, when no requester is locked, the first requester in order.
   */
  function Winner(req: seq<bool>, lock: seq<bool>): Option<nat>
    requires |req| == |lock|
  {
    match HighestLocked(req, lock)
    case Some(j) => Some(j)
    case None => FirstTrue(req)
  }

  /** `taken` on entry to position `i` is exactly "the winner sits before `i`". */
  ghost predicate TakenMeansWinnerBefore(req: seq<bool>, lock: seq<bool>, i: nat, taken: bool)
    requires |req| == |lock|
  {
    var w := Winner(req, lock);
    taken <==> (w.Some? && w.value < i)
  }

  lemma {:induction false} GrantsFromIsWinner(req: seq<bool>, lock: seq<bool>, i: nat, taken: bool)
    requires |req| == |lock| && i <= |req|
    requires TakenMeansWinnerBefore(req, lock, i, taken)
    ensures forall k :: 0 <= k < |req| - i ==>
              (GrantsFrom(req, lock, i, taken)[k] <==> Winner(req, lock) == Some(i + k))
    decreases |req| - i
  {
    if i < |req| {
      var w := Winner(req, lock);
      var gi := !taken && req[i] && !LockedAfter(req, lock, i);
      var h := HighestLocked(req, lock);
      if h.Some? {
        assert LockedAfter(req, lock, i) <==> i < h.value;
      } else {
        assert !LockedAfter(req, lock, i);
      }
      assert gi <==> w == Some(i);
      GrantsFromIsWinner(req, lock, i + 1, taken || gi);
      var rest := GrantsFrom(req, lock, i + 1, taken || gi);
      assert GrantsFrom(req, lock, i, taken) == [gi] + rest;
    }
  }

  /** The generated grant network grants exactly the reference winner. */
  lemma GrantsAreWinner(req: seq<bool>, lock: seq<bool>)
    requires |req| == |lock|
    ensures forall i :: 0 <= i < |req| ==> (Grants(req, lock)[i] <==> Winner(req, lock) == Some(i))
  {
    GrantsFromIsWinner(req, lock, 0, false);
  }

  // ---------------------------------------------------------------------
  // Properties of the grant network

  /** The grant of position `i` is the generator's formula over the other grants and requests. */
  lemma GrantRule(req: seq<bool>, lock: seq<bool>, i: nat)
    requires |req| == |lock| && i < |req|
    ensures Grants(req, lock)[i] <==>
              (forall j :: 0 <= j < i ==> !Grants(req, lock)[j]) && req[i] && !LockedAfter(req, lock, i)
  {
    GrantsAreWinner(req, lock);
    var w := Winner(req, lock);
    match HighestLocked(req, lock)
    case Some(m) =>
      assert LockedAfter(req, lock, i) <==> i < m;
    case None =>
  }

  /** At most one requester is granted, and the control unit only when none is. */
  lemma MutualExclusion(req: seq<bool>, lock: seq<bool>, memValidCtrl: bool)
    requires |req| == |lock|
    ensures AtMostOne(Grants(req, lock))
    ensures CtrlGrant(memValidCtrl, Grants(req, lock)) ==> forall i :: 0 <= i < |req| ==> !Grants(req, lock)[i]
  {
    GrantsAreWinner(req, lock);
  }

  /** A grant is only ever given to a requester. */
  lemma GrantImpliesRequest(req: seq<bool>, lock: seq<bool>, i: nat)
    requires |req| == |lock| && i < |req|
    ensures Grants(req, lock)[i] ==> req[i]
  {
    GrantsAreWinner(req, lock);
  }

  /**
    When any requester asks, exactly one is granted: the highest-positioned
    locked requester, or the first requester if none is locked; and the
    control unit is granted exactly when it asks and no requester does.
   */
  lemma ExactWinner(req: seq<bool>, lock: seq<bool>, memValidCtrl: bool)
    requires |req| == |lock|
    ensures (exists i :: 0 <= i < |req| && req[i]) ==>
              exists w :: 0 <= w < |req| && Grants(req, lock)[w] &&
                (forall i :: 0 <= i < |req| && Grants(req, lock)[i] ==> i == w) &&
                (if exists j :: 0 <= j < |req| && req[j] && lock[j]
                 then lock[w] && !LockedAfter(req, lock, w)
                 else forall j :: 0 <= j < w ==> !req[j])
    ensures CtrlGrant(memValidCtrl, Grants(req, lock)) <==>
              memValidCtrl && forall i :: 0 <= i < |req| ==> !req[i]
  {
    GrantsAreWinner(req, lock);
    var w := Winner(req, lock);
    if exists i :: 0 <= i < |req| && req[i] {
      var i :| 0 <= i < |req| && req[i];
      assert w.Some?;
      assert Grants(req, lock)[w.value];
    }
    if memValidCtrl && forall i :: 0 <= i < |req| ==> !req[i] {
      assert w.None?;
    }
  }

  /**
    When no requester holds its lock (locks may still be set for units that
    no longer request), the arbiter is plain fixed priority: the first
    requester wins.
   */
  lemma PriorityTieBreak(req: seq<bool>, lock: seq<bool>, i: nat)
    requires |req| == |lock| && i < |req|
    requires forall j :: 0 <= j < |req| ==> !(req[j] && lock[j])
    ensures Grants(req, lock)[i] <==> req[i] && forall j :: 0 <= j < i ==> !req[j]
  {
    GrantsAreWinner(req, lock);
  }

  /** A requester that has no competitor is granted exactly when it requests, and nobody else is. */
  lemma SoleRequester(req: seq<bool>, lock: seq<bool>, i: nat)
    requires |req| == |lock| && i < |req|
    requires forall j :: 0 <= j < |req| && j != i ==> !req[j]
    ensures Grants(req, lock)[i] <==> req[i]
    ensures forall j :: 0 <= j < |req| && j != i ==> !Grants(req, lock)[j]
  {
    GrantsAreWinner(req, lock);
    if req[i] {
      match HighestLocked(req, lock)
      case Some(h) =>
        assert h == i;
      case None =>
        assert FirstTrue(req) == Some(i);
    }
  }

  /**
    Hold under lock: when the locks are last cycle's grants, a requester that
    was granted and still requests is granted again, whatever anyone else does.
   */
  lemma HoldUnderLock(reqBefore: seq<bool>, lockBefore: seq<bool>, req: seq<bool>, i: nat)
    requires |reqBefore| == |lockBefore| == |req| && i < |req|
    requires Grants(reqBefore, lockBefore)[i] && req[i]
    ensures Grants(req, Grants(reqBefore, lockBefore))[i]
  {
    var lock := Grants(reqBefore, lockBefore);
    MutualExclusion(reqBefore, lockBefore, false);
    GrantsAreWinner(req, lock);
    match HighestLocked(req, lock)
    case Some(m) =>
      assert lock[m];
      assert m == i;
    case None =>
      assert false;
  }

  // ---------------------------------------------------------------------
  // The merged memory bus

  /**
    `mem_valid`, `mem_addr`, `mem_wdata`, `mem_wstrb`: the OR over the control
    unit and every requester of its fields gated by its own grant.
   */
  function MergedBus(ctrlGrant: bool, ctrlBus: MemFields, g: seq<bool>, buses: seq<MemFields>): MemFields
    requires |g| == |buses|
  {
    OrAll(Gated([ctrlGrant] + g, [ctrlBus] + buses, MemIdle), MemOr, MemIdle)
  }

  /**
    With grants from the arbiter, the merged bus carries exactly the granted
    requester's fields, the control unit's when it is granted, or all zeros.
   */
  lemma MergedBusSelects(req: seq<bool>, lock: seq<bool>, memValidCtrl: bool,
                         ctrlBus: MemFields, buses: seq<MemFields>)
    requires |req| == |lock| == |buses|
    ensures var g := Grants(req, lock);
            var ctrl := CtrlGrant(memValidCtrl, g);
            var m := MergedBus(ctrl, ctrlBus, g, buses);
            && (ctrl ==> m == ctrlBus)
            && (forall i :: 0 <= i < |g| && g[i] ==> m == buses[i])
            && (!ctrl && NoneGranted(g) ==> m == MemIdle)
  {
    var g := Grants(req, lock);
    var ctrl := CtrlGrant(memValidCtrl, g);
    MutualExclusion(req, lock, memValidCtrl);
    var all := [ctrl] + g;
    assert AtMostOne(all) by {
      forall a, b | 0 <= a < |all| && 0 <= b < |all| && all[a] && all[b]
        ensures a == b
      {
        if a > 0 && b > 0 {
          assert g[a - 1] && g[b - 1];
        }
      }
    }
    MemIdleIsIdentity();
    MergeOfExclusive(all, [ctrlBus] + buses, MemOr, MemIdle);
    forall i | 0 <= i < |g| && g[i]
      ensures MergedBus(ctrl, ctrlBus, g, buses) == buses[i]
    {
      assert all[i + 1];
    }
    if !ctrl && NoneGranted(g) {
      assert forall k :: 0 <= k < |all| ==> !all[k];
    }
  }

}
