/**
  The asynchronous write-back arbiter: strict priority in configuration order,
  no locks, and the core's external write-back input pre-empts every unit.
  The winner's fields are forwarded to the control unit's write-back port.
 */
module AwbArbiter {
  import opened Options
  import opened Bus

  /**
    `arb_awb_<r>` from position `i` on; `seen` says an earlier unit already
    asserted its valid flag.
   */
  function GrantsFrom(ext: bool, valid: seq<bool>, i: nat, seen: bool): (g: seq<bool>)
    requires i <= |valid|
    ensures |g| == |valid| - i
    decreases |valid| - i
  {
    if i == |valid| then []
    else [!ext && valid[i] && !seen] + GrantsFrom(ext, valid, i + 1, seen || valid[i])
  }

  /** `arb_awb_<r>` for every unit; `ext` is the external `awb_valid` input. */
  function Grants(ext: bool, valid: seq<bool>): (g: seq<bool>)
    ensures |g| == |valid|
  {
    GrantsFrom(ext, valid, 0, false)
  }

  lemma {:induction false} GrantsFromIsFirstValid(ext: bool, valid: seq<bool>, i: nat, seen: bool)
    requires i <= |valid|
    requires seen <==> exists j :: 0 <= j < i && valid[j]
    ensures forall k :: 0 <= k < |valid| - i ==>
              (GrantsFrom(ext, valid, i, seen)[k] <==> !ext && FirstTrue(valid) == Some(i + k))
    decreases |valid| - i
  {
    if i < |valid| {
      var seen' := seen || valid[i];
      assert seen' <==> exists j :: 0 <= j < i + 1 && valid[j] by {
        if valid[i] {
          assert 0 <= i < i + 1 && valid[i];
        }
      }
      GrantsFromIsFirstValid(ext, valid, i + 1, seen');
      var f := FirstTrue(valid);
      assert (!ext && valid[i] && !seen) <==> !ext && f == Some(i);
      assert GrantsFrom(ext, valid, i, seen)
          == [!ext && valid[i] && !seen] + GrantsFrom(ext, valid, i + 1, seen');
    }
  }

  /**
    A unit is granted exactly when the external write-back is idle and it is
    the first unit asserting valid; hence at most one unit is granted.
   */
  lemma GrantsAreFirstValid(ext: bool, valid: seq<bool>)
    ensures forall i :: 0 <= i < |valid| ==>
              (Grants(ext, valid)[i] <==> !ext && FirstTrue(valid) == Some(i))
    ensures AtMostOne(Grants(ext, valid))
    ensures ext ==> forall i :: 0 <= i < |valid| ==> !Grants(ext, valid)[i]
  {
    GrantsFromIsFirstValid(ext, valid, 0, false);
  }

  /**
    `awb_valid_ctrl`, `awb_addr_ctrl`, `awb_data_ctrl`: the external
    write-back when it is valid, otherwise the OR of the units' fields gated by
    their grants.
   */
  function ToCtrl(ext: AwbFields, g: seq<bool>, units: seq<AwbFields>): AwbFields
    requires |g| == |units|
  {
    if ext.valid then ext else OrAll(Gated(g, units, AwbIdle), AwbOr, AwbIdle)
  }

  /**
    What reaches the control unit: the external write-back when it is valid,
    else the first valid unit's fields, else nothing.
   */
  lemma ToCtrlForwards(ext: AwbFields, units: seq<AwbFields>)
    ensures var valid := seq(|units|, i requires 0 <= i < |units| => units[i].valid);
            var r := ToCtrl(ext, Grants(ext.valid, valid), units);
            && (ext.valid ==> r == ext)
            && (!ext.valid ==> match FirstTrue(valid)
                                case Some(k) => r == units[k]
                                case None => r == AwbIdle)
  {
    var valid := seq(|units|, i requires 0 <= i < |units| => units[i].valid);
    var g := Grants(ext.valid, valid);
    GrantsAreFirstValid(ext.valid, valid);
    AwbIdleIsIdentity();
    MergeOfExclusive(g, units, AwbOr, AwbIdle);
    if !ext.valid {
      match FirstTrue(valid)
      case Some(k) =>
        assert g[k];
      case None =>
        assert forall k :: 0 <= k < |g| ==> !g[k];
    }
  }

}
