/**
  The manual alarm switch both alarm servers share: `/set-alarm?status=…`
  sets the flag on `true`, clears it on `false` and flips it on any other
  value or when the parameter is absent; `/check-alarm` reports an alert
  count of 1 for an alarm and 0 otherwise.
 */
module AlarmSwitch {
  import opened Wrappers

  /** A status that names the new value outright rather than flipping the flag. */
  predicate IsExplicit(status: Option<string>) {
    status == Some("true") || status == Some("false")
  }

  /** The flag after one `/set-alarm` request with query parameter `status`. */
  function NextFlag(status: Option<string>, current: bool): (next: bool)
    ensures status == Some("true") ==> next
    ensures status == Some("false") ==> !next
    ensures !IsExplicit(status) ==> next != current
  {
    if status == Some("true") then true
    else if status == Some("false") then false
    else !current
  }

  /** `alert_count` in a `/check-alarm` reply: 1 with an alarm, 0 without. */
  function AlertCount(alarm: bool): (n: nat)
    ensures n <= 1
    ensures n == 1 <==> alarm
  {
    if alarm then 1 else 0
  }

  /** The flag after a series of `/set-alarm` requests, oldest first. */
  function ApplyAll(statuses: seq<Option<string>>, flag: bool): bool {
    if statuses == [] then flag else ApplyAll(statuses[1..], NextFlag(statuses[0], flag))
  }

  /** How many of the requests flip the flag. */
  function Toggles(statuses: seq<Option<string>>): nat {
    if statuses == [] then 0
    else (if IsExplicit(statuses[0]) then 0 else 1) + Toggles(statuses[1..])
  }

  /** Flipping twice gives the flag back. */
  lemma ToggleTwice(status: Option<string>, flag: bool)
    requires !IsExplicit(status)
    ensures NextFlag(status, NextFlag(status, flag)) == flag
  {
  }

  /** Without an explicit status the flag ends up flipped once per request. */
  lemma {:induction false} OnlyToggles(statuses: seq<Option<string>>, flag: bool)
    requires forall i :: 0 <= i < |statuses| ==> !IsExplicit(statuses[i])
    ensures ApplyAll(statuses, flag) == (if Toggles(statuses) % 2 == 0 then flag else !flag)
    decreases |statuses|
  {
    if statuses != [] {
      OnlyToggles(statuses[1..], NextFlag(statuses[0], flag));
    }
  }

  /** An explicit status makes every earlier request irrelevant. */
  lemma {:induction false} ExplicitForgets(before: seq<Option<string>>, status: Option<string>,
                                           after: seq<Option<string>>, flag: bool)
    requires IsExplicit(status)
    ensures ApplyAll(before + [status] + after, flag) == ApplyAll(after, status == Some("true"))
    decreases |before|
  {
    if before == [] {
      assert before + [status] + after == [status] + after;
      assert ([status] + after)[1..] == after;
    } else {
      assert (before + [status] + after)[1..] == before[1..] + [status] + after;
      ExplicitForgets(before[1..], status, after, NextFlag(before[0], flag));
    }
  }
}
