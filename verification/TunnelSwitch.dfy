/** Exchanging the active outbound with recovery.  The command line
    (orchestrator/bimarz/connection.py:232-279) and the GUI worker
    (gui/connection_worker.py:392-466) follow one protocol: remove, add, and on a failure
    try to put the previous profile back.  A failed call has no effect. */
module TunnelSwitch {
  import opened Text
  import opened Health

  /** What xray-core holds under the active tag, and what the owner believes. */
  datatype Tunnel = Tunnel(installed: Option<ServerProfile>, owned: bool)

  /** Recovery from attempt n on: remove if owned, then add the previous profile. */
  function Recover(t: Tunnel, previous: ServerProfile, faults: nat -> bool, n: nat): Tunnel {
    var removed := if t.owned && !faults(n) then Tunnel(None, false) else t;
    if faults(if t.owned then n + 1 else n) then removed else Tunnel(Some(previous), true)
  }

  /** A switch from attempt n on.  `accepted` says whether the failover record takes the
      new id; the flag of the result whether the new profile stays. */
  function Switch(t: Tunnel, previous: ServerProfile, next: ServerProfile, accepted: bool, faults: nat -> bool,
                  n: nat): (Tunnel, bool) {
    if faults(n) then (Recover(t, previous, faults, n + 1), false)
    else if faults(n + 1) then (Recover(Tunnel(None, false), previous, faults, n + 2), false)
    else if accepted then (Tunnel(Some(next), true), true)
    else (Recover(Tunnel(Some(next), true), previous, faults, n + 2), false)
  }

  /** How many attempts a switch makes. */
  function SwitchLength(t: Tunnel, accepted: bool, faults: nat -> bool, n: nat): nat {
    if faults(n) then if t.owned then 3 else 2
    else if faults(n + 1) then 3
    else if accepted then 2
    else 4
  }

  /** The flag says whether something is installed, and what is installed is `current`. */
  predicate Agrees(t: Tunnel, current: ServerProfile) {
    (t.owned <==> t.installed.Some?) && (t.installed.Some? ==> t.installed.value == current)
  }

  /** When a switch keeps the agreement: always, except when the record refuses the new id
      after both switch calls succeeded and then both recovery calls fail. */
  lemma SwitchAgreesUnless(t: Tunnel, previous: ServerProfile, next: ServerProfile, accepted: bool,
                           faults: nat -> bool, n: nat)
    requires Agrees(t, previous) && next != previous
    ensures var (after, switched) := Switch(t, previous, next, accepted, faults, n);
            Agrees(after, if switched then next else previous) <==>
            !(!accepted && !faults(n) && !faults(n + 1) && faults(n + 2) && faults(n + 3))
  {
  }

  /** The last call decides: whatever failed before it, a switch whose last call succeeds ends
      with an owned outbound, the next profile if it was switched and the previous one if
      not; an outbound is lost only if that last call fails. */
  lemma LastCallDecides(t: Tunnel, previous: ServerProfile, next: ServerProfile, accepted: bool, faults: nat -> bool, n: nat)
    ensures var (after, switched) := Switch(t, previous, next, accepted, faults, n);
            var last := n + SwitchLength(t, accepted, faults, n) - 1;
            && (!faults(last) ==> after == Tunnel(Some(if switched then next else previous), true))
            && (after.installed.None? && t.installed.Some? ==> faults(last))
  {
  }

  /** A switch succeeds exactly when both calls do and the record takes the new id; and what one
      leaves whose last call fails, by the first call that failed. */
  lemma WhatIsLeft(t: Tunnel, previous: ServerProfile, next: ServerProfile, accepted: bool, faults: nat -> bool, n: nat)
    ensures var (after, switched) := Switch(t, previous, next, accepted, faults, n);
            && (switched <==> accepted && !faults(n) && !faults(n + 1))
            && (!switched && faults(n + SwitchLength(t, accepted, faults, n) - 1) ==>
                  after == if faults(n) then if t.owned && !faults(n + 1) then Tunnel(None, false) else t
                           else if faults(n + 1) || !faults(n + 2) then Tunnel(None, false)
                           else Tunnel(Some(next), true))
  {
  }

  /** Healing: from an absent outbound a switch to an accepted profile leaves one exactly when
      its last call succeeds; a refused one loses it again only if it could be removed. */
  lemma AbsentOutboundHeals(previous: ServerProfile, next: ServerProfile, accepted: bool, faults: nat -> bool, n: nat)
    ensures var t := Tunnel(None, false);
            var (after, switched) := Switch(t, previous, next, accepted, faults, n);
            var last := n + SwitchLength(t, accepted, faults, n) - 1;
            && (after.installed.Some? <==> after.owned)
            && (after.installed.None? <==> faults(last) && (accepted || faults(n) || faults(n + 1) || !faults(n + 2)))
  {
  }
}
