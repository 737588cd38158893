/** Waiting for a device's web page across a reboot (backend/tools/femto_provision.py). */
module Reboot {
  import opened Prelude

  /** What one request to the log-on page gave. */
  datatype Probe = Response(status: int, smallCell: bool) | Failed

  predicate Online(p: Probe) {
    p.Response? && p.status == 200
  }

  predicate Ready(p: Probe) {
    p.Response? && p.status == 200 && p.smallCell
  }

  datatype Outcome = NeverOffline | BackUp(elapsed: int) | TimedOut

  /** How often one loop of `interval` steps can probe before `timeout`. */
  function Tries(timeout: int, interval: int): (n: nat)
    requires interval > 0
  {
    if timeout <= 0 then 0 else (timeout + interval - 1) / interval
  }

  lemma TriesIff(timeout: int, interval: int, k: nat)
    requires interval > 0
    ensures k * interval < timeout <==> k < Tries(timeout, interval)
  {
    if timeout <= 0 {
      Monotone(0, k, interval);
    } else {
      var n := Tries(timeout, interval);
      Ceiling(timeout, interval, n);
      if k < n {
        Monotone(k, n - 1, interval);
      } else {
        Monotone(n, k, interval);
      }
    }
  }

  lemma Monotone(a: int, b: int, c: int)
    requires a <= b && c >= 0
    ensures a * c <= b * c
  {
  }

  lemma Ceiling(timeout: int, interval: int, n: nat)
    requires interval > 0 && timeout > 0 && n == (timeout + interval - 1) / interval
    ensures (n - 1) * interval < timeout <= n * interval
  {
  }

  // ----- what the probes say -----

  /** The first offline answer among the first `n` probes. */
  ghost predicate FirstOffline(probe: nat -> Probe, n: nat, off: nat) {
    off < n && !Online(probe(off)) && forall k: nat :: k < off ==> Online(probe(k))
  }

  /** The first ready answer among `n` probes from `from` on. */
  ghost predicate FirstReady(probe: nat -> Probe, from: nat, n: nat, up: nat) {
    from <= up < from + n && Ready(probe(up)) && forall k: nat :: from <= k < up ==> !Ready(probe(k))
  }

  /** Gone at probe `off`, back at probe `up`. */
  ghost predicate Cycle(probe: nat -> Probe, n: nat, off: nat, up: nat) {
    FirstOffline(probe, n, off) && FirstReady(probe, off + 1, n, up)
  }

  /** Gone at probe `off`, and not back in `n` tries. */
  ghost predicate Stuck(probe: nat -> Probe, n: nat, off: nat) {
    FirstOffline(probe, n, off) && NeverReady(probe, off + 1, n)
  }

  ghost predicate NeverReady(probe: nat -> Probe, from: nat, n: nat) {
    forall k: nat :: from <= k < from + n ==> !Ready(probe(k))
  }

  /** `r` after `probes` requests is what the answers call for: `n` tries to see the device go, `n` to see it back. */
  ghost predicate Explains(probe: nat -> Probe, n: nat, interval: int, r: Outcome, probes: nat) {
    match r
    case NeverOffline => probes == n && forall k: nat :: k < n ==> Online(probe(k))
    case BackUp(elapsed) =>
      exists off: nat, up: nat :: Cycle(probe, n, off, up) && probes == up + 1 && elapsed == (up - off) * interval
    case TimedOut =>
      exists off: nat :: Stuck(probe, n, off) && probes == off + 1 + n
  }

  /** The answers call for one outcome only, reached after one number of probes. */
  lemma OneOutcome(probe: nat -> Probe, n: nat, interval: int, r: Outcome, probes: nat, s: Outcome, others: nat)
    requires Explains(probe, n, interval, r, probes) && Explains(probe, n, interval, s, others)
    ensures r == s && probes == others
  {
  }

  /** "Back up" is reported exactly when an offline answer is followed, in time, by a ready one. */
  lemma BackUpIff(probe: nat -> Probe, n: nat, interval: int, r: Outcome, probes: nat)
    requires Explains(probe, n, interval, r, probes)
    ensures r.BackUp? <==> exists off: nat, up: nat :: Cycle(probe, n, off, up)
    ensures r.BackUp? ==> exists off: nat :: off < probes - 1 && !Online(probe(off)) && Ready(probe(probes - 1))
    ensures probes <= 2 * n
  {
    if off: nat, up: nat :| Cycle(probe, n, off, up) {
      assert Explains(probe, n, interval, BackUp((up - off) * interval), up + 1);
      OneOutcome(probe, n, interval, r, probes, BackUp((up - off) * interval), up + 1);
    }
  }

  /**
    The outcome in terms of the answers themselves. Anything but status 200 counts as
    offline; only status 200 with the marker on the page counts as back.
   */
  lemma OutcomeMeaning(probe: nat -> Probe, n: nat, interval: int, r: Outcome, probes: nat)
    requires Explains(probe, n, interval, r, probes)
    ensures r.NeverOffline? <==> forall k: nat :: k < n ==> probe(k).Response? && probe(k).status == 200
    ensures !r.NeverOffline? ==> exists off: nat ::
              && off < n && (probe(off).Failed? || probe(off).status != 200)
              && (forall k: nat :: k < off ==> probe(k).Response? && probe(k).status == 200)
              && (if r.BackUp?
                  then off < probes - 1 <= off + n && probe(probes - 1) == Response(200, true)
                       && r.elapsed == (probes - 1 - off) * interval
                       && forall k: nat :: off < k < probes - 1 ==> probe(k) != Response(200, true)
                  else probes == off + 1 + n
                       && forall k: nat :: off < k < probes ==> probe(k) != Response(200, true))
  {
    match r
    case NeverOffline =>
      forall k: nat | k < n ensures probe(k).Response? && probe(k).status == 200 { assert Online(probe(k)); }
    case BackUp(elapsed) =>
      var off: nat, up: nat :| Cycle(probe, n, off, up) && probes == up + 1 && elapsed == (up - off) * interval;
      AnswersBefore(probe, off, off + 1, up);
      assert !Online(probe(off)) && Ready(probe(up));
    case TimedOut =>
      var off: nat :| Stuck(probe, n, off) && probes == off + 1 + n;
      AnswersBefore(probe, off, off + 1, probes);
      assert !Online(probe(off));
  }

  lemma AnswersBefore(probe: nat -> Probe, off: nat, from: nat, to: nat)
    requires forall k: nat :: k < off ==> Online(probe(k))
    requires forall k: nat :: from <= k < to ==> !Ready(probe(k))
    ensures forall k: nat :: k < off ==> probe(k).Response? && probe(k).status == 200
    ensures forall k: nat :: from <= k < to ==> probe(k) != Response(200, true)
  {
    forall k: nat | k < off ensures probe(k).Response? && probe(k).status == 200 { assert Online(probe(k)); }
    forall k: nat | from <= k < to ensures probe(k) != Response(200, true) { assert !Ready(probe(k)); }
  }

  // ----- the loops -----

  /** wait_for_webui_up, and the second half of the reboot wait: probes until ready or out of time. */
  method WaitForWebuiUp(probe: nat -> Probe, from: nat, timeout: int, interval: int)
      returns (up: Option<int>, next: nat)
    requires interval > 0
    ensures up.Some? ==> next > from && FirstReady(probe, from, Tries(timeout, interval), next - 1)
                         && up.value == (next - from) * interval
    ensures up.None? ==> NeverReady(probe, from, Tries(timeout, interval)) && next == from + Tries(timeout, interval)
  {
    var elapsed := 0;
    next := from;
    TriesIff(timeout, interval, 0);
    while elapsed < timeout
      invariant from <= next <= from + Tries(timeout, interval)
      invariant elapsed == (next - from) * interval
      invariant NeverReady(probe, from, next - from)
      decreases from + Tries(timeout, interval) - next
    {
      TriesIff(timeout, interval, next - from);
      elapsed := elapsed + interval;
      next := next + 1;
      assert elapsed == (next - from) * interval;
      if Ready(probe(next - 1)) {
        return Some(elapsed), next;
      }
    }
    TriesIff(timeout, interval, next - from);
    return None, next;
  }

  method WaitForWebuiReboot(probe: nat -> Probe, timeout: int, interval: int)
      returns (r: Outcome, probes: nat)
    requires interval > 0
    ensures Explains(probe, Tries(timeout, interval), interval, r, probes)
  {
    ghost var n := Tries(timeout, interval);
    var elapsed := 0;
    probes := 0;
    var offline := false;
    TriesIff(timeout, interval, 0);
    while elapsed < timeout && !offline
      invariant 0 <= probes <= n
      invariant elapsed == probes * interval
      invariant if offline then probes > 0 && FirstOffline(probe, n, probes - 1)
                else forall k: nat :: k < probes ==> Online(probe(k))
      decreases n - probes, !offline
    {
      TriesIff(timeout, interval, probes);
      elapsed := elapsed + interval;
      probes := probes + 1;
      assert elapsed == probes * interval;
      offline := !Online(probe(probes - 1));
    }
    TriesIff(timeout, interval, probes);
    if !offline {
      return NeverOffline, probes;
    }
    ghost var off := probes - 1;
    var up, next := WaitForWebuiUp(probe, probes, timeout, interval);
    r := if up.Some? then BackUp(up.value) else TimedOut;
    probes := next;
    assert if up.Some? then Cycle(probe, n, off, next - 1) else Stuck(probe, n, off);
  }
}
