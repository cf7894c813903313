/** Graceful shutdown: `drain_in_flight` of src/server.rs and the sequence in src/main.rs that joins
    the listener tasks and then drains. Times are milliseconds. */
module Shutdown {

  const POLL_INTERVAL: nat := 100

  /** What round `i` of the drain loop observes. Other tasks run between the loads, so the two loads
      of the counter in one round are independent. */
  datatype Rounds = Rounds(isZeroLoad: nat -> nat, elapsed: nat -> nat, finalLoad: nat -> nat)

  /** Each round sleeps for the poll interval, and a timer fires at most `lateness` late. */
  ghost predicate Paced(rounds: Rounds, lateness: nat) {
    && rounds.elapsed(0) <= lateness
    && forall i: nat :: rounds.elapsed(i) + POLL_INTERVAL <= rounds.elapsed(i + 1)
                     <= rounds.elapsed(i) + POLL_INTERVAL + lateness
  }

  /** The drain stops at the first round that reads zero or finds the timeout expired. It returns
      non-zero only after the timeout, and at most one poll interval after it. */
  method DrainInFlight(rounds: Rounds, timeout: nat, ghost lateness: nat) returns (remaining: nat, round: nat)
    requires Paced(rounds, lateness)
    ensures forall i: nat :: i < round ==> rounds.isZeroLoad(i) != 0 && rounds.elapsed(i) < timeout
    ensures rounds.isZeroLoad(round) == 0 ==> remaining == 0
    ensures rounds.isZeroLoad(round) != 0 ==> timeout <= rounds.elapsed(round) && remaining == rounds.finalLoad(round)
    ensures remaining != 0 ==> timeout <= rounds.elapsed(round)
    ensures rounds.elapsed(round) <= timeout + 100 + lateness
  {
    round := 0;
    while true
      invariant forall i: nat :: i < round ==> rounds.isZeroLoad(i) != 0 && rounds.elapsed(i) < timeout
      invariant rounds.elapsed(round) <= timeout + POLL_INTERVAL + lateness
      decreases timeout - rounds.elapsed(round)
    {
      if rounds.isZeroLoad(round) == 0 {
        return 0, round;
      }
      if rounds.elapsed(round) >= timeout {
        return rounds.finalLoad(round), round;
      }
      assert rounds.elapsed(round) + POLL_INTERVAL <= rounds.elapsed(round + 1)
          <= rounds.elapsed(round) + POLL_INTERVAL + lateness;
      round := round + 1;
    }
  }

  /** When a listener task ends, if it ever does. */
  datatype Ending = Never | EndsAt(time: nat)

  /** The wait for one listener: how its task ends, and how late the timer of the wait would fire. */
  datatype Wait = Wait(ending: Ending, late: nat)

  /** Waiting from `now`, until the task has ended or the timer fires. */
  function Joined(w: Wait, now: nat, timeout: nat): nat {
    var fires := now + timeout + w.late;
    if w.ending.Never? || fires < w.ending.time then fires
    else if w.ending.time <= now then now
    else w.ending.time
  }

  /** A task that ends before its timer ends the wait, there or at once if it has ended already;
      otherwise the timer does. */
  lemma WaitEndsWithTask(w: Wait, now: nat, timeout: nat)
    ensures w.ending.EndsAt? && w.ending.time <= now ==> Joined(w, now, timeout) == now
    ensures w.ending.EndsAt? && now < w.ending.time <= now + timeout ==> Joined(w, now, timeout) == w.ending.time
    ensures w.ending.Never? ==> Joined(w, now, timeout) == now + timeout + w.late
  {
  }

  function JoinedAll(waits: seq<Wait>, start: nat, timeout: nat): nat {
    if waits == [] then start
    else Joined(waits[|waits| - 1], JoinedAll(waits[..|waits| - 1], start, timeout), timeout)
  }

  ghost predicate Late(waits: seq<Wait>, lateness: nat) {
    forall k :: 0 <= k < |waits| ==> waits[k].late <= lateness
  }

  lemma JoinedOne(w: Wait, now: nat, timeout: nat)
    ensures now <= Joined(w, now, timeout) <= now + timeout + w.late
    ensures (w.ending.EndsAt? && w.ending.time <= Joined(w, now, timeout)) || now + timeout <= Joined(w, now, timeout)
  {
  }

  /** A listener that is still running when the joins are over was waited for in full. */
  lemma {:induction false} WaitedInFull(waits: seq<Wait>, start: nat, timeout: nat, k: nat)
    requires k < |waits|
    ensures || (waits[k].ending.EndsAt? && waits[k].ending.time <= JoinedAll(waits, start, timeout))
            || JoinedAll(waits[..k], start, timeout) + timeout <= JoinedAll(waits, start, timeout)
  {
    hide Joined;
    var init := waits[..|waits| - 1];
    JoinedOne(waits[|init|], JoinedAll(init, start, timeout), timeout);
    if k < |init| {
      WaitedInFull(init, start, timeout, k);
      assert init[..k] == waits[..k];
    }
  }

  /** Joining takes at most the timeout and one lateness per listener. */
  lemma {:induction false} JoinedAllBounds(waits: seq<Wait>, start: nat, timeout: nat, lateness: nat)
    requires Late(waits, lateness)
    ensures start <= JoinedAll(waits, start, timeout) <= start + |waits| * (timeout + lateness)
  {
    hide Joined;
    if waits != [] {
      var init, slice := waits[..|waits| - 1], timeout + lateness;
      JoinedAllBounds(init, start, timeout, lateness);
      JoinedOne(waits[|init|], JoinedAll(init, start, timeout), timeout);
      assert |waits| * slice == |init| * slice + slice;
    }
  }

  /** The whole shutdown takes at most one timeout per listener, one for the drain, one poll interval,
      and the lateness of as many timers as there are listeners and one more; it reports leftover
      connections only when the drain used up its timeout. */
  method ShutDown(waits: seq<Wait>, start: nat, timeout: nat, rounds: Rounds, ghost lateness: nat)
      returns (remaining: nat, end: nat, round: nat)
    requires Late(waits, lateness) && Paced(rounds, lateness)
    ensures end == JoinedAll(waits, start, timeout) + rounds.elapsed(round)
    ensures remaining != 0 ==> JoinedAll(waits, start, timeout) + timeout <= end
    ensures end <= start + (|waits| + 1) * (timeout + lateness) + 100
  {
    var now := JoinAll(waits, start, timeout);
    remaining, round := DrainInFlight(rounds, timeout, lateness);
    end := now + rounds.elapsed(round);
    JoinedAllBounds(waits, start, timeout, lateness);
    hide JoinedAll;
    assert (|waits| + 1) * (timeout + lateness) == |waits| * (timeout + lateness) + timeout + lateness;
  }

  /** The loop over the listener handles. */
  method JoinAll(waits: seq<Wait>, start: nat, timeout: nat) returns (now: nat)
    ensures now == JoinedAll(waits, start, timeout)
  {
    now := start;
    for k := 0 to |waits|
      invariant now == JoinedAll(waits[..k], start, timeout)
    {
      now := Joined(waits[k], now, timeout);
      assert waits[..k + 1][..k] == waits[..k];
    }
    assert waits[..|waits|] == waits;
  }
}
