/** The drain of src/server.rs over the connections it waits for: its loads are the counter of a run of
    the server that goes on meanwhile. */
module Draining {
  import opened Lifecycle
  import Shutdown

  /** `run(2 * i)` and `run(2 * i + 1)` are what has happened by the two loads of round `i`. */
  ghost predicate Observes(rounds: Shutdown.Rounds, max: nat, listeners: nat, run: nat -> seq<Event>) {
    && (forall i: nat, j: nat :: i <= j ==> run(i) <= run(j))
    && (forall i: nat :: rounds.isZeroLoad(i) == After(max, listeners, run(2 * i)).counter)
    && (forall i: nat :: rounds.finalLoad(i) == After(max, listeners, run(2 * i + 1)).counter)
  }

  /** After a zero load of a closing server nothing is left, then or later. */
  lemma DrainedForGood(max: nat, listeners: nat, events: seq<Event>, later: seq<Event>)
    requires Closing(After(max, listeners, events)) && After(max, listeners, events).counter == 0 && events <= later
    ensures After(max, listeners, later).tasks == map[]
  {
    hide After;
    assert later == events + later[|events|..];
    ClosingOnlyDrains(max, listeners, events, later[|events|..]);
  }

  /** What the result of the drain says about the server: `seen` is the run up to the load that decided.
      Zero means, if by then every listener had stopped and every task had been polled, that no
      connection is left, then or at any later point; any other result is the number of tasks polled
      and unfinished at that load, after the timeout. */
  method DrainServer(rounds: Shutdown.Rounds, max: nat, listeners: nat, ghost run: nat -> seq<Event>, timeout: nat,
                     ghost lateness: nat)
      returns (remaining: nat, round: nat, ghost seen: seq<Event>)
    requires Shutdown.Paced(rounds, lateness) && Observes(rounds, max, listeners, run)
    ensures seen == run(2 * round) || seen == run(2 * round + 1)
    ensures remaining == |Counted(After(max, listeners, seen))|
    ensures remaining == 0 && Closing(After(max, listeners, seen)) ==>
              forall later :: seen <= later ==> After(max, listeners, later).tasks == map[]
    ensures remaining != 0 ==> timeout <= rounds.elapsed(round)
  {
    remaining, round := Shutdown.DrainInFlight(rounds, timeout, lateness);
    seen := if rounds.isZeroLoad(round) == 0 then run(2 * round) else run(2 * round + 1);
    InFlightCounter(max, listeners, seen);
    hide After, Closing;
    if remaining == 0 && Closing(After(max, listeners, seen)) {
      forall later | seen <= later
        ensures After(max, listeners, later).tasks == map[]
      {
        DrainedForGood(max, listeners, seen, later);
      }
    }
  }
}
