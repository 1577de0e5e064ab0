/** The heartbeat of one connection (index.js, lines 227 to 242) as a state
    machine over discrete events. `Tick` is the 5-second interval firing: it
    pings and arms the 1-second death timer. `Pong` is the client's answer: it
    clears the death timer. `DeathFire` is the death timer firing: it marks the
    connection dead, stops the interval, terminates the connection and
    broadcasts presence. A cleared interval or timer fires no more, so those
    events then change nothing. */
module Liveness {

  /** `isAlive` is the connection's flag; `intervalActive` says the interval
      `connection.timer` has not been cleared; `deathArmed` says the timeout
      `connection.deathTimer` is pending; `terminated` says
      `connection.terminate()` has been called. */
  datatype LiveState = LiveState(isAlive: bool, intervalActive: bool, deathArmed: bool, terminated: bool)

  datatype LiveEvent = Tick | Pong | DeathFire

  /** What an event does beyond the state: nothing, one ping frame, or the
      eviction (terminate and one presence broadcast). */
  datatype LiveEffect = Quiet | Ping | Evict

  datatype StepResult = StepResult(next: LiveState, effect: LiveEffect)

  datatype Trace = Trace(final: LiveState, effects: seq<LiveEffect>)

  /** The state right after line 229: alive, interval running, no timer armed. */
  const Initial := LiveState(true, true, false, false)

  /** The states reachable from `Initial`: alive, interval running and not
      terminated go together, and a dead connection has no timer pending. */
  predicate Valid(s: LiveState) {
    && s.isAlive == s.intervalActive
    && s.isAlive == !s.terminated
    && (!s.isAlive ==> !s.deathArmed)
  }

  /** One event. */
  function Step(s: LiveState, e: LiveEvent): (r: StepResult)
    ensures Valid(s) ==> Valid(r.next)
    ensures r.next.isAlive ==> s.isAlive
  {
    match e
    case Tick =>
      if s.intervalActive then StepResult(s.(deathArmed := true), Ping) else StepResult(s, Quiet)
    case Pong =>
      StepResult(s.(deathArmed := false), Quiet)
    case DeathFire =>
      if s.deathArmed then StepResult(LiveState(false, false, false, true), Evict) else StepResult(s, Quiet)
  }

  /** A sequence of events, one effect per event. */
  function Run(s: LiveState, es: seq<LiveEvent>): (t: Trace)
    ensures |t.effects| == |es|
    ensures Valid(s) ==> Valid(t.final)
    ensures t.final.isAlive ==> s.isAlive
    decreases |es|
  {
    if es == [] then Trace(s, [])
    else
      var r := Step(s, es[0]);
      var rest := Run(r.next, es[1..]);
      Trace(rest.final, [r.effect] + rest.effects)
  }

  /** A dead connection stays as it is whatever happens: never alive again,
      no further ping, no further eviction. */
  lemma {:induction false} DeadIsTerminal(s: LiveState, es: seq<LiveEvent>)
    requires Valid(s) && !s.isAlive
    ensures Run(s, es).final == s
    ensures forall k :: 0 <= k < |es| ==> Run(s, es).effects[k] == Quiet
    decreases |es|
  {
    if es != [] {
      DeadIsTerminal(s, es[1..]);
    }
  }

  /** A connection is evicted at most once, and exactly once if it goes from
      alive to dead. */
  lemma {:induction false} EvictedOnce(s: LiveState, es: seq<LiveEvent>)
    requires Valid(s)
    ensures multiset(Run(s, es).effects)[Evict] == if s.isAlive && !Run(s, es).final.isAlive then 1 else 0
    decreases |es|
  {
    if es != [] {
      var r := Step(s, es[0]);
      var rest := Run(r.next, es[1..]);
      EvictedOnce(r.next, es[1..]);
      assert Run(s, es).effects == [r.effect] + rest.effects;
      assert multiset(Run(s, es).effects)[Evict] == (if r.effect == Evict then 1 else 0) + multiset(rest.effects)[Evict];
    }
  }

  /** After the eviction every later event is quiet. */
  lemma {:induction false} NothingAfterEviction(s: LiveState, es: seq<LiveEvent>, k: nat)
    requires Valid(s) && k < |es| && Run(s, es).effects[k] == Evict
    ensures !Run(s, es).final.isAlive
    ensures forall m :: k < m < |es| ==> Run(s, es).effects[m] == Quiet
    decreases |es|
  {
    var r := Step(s, es[0]);
    var rest := Run(r.next, es[1..]);
    if k == 0 {
      DeadIsTerminal(r.next, es[1..]);
      assert forall m :: 0 < m < |es| ==> Run(s, es).effects[m] == rest.effects[m - 1];
    } else {
      NothingAfterEviction(r.next, es[1..], k - 1);
      assert forall m :: 0 < m < |es| ==> Run(s, es).effects[m] == rest.effects[m - 1];
    }
  }

  /** An eviction at position `k` has a cause: the death timer was already
      armed at the start (`j == -1`) or a ping at `j` armed it, and no pong came
      in between. Starting with no timer armed, there is always such a ping. */
  lemma {:induction false} EvictionCause(s: LiveState, es: seq<LiveEvent>, k: nat) returns (j: int)
    requires k < |es| && Run(s, es).effects[k] == Evict
    ensures -1 <= j < k
    ensures j == -1 ==> s.deathArmed
    ensures !s.deathArmed ==> 0 <= j
    ensures 0 <= j ==> es[j] == Tick && Run(s, es).effects[j] == Ping
    ensures forall m :: j < m < k ==> es[m] != Pong
    decreases |es|
  {
    var r := Step(s, es[0]);
    var rest := Run(r.next, es[1..]);
    assert forall m :: 0 < m < |es| ==> Run(s, es).effects[m] == rest.effects[m - 1] && es[m] == es[1..][m - 1];
    if k == 0 {
      j := -1;
    } else {
      var j' := EvictionCause(r.next, es[1..], k - 1);
      if j' == -1 {
        if es[0] == Tick && s.intervalActive {
          j := 0;
        } else {
          j := -1;
        }
      } else {
        j := j' + 1;
      }
    }
  }
}
