/** throttle and debounce: wrappers that limit how often a handler runs. Time is not modelled;
    what the host's timer queue does is an event: Call(args) is a call of the wrapper, Expire
    the moment the timer the wrapper scheduled runs its callback. */
module RateLimit {
  import opened Wrappers

  datatype Event<A> = Call(args: A) | Expire

  /** The number of timer expirations in a run of events. */
  function Expirations<A>(events: seq<Event<A>>): nat {
    if events == [] then 0 else (if events[0].Expire? then 1 else 0) + Expirations(events[1..])
  }

  predicate AllCalls<A>(events: seq<Event<A>>) {
    forall i :: 0 <= i < |events| ==> events[i].Call?
  }

  // ---------------------------------------------------------------- throttle

  /** The closure state of throttle: the inThrottle flag (undefined, hence false, at first) and
      the arguments the wrapped function has run with, in order. */
  datatype ThrottleState<A> = ThrottleState(inThrottle: bool, executed: seq<A>)

  /** A call runs the function at once and raises the flag unless the flag is up, in which case
      it is dropped; the timer's callback lowers the flag. */
  function ThrottleStep<A>(st: ThrottleState<A>, e: Event<A>): (r: ThrottleState<A>)
    ensures st.executed <= r.executed && |r.executed| <= |st.executed| + 1
    ensures |r.executed| == |st.executed| + 1 <==> e.Call? && !st.inThrottle
    ensures e.Call? ==> r.inThrottle
    ensures e.Expire? ==> !r.inThrottle
  {
    match e
    case Call(args) => if st.inThrottle then st else ThrottleState(true, st.executed + [args])
    case Expire => ThrottleState(false, st.executed)
  }

  function ThrottleRun<A>(st: ThrottleState<A>, events: seq<Event<A>>): ThrottleState<A>
    decreases |events|
  {
    if events == [] then st else ThrottleRun(ThrottleStep(st, events[0]), events[1..])
  }

  /** At most one run per window: a throttled function runs at most once more than the number
      of times its timer expired (once, if the flag was down at the start). */
  lemma {:induction false} ThrottleBound<A>(st: ThrottleState<A>, events: seq<Event<A>>)
    ensures var r := ThrottleRun(st, events);
      && st.executed <= r.executed
      && |r.executed| <= |st.executed| + Expirations(events) + (if st.inThrottle then 0 else 1)
    decreases |events|
  {
    if events != [] {
      var next := ThrottleStep(st, events[0]);
      ThrottleBound(next, events[1..]);
    }
  }

  /** Leading edge: a burst of calls with no expiration in between runs the function once,
      with the arguments of the first call, and only if the flag was down. */
  lemma {:induction false} ThrottleBurst<A>(st: ThrottleState<A>, events: seq<Event<A>>)
    requires events != [] && AllCalls(events)
    ensures ThrottleRun(st, events) ==
      if st.inThrottle then st else ThrottleState(true, st.executed + [events[0].args])
    decreases |events|
  {
    var next := ThrottleStep(st, events[0]);
    assert next.inThrottle;
    if |events| > 1 {
      assert AllCalls(events[1..]) by {
        forall i | 0 <= i < |events[1..]| ensures events[1..][i].Call? {
          assert events[1..][i] == events[i + 1];
        }
      }
      ThrottleBurst(next, events[1..]);
    }
  }

  /** The throttle closure: the flag, the pending timers it scheduled (the host's share of the
      state) and the runs of the wrapped function. */
  class Throttle<A> {
    const limit: nat
    var inThrottle: bool
    var pendingTimers: nat
    var executed: seq<A>

    /** The flag is up exactly while the one timer that will lower it is pending. */
    predicate Valid()
      reads this
    {
      pendingTimers == if inThrottle then 1 else 0
    }

    function State(): ThrottleState<A>
      reads this
    {
      ThrottleState(inThrottle, executed)
    }

    constructor (limit: nat)
      ensures Valid() && this.limit == limit
      ensures State() == ThrottleState(false, [])
    {
      this.limit := limit;
      inThrottle := false;
      pendingTimers := 0;
      executed := [];
    }

    /** A call of the wrapper: runs the function (recording its arguments) and schedules the
        timer, unless the flag is up. Returns whether the function ran. */
    method Call(args: A) returns (ran: bool)
      requires Valid()
      modifies this
      ensures Valid()
      ensures State() == ThrottleStep(old(State()), Event.Call(args))
      ensures ran == !old(inThrottle)
    {
      ran := !inThrottle;
      if !inThrottle {
        executed := executed + [args];
        inThrottle := true;
        pendingTimers := pendingTimers + 1;
      }
    }

    /** The timer scheduled by a run expires and lowers the flag. */
    method Expire()
      requires Valid() && pendingTimers > 0
      modifies this
      ensures Valid()
      ensures State() == ThrottleStep(old(State()), Event.Expire)
    {
      pendingTimers := pendingTimers - 1;
      inThrottle := false;
    }
  }

  // ---------------------------------------------------------------- debounce

  /** What debounce will do: the arguments of the call whose timer is pending, if any, and the
      arguments the wrapped function has run with, in order. */
  datatype DebounceState<A> = DebounceState(pending: Option<A>, executed: seq<A>)

  /** A call cancels the pending timer and schedules a new one with its own arguments; the
      expiration of the pending timer runs the function with them. */
  function DebounceStep<A>(st: DebounceState<A>, e: Event<A>): (r: DebounceState<A>)
    ensures st.executed <= r.executed && |r.executed| <= |st.executed| + 1
    ensures e.Call? ==> r == DebounceState(Some(e.args), st.executed)
    ensures e.Expire? ==> r.pending.None?
    ensures e.Expire? && st.pending.Some? ==> r.executed == st.executed + [st.pending.value]
  {
    match e
    case Call(args) => DebounceState(Some(args), st.executed)
    case Expire =>
      if st.pending.Some? then DebounceState(None, st.executed + [st.pending.value]) else st
  }

  function DebounceRun<A>(st: DebounceState<A>, events: seq<Event<A>>): DebounceState<A>
    decreases |events|
  {
    if events == [] then st else DebounceRun(DebounceStep(st, events[0]), events[1..])
  }

  /** A debounced function runs at most once per expiration, and only adds to what ran. */
  lemma {:induction false} DebounceBound<A>(st: DebounceState<A>, events: seq<Event<A>>)
    ensures var r := DebounceRun(st, events);
      && st.executed <= r.executed
      && |r.executed| <= |st.executed| + Expirations(events)
    decreases |events|
  {
    if events != [] {
      var next := DebounceStep(st, events[0]);
      DebounceBound(next, events[1..]);
    }
  }

  /** While calls keep coming nothing runs, and the latest call's arguments are pending. */
  lemma {:induction false} DebounceCalls<A>(st: DebounceState<A>, events: seq<Event<A>>)
    requires events != [] && AllCalls(events)
    ensures DebounceRun(st, events) == DebounceState(Some(events[|events| - 1].args), st.executed)
    decreases |events|
  {
    if |events| > 1 {
      assert AllCalls(events[1..]) by {
        forall i | 0 <= i < |events[1..]| ensures events[1..][i].Call? {
          assert events[1..][i] == events[i + 1];
        }
      }
      DebounceCalls(DebounceStep(st, events[0]), events[1..]);
    }
  }

  /** Trailing edge: a burst of calls followed by one expiration runs the function exactly
      once, with the arguments of the last call. */
  lemma {:induction false} DebounceBurst<A>(st: DebounceState<A>, events: seq<Event<A>>)
    requires events != [] && AllCalls(events)
    ensures DebounceRun(st, events + [Expire]) ==
      DebounceState(None, st.executed + [events[|events| - 1].args])
    decreases |events|
  {
    var e := events + [Expire];
    assert e[1..] == events[1..] + [Expire];
    if |events| == 1 {
      var next := DebounceStep(st, events[0]);
      assert e[1..] == [Expire] && e[1..][1..] == [];
      assert DebounceRun(next, e[1..]) == DebounceRun(DebounceStep(next, Expire), e[1..][1..]);
    } else {
      assert AllCalls(events[1..]) by {
        forall i | 0 <= i < |events[1..]| ensures events[1..][i].Call? {
          assert events[1..][i] == events[i + 1];
        }
      }
      DebounceBurst(DebounceStep(st, events[0]), events[1..]);
    }
  }

  /** The debounce closure: the id of the last timer it scheduled (undefined at first), and the
      host's pending timers that it scheduled, each holding the arguments its callback will
      pass; ids come from the host's counter nextId. */
  class Debounce<A> {
    const wait: nat
    var timeout: Option<nat>
    var timers: map<nat, A>
    var nextId: nat
    var executed: seq<A>

    /** Every older timer has been cleared: at most the last one scheduled is pending, and ids
        are fresh. */
    predicate Valid()
      reads this
    {
      && (forall id :: id in timers ==> timeout == Some(id))
      && (timeout.Some? ==> timeout.value < nextId)
    }

    function State(): DebounceState<A>
      reads this
      requires Valid()
    {
      DebounceState(if timeout.Some? && timeout.value in timers then Some(timers[timeout.value]) else None,
                    executed)
    }

    constructor (wait: nat)
      ensures Valid() && this.wait == wait
      ensures timers == map[] && State() == DebounceState(None, [])
    {
      this.wait := wait;
      timeout := None;
      timers := map[];
      nextId := 1;
      executed := [];
    }

    /** clearTimeout on the last id (a no-op if it already ran), then setTimeout with a fresh
        id that carries args. */
    method Call(args: A)
      requires Valid()
      modifies this
      ensures Valid()
      ensures timers == map[old(nextId) := args] && timeout == Some(old(nextId))
      ensures State() == DebounceStep(old(State()), Event.Call(args))
    {
      if timeout.Some? {
        timers := timers - {timeout.value};
      }
      timers := timers[nextId := args];
      timeout := Some(nextId);
      nextId := nextId + 1;
    }

    /** The host runs the callback of pending timer id: it is removed from the queue, the
        callback's clearTimeout(timeout) finds nothing left to clear, and the function runs
        with the arguments the timer holds, which are returned. */
    method Fire(id: nat) returns (args: A)
      requires Valid() && id in timers
      modifies this
      ensures Valid() && timers == map[]
      ensures args == old(timers[id])
      ensures State() == DebounceStep(old(State()), Event.Expire)
    {
      args := timers[id];
      timers := timers - {id};
      if timeout.Some? {
        timers := timers - {timeout.value};
      }
      executed := executed + [args];
    }
  }
}
