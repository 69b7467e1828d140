/**
  `debounce(func, wait)` of content.js on a logical clock. The closure keeps one timeout
  handle; every call clears it and sets a new timeout `wait` later with that call's
  arguments. `setTimeout` and `clearTimeout` become a pending timer that the clock
  reaching its due time fires.
 */
module Debounce {
  import opened Wrappers

  /** The delay `debouncedInitializeHighlights` is built with. */
  const HighlightDelay: nat := 100

  /** A pending timeout: when it is due and the arguments `func` will get. */
  datatype Timer<A> = Timer(due: int, args: A)

  /** A call of the debounced function, or the clock reaching a time. */
  datatype Event<A> = Call(at: int, args: A) | Tick(at: int)

  /**
    One event. A call cancels whatever is pending and arms a timer `wait` later; the
    clock reaching a pending timer's due time runs `func` with its arguments.
   */
  function Step<A>(wait: nat, pending: Option<Timer<A>>, ev: Event<A>): (Option<Timer<A>>, Option<A>) {
    match ev
    case Call(now, args) => (Some(Timer(now + wait, args)), None)
    case Tick(now) =>
      if pending.Some? && pending.value.due <= now then (None, Some(pending.value.args))
      else (pending, None)
  }

  /** A fresh debounced function run through `evs`: what is pending, and every run of `func`. */
  function Run<A>(wait: nat, evs: seq<Event<A>>): (Option<Timer<A>>, seq<A>)
    decreases |evs|
  {
    if evs == [] then (None, [])
    else
      var (pending, fired) := Run(wait, evs[..|evs| - 1]);
      var (pending', f) := Step(wait, pending, evs[|evs| - 1]);
      (pending', fired + (if f.Some? then [f.value] else []))
  }

  /** The latest call in `evs`. */
  function LastCall<A>(evs: seq<Event<A>>): Option<Event<A>>
    decreases |evs|
  {
    if evs == [] then None
    else if evs[|evs| - 1].Call? then Some(evs[|evs| - 1])
    else LastCall(evs[..|evs| - 1])
  }

  /** The timer the latest call armed. */
  function TimerOf<A>(wait: nat, call: Event<A>): Timer<A>
    requires call.Call?
  {
    Timer(call.at + wait, call.args)
  }

  /** The latest call, if any, is a call. */
  lemma {:induction false} LastCallIsCall<A>(evs: seq<Event<A>>)
    ensures LastCall(evs).Some? ==> LastCall(evs).value.Call?
    decreases |evs|
  {
    if evs != [] && !evs[|evs| - 1].Call? {
      LastCallIsCall(evs[..|evs| - 1]);
    }
  }

  /**
    At most one timeout is ever pending, and it is the one the latest call armed: every
    earlier call's timeout was cleared.
   */
  lemma {:induction false} PendingIsLatest<A>(wait: nat, evs: seq<Event<A>>)
    ensures Run(wait, evs).0.Some? ==>
              LastCall(evs).Some? && LastCall(evs).value.Call?
              && Run(wait, evs).0.value == TimerOf(wait, LastCall(evs).value)
    decreases |evs|
  {
    if evs != [] {
      PendingIsLatest(wait, evs[..|evs| - 1]);
    }
  }

  /**
    Every tick in `evs` comes after some call and before the latest call's timeout is due:
    the burst of calls is still going on.
   */
  ghost predicate InBurst<A>(wait: nat, evs: seq<Event<A>>) {
    forall i :: 0 <= i < |evs| && evs[i].Tick? ==>
      LastCall(evs[..i]).Some? && LastCall(evs[..i]).value.Call?
      && evs[i].at < LastCall(evs[..i]).value.at + wait
  }

  lemma InBurstPrefix<A>(wait: nat, evs: seq<Event<A>>)
    requires evs != [] && InBurst(wait, evs)
    ensures InBurst(wait, evs[..|evs| - 1])
  {
    var front := evs[..|evs| - 1];
    forall i | 0 <= i < |front| && front[i].Tick?
      ensures LastCall(front[..i]).Some? && LastCall(front[..i]).value.Call?
      ensures front[i].at < LastCall(front[..i]).value.at + wait
    {
      assert front[i] == evs[i];
      assert front[..i] == evs[..i];
    }
  }

  /**
    During a burst nothing runs, and the only pending timeout is the latest call's.
   */
  lemma {:induction false} BurstRunsNothing<A>(wait: nat, evs: seq<Event<A>>)
    requires InBurst(wait, evs)
    ensures Run(wait, evs).1 == []
    ensures Run(wait, evs).0 ==
              if LastCall(evs).Some? then Some(TimerOf(wait, LastCall(evs).value)) else None
    decreases |evs|
  {
    LastCallIsCall(evs);
    if evs != [] {
      var front := evs[..|evs| - 1];
      InBurstPrefix(wait, evs);
      BurstRunsNothing(wait, front);
      assert evs[..|evs| - 1] == front;
    }
  }

  /**
    A burst followed by the clock reaching the latest call's due time runs `func` exactly
    once, with the latest call's arguments, and leaves nothing pending.
   */
  lemma BurstThenQuiet<A>(wait: nat, evs: seq<Event<A>>, t: int)
    requires InBurst(wait, evs) && LastCall(evs).Some? && LastCall(evs).value.Call?
    requires t >= LastCall(evs).value.at + wait
    ensures Run(wait, evs + [Tick(t)]) == (None, [LastCall(evs).value.args])
  {
    BurstRunsNothing(wait, evs);
    var all := evs + [Tick(t)];
    assert all[..|all| - 1] == evs;
    assert all[|all| - 1] == Tick(t);
    var args := LastCall(evs).value.args;
    assert Run(wait, evs).1 + [args] == [args];
  }

  /** The closure `debounce` returns, with its captured `timeout`. */
  class Debouncer<A> {
    const wait: nat
    var pending: Option<Timer<A>>

    constructor(wait: nat)
      ensures this.wait == wait && pending == None
    {
      this.wait := wait;
      pending := None;
    }

    /** Calling the debounced function: `clearTimeout(timeout)` then a new `setTimeout`. */
    method Call(now: int, args: A)
      modifies this
      ensures (pending, None) == Step(wait, old(pending), Event.Call(now, args))
    {
      pending := Some(Timer(now + wait, args));
    }

    /** The clock reaches `now`: a due timeout runs `func` and is spent. */
    method Tick(now: int) returns (fired: Option<A>)
      modifies this
      ensures (pending, fired) == Step(wait, old(pending), Event.Tick(now))
    {
      fired := None;
      if pending.Some? && pending.value.due <= now {
        fired := Some(pending.value.args);
        pending := None;
      }
    }
  }

  /**
    `debouncedInitializeHighlights`: two mutations 50 apart, the clock at 120 (too early for
    the second call's timeout) and then at 150. The scan runs once, at 150, with the second
    call's arguments.
   */
  method HighlightBurst<A>(first: A, second: A) returns (early: Option<A>, late: Option<A>)
    ensures early == None && late == Some(second)
  {
    var d := new Debouncer<A>(HighlightDelay);
    d.Call(0, first);
    d.Call(50, second);
    early := d.Tick(120);
    late := d.Tick(150);
  }
}
