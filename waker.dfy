/** `MainThreadWaker` (`a2lib/main_thread_waker.py`): a one-shot flag that
    lets a worker thread interrupt the main thread once. A worker sends the
    process SIGILL; the registered handler raises `WakingMainThread` in the
    main thread the first time and only reports later times. Signal delivery
    itself is not modelled: a wake is a call of the handler. */
module Waker {

  /** What `wake_main_thread` leads to: the handler raised, the handler saw
      the flag already set, or no handler was registered and SIGILL's
      default action ended the process. */
  datatype Delivery = Raised | AlreadyWoken | Terminated

  /** The calls that read or write `_woken`. */
  datatype Call = MainAwake | Handler

  /** Whether a call raises `WakingMainThread`: a handler call on a clear flag. */
  predicate RaisesOn(woken: bool, c: Call) {
    c.Handler? && !woken
  }

  /** `_woken` after the calls, in order: `_wake_handler` and `main_awake`
      both set it. */
  function Final(woken: bool, calls: seq<Call>): bool
    decreases |calls|
  {
    if calls == [] then woken else Final(true, calls[1..])
  }

  /** How many of the calls raise. */
  function Raises(woken: bool, calls: seq<Call>): nat
    decreases |calls|
  {
    if calls == [] then 0
    else (if RaisesOn(woken, calls[0]) then 1 else 0) + Raises(true, calls[1..])
  }

  /** The flag is never cleared. */
  lemma {:induction false} FinalMonotone(woken: bool, calls: seq<Call>)
    ensures woken ==> Final(woken, calls)
    ensures calls != [] ==> Final(woken, calls)
    decreases |calls|
  {
    if calls != [] {
      FinalMonotone(true, calls[1..]);
    }
  }

  /** Once the flag is set, no call raises. */
  lemma {:induction false} NoRaiseWhenWoken(calls: seq<Call>)
    ensures Raises(true, calls) == 0
  {
    if calls != [] {
      NoRaiseWhenWoken(calls[1..]);
    }
  }

  /** The wake happens once: at most one call raises, and one does exactly
      when the flag starts clear and the first call is a handler call (a
      `main_awake` first means no handler call ever raises). */
  lemma WakeOnce(woken: bool, calls: seq<Call>)
    ensures Raises(woken, calls) <= 1
    ensures Raises(woken, calls) == 1 <==> !woken && calls != [] && calls[0] == Handler
  {
    if calls != [] {
      NoRaiseWhenWoken(calls[1..]);
    }
  }

  /** After `main_awake`, whatever calls follow, none raises. */
  lemma NoRaiseAfterMainAwake(before: seq<Call>, after: seq<Call>)
    ensures Raises(Final(false, before + [MainAwake]), after) == 0
  {
    FinalMonotone(false, before + [MainAwake]);
    NoRaiseWhenWoken(after);
  }

  /** The class and its class attribute `_woken`. The handler registration
      is kept as a flag so that a wake without a handler can be told apart. */
  class MainThreadWaker {
    var woken: bool
    var registered: bool

    /** The class as first imported: `_woken = False`, no handler. */
    constructor ()
      ensures !woken && !registered
    {
      woken := false;
      registered := false;
    }

    /** `register`: installs the handler; the flag is untouched. */
    method Register()
      modifies this
      ensures registered && woken == old(woken)
    {
      registered := true;
    }

    /** `main_awake`: the main thread says it is already awake. */
    method MainAwake()
      modifies this
      ensures woken
      ensures registered == old(registered)
    {
      woken := true;
    }

    /** `_wake_handler`: raises (`raised`) iff the flag was clear, and sets it. */
    method WakeHandler() returns (raised: bool)
      modifies this
      ensures raised == RaisesOn(old(woken), Handler)
      ensures woken
      ensures registered == old(registered)
    {
      if !woken {
        woken := true;
        raised := true;
      } else {
        raised := false;
      }
    }

    /** `wake_main_thread`: SIGILL to the own process runs the handler when
        one is registered; otherwise the process ends. */
    method WakeMainThread() returns (d: Delivery)
      modifies this
      ensures !old(registered) ==> d == Terminated && woken == old(woken)
      ensures old(registered) ==> woken && (d == Raised <==> !old(woken))
      ensures old(registered) ==> d != Terminated
      ensures registered == old(registered)
    {
      if !registered {
        d := Terminated;
      } else {
        var raised := WakeHandler();
        d := if raised then Raised else AlreadyWoken;
      }
    }

    /** Runs the calls in order and counts the raises. */
    method Run(calls: seq<Call>) returns (raises: nat)
      modifies this
      ensures raises == Raises(old(woken), calls)
      ensures woken == Final(old(woken), calls)
      ensures registered == old(registered)
    {
      raises := 0;
      var i := 0;
      while i < |calls|
        invariant 0 <= i <= |calls|
        invariant registered == old(registered)
        invariant Final(woken, calls[i..]) == Final(old(woken), calls)
        invariant raises + Raises(woken, calls[i..]) == Raises(old(woken), calls)
      {
        assert calls[i..][1..] == calls[i + 1..];
        if calls[i] == Handler {
          var raised := WakeHandler();
          if raised {
            raises := raises + 1;
          }
        } else {
          MainAwake();
        }
        i := i + 1;
      }
    }
  }
}
