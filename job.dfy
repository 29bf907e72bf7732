/** ThreadJob in trfk-sign-label/thread_job.py: a worker that waits on an
    event with a timeout and, each time the wait times out while it is not
    paused, invokes its callback; the event being set ends it, and so does
    an exception from the callback, which nothing in run() catches. Other
    threads pause and resume it.

    Time, the other threads and the callback's outcome are modelled by a
    schedule: the sequence of what happens, in the order it happens, as
    seen by the worker. */
module Job {

  /** One thing that happens while the worker runs. */
  datatype Occurrence =
    | PauseCall   // another thread calls pause()
    | ResumeCall  // another thread calls resume()
    | Timeout     // event.wait(interval) returns False; the callback, if invoked, returns
    | Failure     // event.wait(interval) returns False; the callback, if invoked, raises
    | Set         // the event is set: event.wait returns True

  /** The wait timed out, so the loop body runs. */
  predicate TimedOut(o: Occurrence)
  {
    o == Timeout || o == Failure
  }

  /** The paused flag after the pause and resume calls of `s`, starting
      from `p0`; the last call wins. */
  function PausedAfter(p0: bool, s: seq<Occurrence>): (p: bool)
    ensures s == [] ==> p == p0
    ensures s != [] && s[|s| - 1] == PauseCall ==> p
    ensures s != [] && s[|s| - 1] == ResumeCall ==> !p
    decreases |s|
  {
    if s == [] then p0
    else
      var last := s[|s| - 1];
      if last == PauseCall then true
      else if last == ResumeCall then false
      else PausedAfter(p0, s[..|s| - 1])
  }

  /** run() has returned by the end of `s`: the event was set, or a
      callback invoked with the flag clear raised. */
  predicate Ended(p0: bool, s: seq<Occurrence>)
    decreases |s|
  {
    s != [] &&
    var init := s[..|s| - 1];
    Ended(p0, init) || s[|s| - 1] == Set || (s[|s| - 1] == Failure && !PausedAfter(p0, init))
  }

  /** The positions of `s` at which the worker invokes its callback, in
      increasing order, when the flag starts as `p0`. */
  function Fired(p0: bool, s: seq<Occurrence>): (r: seq<nat>)
    ensures forall j :: 0 <= j < |r| ==> r[j] < |s| && TimedOut(s[r[j]])
    ensures forall j, k :: 0 <= j < k < |r| ==> r[j] < r[k]
    decreases |s|
  {
    if s == [] then []
    else
      var init := s[..|s| - 1];
      Fired(p0, init) +
        (if TimedOut(s[|s| - 1]) && !Ended(p0, init) && !PausedAfter(p0, init) then [|s| - 1] else [])
  }

  /** The number of occurrences the worker takes in: all of them up to and
      including the one that ends it, or the whole schedule. */
  function Consumed(p0: bool, s: seq<Occurrence>): (n: nat)
    ensures n <= |s|
    ensures Ended(p0, s) ==> 0 < n && Ended(p0, s[..n]) && !Ended(p0, s[..n - 1])
    ensures !Ended(p0, s) ==> n == |s|
    decreases |s|
  {
    if s == [] then 0
    else
      var init := s[..|s| - 1];
      if Ended(p0, init) then
        var n := Consumed(p0, init);
        assert init[..n] == s[..n] && init[..n - 1] == s[..n - 1];
        n
      else
        assert s[..|s|] == s;
        |s|
  }

  class ThreadJob {
    /** The flag pause() and resume() set. */
    var paused: bool
    /** Seconds the worker waits on the event per round. */
    const interval: real

    /** A new worker starts paused. */
    constructor(interval: real)
      ensures paused && this.interval == interval
    {
      this.interval := interval;
      paused := true;
    }

    method Pause()
      modifies this`paused
      ensures paused
    {
      paused := true;
    }

    method Resume()
      modifies this`paused
      ensures !paused
    {
      paused := false;
    }

    /** run(): `while not event.wait(interval): if not paused: callback()`,
        with the pause and resume calls of other threads applied as they
        occur, ending when the event is set or the callback raises. Returns
        the positions of the schedule at which the callback is invoked. */
    method Run(schedule: seq<Occurrence>) returns (fired: seq<nat>)
      modifies this`paused
      ensures fired == Fired(old(paused), schedule)
      ensures paused == PausedAfter(old(paused), schedule[..Consumed(old(paused), schedule)])
    {
      fired := [];
      var i := 0;
      while i < |schedule|
        invariant 0 <= i <= |schedule|
        invariant !Ended(old(paused), schedule[..i])
        invariant fired == Fired(old(paused), schedule[..i])
        invariant paused == PausedAfter(old(paused), schedule[..i])
      {
        RunStep(old(paused), schedule, i);
        match schedule[i] {
          case Set =>
            RunStops(old(paused), schedule, i);
            break;
          case PauseCall =>
            Pause();
          case ResumeCall =>
            Resume();
          case Timeout =>
            if !paused {
              fired := fired + [i];
            }
          case Failure =>
            if !paused {
              fired := fired + [i];
              RunStops(old(paused), schedule, i);
              break;
            }
        }
        i := i + 1;
      }
      if i == |schedule| {
        assert schedule[..i] == schedule;
      }
    }
  }

  /** One occurrence taken in by the loop while the worker still runs. */
  lemma RunStep(p0: bool, schedule: seq<Occurrence>, i: nat)
    requires i < |schedule| && !Ended(p0, schedule[..i])
    ensures Ended(p0, schedule[..i + 1]) <==>
              schedule[i] == Set || (schedule[i] == Failure && !PausedAfter(p0, schedule[..i]))
    ensures Fired(p0, schedule[..i + 1]) ==
              Fired(p0, schedule[..i]) + (if TimedOut(schedule[i]) && !PausedAfter(p0, schedule[..i]) then [i] else [])
    ensures PausedAfter(p0, schedule[..i + 1]) ==
              if schedule[i] == PauseCall then true
              else if schedule[i] == ResumeCall then false
              else PausedAfter(p0, schedule[..i])
  {
    assert schedule[..i + 1][..i] == schedule[..i];
  }

  /** The occurrence that ends the worker is the last it takes in: nothing
      later fires. */
  lemma RunStops(p0: bool, schedule: seq<Occurrence>, i: nat)
    requires i < |schedule| && !Ended(p0, schedule[..i]) && Ended(p0, schedule[..i + 1])
    ensures Fired(p0, schedule) == Fired(p0, schedule[..i + 1])
    ensures Consumed(p0, schedule) == i + 1
  {
    assert schedule == schedule[..i + 1] + schedule[i + 1..];
    assert schedule[..i + 1][..i] == schedule[..i];
    NothingAfterEnd(p0, schedule[..i + 1], schedule[i + 1..]);
    ConsumedToEnd(p0, schedule[..i + 1], schedule[i + 1..]);
  }

  /** Once the worker has ended it stays ended, and nothing more fires. */
  lemma {:induction false} NothingAfterEnd(p0: bool, s: seq<Occurrence>, t: seq<Occurrence>)
    requires Ended(p0, s)
    ensures Ended(p0, s + t)
    ensures Fired(p0, s + t) == Fired(p0, s)
    decreases |t|
  {
    if t == [] {
      assert s + t == s;
    } else {
      var init := t[..|t| - 1];
      NothingAfterEnd(p0, s, init);
      var u := s + t;
      assert u[..|u| - 1] == s + init;
    }
  }

  /** The worker takes in exactly the occurrences up to the one that ends
      it. */
  lemma {:induction false} ConsumedToEnd(p0: bool, s: seq<Occurrence>, t: seq<Occurrence>)
    requires s != [] && Ended(p0, s) && !Ended(p0, s[..|s| - 1])
    ensures Consumed(p0, s + t) == |s|
    decreases |t|
  {
    if t == [] {
      assert s + t == s;
    } else {
      var init := t[..|t| - 1];
      ConsumedToEnd(p0, s, init);
      NothingAfterEnd(p0, s, init);
      var u := s + t;
      assert u[..|u| - 1] == s + init;
    }
  }

  /** Setting the event ends the worker: nothing after it fires. */
  lemma NothingAfterSet(p0: bool, s: seq<Occurrence>, t: seq<Occurrence>)
    ensures Fired(p0, s + [Set] + t) == Fired(p0, s)
  {
    var u := s + [Set];
    assert u[..|u| - 1] == s;
    NothingAfterEnd(p0, u, t);
  }

  /** A callback that raises ends the worker for good: it was invoked at
      that timeout, and no later resume or timeout invokes it again. */
  lemma FailureEndsWorker(p0: bool, s: seq<Occurrence>, t: seq<Occurrence>)
    requires !Ended(p0, s) && !PausedAfter(p0, s)
    ensures Fired(p0, s + [Failure] + t) == Fired(p0, s) + [|s|]
    ensures Consumed(p0, s + [Failure] + t) == |s| + 1
  {
    var u := s + [Failure];
    assert u[..|u| - 1] == s;
    NothingAfterEnd(p0, u, t);
    ConsumedToEnd(p0, u, t);
  }

  /** A callback that would raise is harmless while the worker is paused:
      it is not invoked, and the worker goes on. */
  lemma PausedFailureHarmless(p0: bool, s: seq<Occurrence>)
    requires !Ended(p0, s) && PausedAfter(p0, s)
    ensures !Ended(p0, s + [Failure])
    ensures Fired(p0, s + [Failure]) == Fired(p0, s)
  {
    var u := s + [Failure];
    assert u[..|u| - 1] == s;
  }

  /** Which positions fire, stated directly: a timed-out wait, before the
      worker has ended and with the flag clear at that moment. */
  lemma {:induction false} FiredIff(p0: bool, s: seq<Occurrence>, i: nat)
    ensures i in Fired(p0, s) <==>
              i < |s| && TimedOut(s[i]) && !Ended(p0, s[..i]) && !PausedAfter(p0, s[..i])
    decreases |s|
  {
    if s != [] {
      var init := s[..|s| - 1];
      FiredIff(p0, init, i);
      if i < |s| - 1 {
        assert s[..i] == init[..i];
      } else if i == |s| - 1 {
        assert s[..i] == init;
        assert i !in Fired(p0, init);
      }
    }
  }

  /** A worker that stays paused never invokes its callback, however many
      times its wait times out. */
  lemma {:induction false} PausedNeverFires(s: seq<Occurrence>)
    requires forall k :: 0 <= k < |s| ==> s[k] != ResumeCall
    ensures Fired(true, s) == []
    decreases |s|
  {
    if s != [] {
      PausedNeverFires(s[..|s| - 1]);
      StaysPaused(s[..|s| - 1]);
    }
  }

  /** Without a resume call the flag stays set. */
  lemma {:induction false} StaysPaused(s: seq<Occurrence>)
    requires forall k :: 0 <= k < |s| ==> s[k] != ResumeCall
    ensures PausedAfter(true, s)
    decreases |s|
  {
    if s != [] {
      StaysPaused(s[..|s| - 1]);
    }
  }

  /** A pause issued at any point keeps the flag set until a resume call. */
  lemma {:induction false} StaysPausedAfter(p0: bool, s: seq<Occurrence>, t: seq<Occurrence>)
    requires forall k :: 0 <= k < |t| ==> t[k] != ResumeCall
    ensures PausedAfter(p0, s + [PauseCall] + t)
    decreases |t|
  {
    var u := s + [PauseCall] + t;
    if t == [] {
      assert u[|u| - 1] == PauseCall;
    } else {
      var init := t[..|t| - 1];
      StaysPausedAfter(p0, s, init);
      assert u[..|u| - 1] == s + [PauseCall] + init;
    }
  }

  /** pause() followed by any number of timeouts, with no resume call in
      between, invokes the callback no more times. */
  lemma {:induction false} PauseThenTimeoutsSilent(p0: bool, s: seq<Occurrence>, t: seq<Occurrence>)
    requires forall k :: 0 <= k < |t| ==> t[k] != ResumeCall
    ensures Fired(p0, s + [PauseCall] + t) == Fired(p0, s)
    decreases |t|
  {
    var u := s + [PauseCall] + t;
    if t == [] {
      assert u == s + [PauseCall];
      assert u[..|u| - 1] == s;
    } else {
      var init := t[..|t| - 1];
      PauseThenTimeoutsSilent(p0, s, init);
      StaysPausedAfter(p0, s, init);
      assert u[..|u| - 1] == s + [PauseCall] + init;
    }
  }

  /** A resume followed by a timeout, while the worker runs, fires the
      callback at that timeout. */
  lemma ResumeThenTimeoutFires(p0: bool, s: seq<Occurrence>)
    requires !Ended(p0, s)
    ensures Fired(p0, s + [ResumeCall, Timeout]) == Fired(p0, s) + [|s| + 1]
  {
    var v := s + [ResumeCall];
    assert v[..|s|] == s;
    assert !Ended(p0, v) && !PausedAfter(p0, v) && Fired(p0, v) == Fired(p0, s);
    var u := v + [Timeout];
    assert u == s + [ResumeCall, Timeout];
    assert u[..|u| - 1] == v;
  }

  /** A pause takes effect at once: a timeout right after it does not fire. */
  lemma PauseThenTimeoutSilent(p0: bool, s: seq<Occurrence>)
    ensures Fired(p0, s + [PauseCall, Timeout]) == Fired(p0, s)
  {
    var u := s + [PauseCall, Timeout];
    assert u[..|u| - 1] == s + [PauseCall];
    assert (s + [PauseCall])[..|s|] == s;
  }
}
