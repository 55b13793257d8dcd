/** The debounce-and-close machinery that `Library` and `TokenStore` share:
    the `refreshTimer` handle, the timers behind it, the `done` channel and
    the once-only `Close` with its remembered error. Timers are numbered in
    the order they are created; a timer's callback is split into two steps,
    `Fire` (the callback starts: the refresh runs) and the handle clearing
    under `refreshMu` that ends it, so that other calls can interleave with
    a running callback as they can in the source. */
module Debounce {
  import opened Common

  /** The timers a call to `Stop` on the handle can reach. */
  function Handle(pending: Option<nat>): (r: set<nat>)
    ensures pending.None? <==> r == {}
    ensures pending.Some? ==> r == {pending.value}
  {
    if pending.Some? then {pending.value} else {}
  }

  class Debouncer {
    /** `refreshTimer`: nil, or the timer last armed. */
    var pending: Option<nat>
    /** Timers armed and neither stopped nor fired yet. */
    var armed: set<nat>
    /** Timers whose callback has started and not yet finished. */
    var firing: set<nat>
    /** The number of timers created so far. */
    var created: nat
    /** `done` has been closed: `Close` has run. */
    var closed: bool
    /** The error `Close` remembers from closing the watcher. */
    var closeErr: Option<Error>

    /** Bookkeeping every state keeps: identifiers name created timers and
        a timer is never both armed and firing. */
    ghost predicate Wf()
      reads this
    {
      && (forall t :: t in armed ==> t < created)
      && (forall t :: t in firing ==> t < created)
      && armed !! firing
      && (pending.Some? ==> pending.value < created)
    }

    /** The debounce guarantee: at most one timer is armed, it is the one
        the handle names, and a closed machine has no handle (so nothing is
        armed once closed). */
    ghost predicate Debounced()
      reads this
    {
      && Wf()
      && armed <= Handle(pending)
      && (closed ==> pending.None?)
    }

    constructor ()
      ensures Debounced()
      ensures pending.None? && armed == {} && firing == {} && created == 0
      ensures !closed && closeErr.None?
    {
      pending, armed, firing, created := None, {}, {}, 0;
      closed, closeErr := false, None;
    }

    /** The part of `scheduleRefresh` that runs under `refreshMu`: stop the
        timer the handle names (a no-op if it already fired) and arm a new
        one. It does not look at `done`; on a closed machine it leaves a
        timer armed that nothing will stop. */
    method Arm()
      requires Wf()
      modifies this
      ensures Wf()
      ensures pending == Some(old(created))
      ensures armed == old(armed) - Handle(old(pending)) + {old(created)}
      ensures firing == old(firing) && created == old(created) + 1
      ensures closed == old(closed) && closeErr == old(closeErr)
      ensures old(Debounced()) ==> (Debounced() <==> !closed)
    {
      armed := armed - Handle(pending) + {created};
      pending := Some(created);
      created := created + 1;
    }

    /** `scheduleRefresh`, with the test of `done` and the arming done as
        one step: nothing once closed; otherwise `Arm`. */
    method Schedule()
      requires Wf()
      modifies this
      ensures Wf()
      ensures old(closed) ==> unchanged(this)
      ensures !old(closed) ==>
        && pending == Some(old(created))
        && armed == old(armed) - Handle(old(pending)) + {old(created)}
        && firing == old(firing) && created == old(created) + 1
        && closed == old(closed) && closeErr == old(closeErr)
      ensures old(Debounced()) ==> Debounced()
    {
      if closed {
        return;
      }
      Arm();
    }

    /** Timer `t` fires: its callback starts. */
    method Fire(t: nat)
      requires Wf() && t in armed
      modifies this
      ensures Wf()
      ensures armed == old(armed) - {t} && firing == old(firing) + {t}
      ensures pending == old(pending) && created == old(created)
      ensures closed == old(closed) && closeErr == old(closeErr)
      ensures old(Debounced()) ==> Debounced()
    {
      armed := armed - {t};
      firing := firing + {t};
    }

    /** The end of timer `t`'s callback in `Library`: the handle is cleared
        only if it still names `t`. */
    method Finish(t: nat)
      requires Wf() && t in firing
      modifies this
      ensures Wf()
      ensures firing == old(firing) - {t}
      ensures pending == (if old(pending) == Some(t) then None else old(pending))
      ensures armed == old(armed) && created == old(created)
      ensures closed == old(closed) && closeErr == old(closeErr)
      ensures old(Debounced()) ==> Debounced()
    {
      firing := firing - {t};
      if pending == Some(t) {
        pending := None;
      }
    }

    /** The end of timer `t`'s callback in `TokenStore`: the handle is
        cleared whatever it names. */
    method FinishUnguarded(t: nat)
      requires Wf() && t in firing
      modifies this
      ensures Wf()
      ensures firing == old(firing) - {t} && pending.None?
      ensures armed == old(armed) && created == old(created)
      ensures closed == old(closed) && closeErr == old(closeErr)
    {
      firing := firing - {t};
      if pending.Some? {
        pending := None;
      }
    }

    /** `Close`: the first call closes `done`, stops the timer the handle
        names, clears the handle and remembers the watcher's close error;
        every call returns the remembered error. */
    method Close(watcherErr: Option<Error>) returns (err: Option<Error>)
      requires Wf()
      modifies this
      ensures Wf()
      ensures err == closeErr && closed
      ensures old(closed) ==> unchanged(this)
      ensures !old(closed) ==>
        && pending.None? && armed == old(armed) - Handle(old(pending)) && closeErr == watcherErr
        && firing == old(firing) && created == old(created)
      ensures old(Debounced()) ==> Debounced() && armed == {}
    {
      if !closed {
        closed := true;
        armed := armed - Handle(pending);
        pending := None;
        closeErr := watcherErr;
      }
      err := closeErr;
    }
  }

  /** `scheduleRefresh` as written tests `done` before it takes
      `refreshMu`, so `Close` can run between the two: the test passes,
      `Close` stops and clears the handle, and the arming then leaves a
      timer armed behind a closed machine, which no later call stops. */
  method CloseDuringSchedule() returns (d: Debouncer)
    ensures d.closed && d.pending == Some(0) && d.armed == {0}
    ensures !d.Debounced()
  {
    d := new Debouncer();
    var open := !d.closed;
    var _ := d.Close(None);
    if open {
      d.Arm();
    }
  }

  /** With the test of `done` made under `refreshMu` (`Schedule`), the same
      calls leave nothing armed: a schedule that comes after `Close` takes
      the lock does nothing. */
  method CloseDuringScheduleCorrected() returns (d: Debouncer)
    ensures d.closed && d.pending.None? && d.armed == {}
    ensures d.Debounced()
  {
    d := new Debouncer();
    var _ := d.Close(None);
    d.Schedule();
  }
}
