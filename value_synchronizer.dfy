/**
 * `src/value_synchronizer.rs`: one shared value with a version counter that
 * every change bumps, and watchers that each remember the counter value they
 * last caught up with. A watcher's read completes with the current value as
 * soon as the counter has moved since then; otherwise it registers its waker
 * and stays pending.
 *
 * The mutex and the `RefCell` only serialise access and are not modelled.
 * The waker registration is a set of waker identities; an update wakes them
 * all and empties it. Its bounded capacity, and what it does when full, are
 * not modelled. The counter is a `nat`, so `usize` wrap-around is not modelled.
 */
module Synchronizer {
  import opened Wrappers

  /** The identity of the task whose waker a pending read registers. */
  type WakerId = nat

  class ValueSynchronizer<T> {
    var value: T
    var counter: nat
    var wakers: set<WakerId>

    /** `new`: the initial value, counter 0, nobody waiting. */
    constructor(v: T)
      ensures value == v && counter == 0 && wakers == {}
    {
      value := v;
      counter := 0;
      wakers := {};
    }

    /** `read`: `f` applied to the current value; nothing changes. */
    method Read<U>(f: T -> U) returns (r: U)
      ensures r == f(value)
    {
      r := f(value);
    }

    /** `read_clone`: a copy of the current value; nothing changes. */
    method ReadClone() returns (r: T)
      ensures r == value
    {
      r := Read((v: T) => v);
    }

    /**
     * `update`: `f` changes the value in place, the counter goes up by
     * exactly one, and every registered waker is woken.
     */
    method Update(f: T -> T)
      modifies this
      ensures value == f(old(value))
      ensures counter == old(counter) + 1
      ensures wakers == {}
    {
      value := f(value);
      counter := counter + 1;
      wakers := {};
    }

    /** `write`: an update that replaces the value. */
    method Write(v: T)
      modifies this
      ensures value == v
      ensures counter == old(counter) + 1
      ensures wakers == {}
    {
      Update((_: T) => v);
    }

    /** `watch`: a new watcher that has already caught up with the current counter. */
    method Watch() returns (w: Watcher<T>)
      ensures fresh(w) && w.synchronizer == this && w.lastCounter == counter
      ensures w.Valid()
    {
      w := new Watcher(this);
    }
  }

  class Watcher<T> {
    const synchronizer: ValueSynchronizer<T>
    var lastCounter: nat

    /** A watcher never runs ahead of the counter it follows. */
    predicate Valid()
      reads this, synchronizer
    {
      lastCounter <= synchronizer.counter
    }

    constructor(s: ValueSynchronizer<T>)
      ensures synchronizer == s && lastCounter == s.counter
    {
      synchronizer := s;
      lastCounter := s.counter;
    }

    /** `skip`: catch up with the counter without taking the value. */
    method Skip()
      modifies this
      ensures lastCounter == synchronizer.counter
      ensures Valid()
    {
      lastCounter := synchronizer.counter;
    }

    /**
     * `ReaderFuture::poll`: when the counter has moved since this watcher
     * last caught up, the watcher catches up and gets the current value;
     * otherwise its waker is registered and the read stays pending. The
     * value and the counter are never changed.
     */
    method Poll(waker: WakerId) returns (r: Option<T>)
      requires Valid()
      modifies this, synchronizer`wakers
      ensures Valid()
      ensures r.Some? <==> old(lastCounter) < synchronizer.counter
      ensures r.Some? ==> r.value == synchronizer.value && lastCounter == synchronizer.counter
                          && synchronizer.wakers == old(synchronizer.wakers)
      ensures r.None? ==> lastCounter == old(lastCounter) && synchronizer.wakers == old(synchronizer.wakers) + {waker}
    {
      var s := synchronizer;
      if s.counter != lastCounter {
        lastCounter := s.counter;
        r := Some(s.value);
      } else {
        s.wakers := s.wakers + {waker};
        r := None;
      }
    }
  }

  // ---------------------------------------------------------------------------
  // How the operations combine

  /** Reading right after `watch` is pending. */
  method WatchThenPoll<T>(s: ValueSynchronizer<T>, waker: WakerId) returns (w: Watcher<T>, r: Option<T>)
    modifies s`wakers
    ensures fresh(w) && w.synchronizer == s && r == None
    ensures s.value == old(s.value) && s.counter == old(s.counter)
  {
    w := s.Watch();
    r := w.Poll(waker);
  }

  /** No update is missed: after any update the next read completes with the updated value. */
  method UpdateThenPoll<T>(s: ValueSynchronizer<T>, w: Watcher<T>, f: T -> T, waker: WakerId) returns (r: Option<T>)
    requires w.synchronizer == s && w.Valid()
    modifies s, w
    ensures r == Some(f(old(s.value))) && w.lastCounter == s.counter
  {
    s.Update(f);
    r := w.Poll(waker);
  }

  /**
   * Updates coalesce: two writes with no read in between give one completed
   * read carrying the later value, and the read after that is pending.
   */
  method WritesCoalesce<T>(s: ValueSynchronizer<T>, w: Watcher<T>, a: T, b: T, waker: WakerId)
    returns (first: Option<T>, second: Option<T>)
    requires w.synchronizer == s && w.Valid()
    modifies s, w
    ensures first == Some(b) && second == None
    ensures s.counter == old(s.counter) + 2
  {
    s.Write(a);
    s.Write(b);
    first := w.Poll(waker);
    second := w.Poll(waker);
  }

  /** After `skip` a read stays pending until the next update. */
  method SkipThenPoll<T>(s: ValueSynchronizer<T>, w: Watcher<T>, waker: WakerId) returns (r: Option<T>)
    requires w.synchronizer == s && w.Valid()
    modifies s`wakers, w
    ensures r == None && w.lastCounter == s.counter == old(s.counter)
  {
    w.Skip();
    r := w.Poll(waker);
  }
}
