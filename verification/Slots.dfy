/**
 Ownership of one parser-process slot.

 A handle holds one permit of the pool. The owning task gives it back directly;
 a thread can only ask the event loop to do so, and asks in vain once the loop
 is closed. `transfer` takes the right to release away from the owning task.
 */
module Slots {

  datatype Handle = Handle(released: bool, transferred: bool)

  const NEW_HANDLE := Handle(false, false)

  function AfterTransfer(h: Handle): Handle {
    h.(transferred := true)
  }

  function AfterUntransfer(h: Handle): Handle {
    if h.released then h else h.(transferred := false)
  }

  /** Does the owning task's release return the permit? */
  predicate OwnerMayRelease(h: Handle) {
    !h.released && !h.transferred
  }

  function MarkReleased(h: Handle): Handle {
    h.(released := true)
  }

  /** A counting semaphore: only its value matters here. */
  class Semaphore {
    var value: nat

    constructor (permits: nat)
      ensures value == permits
    {
      value := permits;
    }
  }

  /** The part of an event loop a handle uses: a queue of release callbacks. */
  class EventLoop {
    var closed: bool
    var posted: nat

    constructor ()
      ensures !closed && posted == 0
    {
      closed, posted := false, 0;
    }
  }

  class SlotHandle {
    const semaphore: Semaphore
    const loop: EventLoop
    var released: bool
    var transferred: bool

    function View(): Handle
      reads this
    {
      Handle(released, transferred)
    }

    constructor (semaphore: Semaphore, loop: EventLoop)
      ensures this.semaphore == semaphore && this.loop == loop
      ensures View() == NEW_HANDLE
    {
      this.semaphore, this.loop := semaphore, loop;
      released, transferred := false, false;
    }

    method Transfer()
      modifies this`transferred
      ensures View() == AfterTransfer(old(View()))
    {
      transferred := true;
    }

    method Untransfer()
      modifies this`transferred
      ensures View() == AfterUntransfer(old(View()))
    {
      if !released {
        transferred := false;
      }
    }

    /** The owning task's release: silent once transferred or released. */
    method Release()
      modifies this`released, semaphore`value
      ensures OwnerMayRelease(old(View())) ==>
                View() == MarkReleased(old(View())) && semaphore.value == old(semaphore.value) + 1
      ensures !OwnerMayRelease(old(View())) ==>
                View() == old(View()) && semaphore.value == old(semaphore.value)
    {
      if released || transferred {
        return;
      }
      released := true;
      semaphore.value := semaphore.value + 1;
    }

    /** A thread's release: posted to the loop, dropped when the loop is closed. */
    method ReleaseFromThread()
      modifies this`released, loop`posted
      ensures View() == MarkReleased(old(View()))
      ensures loop.posted == old(loop.posted) + (if !old(released) && !loop.closed then 1 else 0)
    {
      if released {
        return;
      }
      released := true;
      if !loop.closed {
        loop.posted := loop.posted + 1;
      }
    }
  }
}
