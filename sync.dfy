/** Counter abstractions of the two synchronisation devices the scanner
    uses: a buffered channel used as a counting semaphore, and
    `sync.WaitGroup`. Blocking is modelled by a precondition: in the
    sequential model an operation runs only in a state where the real one
    would not block. */
module Sync {

  /** A buffered channel of `capacity` empty structs: a send takes a slot,
      a receive gives one back. */
  class Semaphore {
    const capacity: nat
    var held: nat

    ghost predicate Valid()
      reads this
    {
      held <= capacity
    }

    /** `make(chan struct{}, capacity)`: no slot is held. */
    constructor (capacity: nat)
      ensures Valid()
      ensures this.capacity == capacity && held == 0
    {
      this.capacity := capacity;
      held := 0;
    }

    /** `sem <- struct{}{}`: takes a slot; the channel accepts the send
        only while a slot is free. */
    method Acquire()
      requires Valid() && held < capacity
      modifies this
      ensures Valid()
      ensures held == old(held) + 1
    {
      held := held + 1;
    }

    /** `<-sem`: gives a slot back. */
    method Release()
      requires Valid() && held > 0
      modifies this
      ensures Valid()
      ensures held == old(held) - 1
    {
      held := held - 1;
    }
  }

  /** `sync.WaitGroup`: a counter of launched work not yet done. */
  class WaitGroup {
    var count: nat

    constructor ()
      ensures count == 0
    {
      count := 0;
    }

    /** `wg.Add(1)` */
    method Add()
      modifies this
      ensures count == old(count) + 1
    {
      count := count + 1;
    }

    /** `wg.Done()`; a negative counter makes Go panic, so the counter
        must be positive. */
    method Done()
      requires count > 0
      modifies this
      ensures count == old(count) - 1
    {
      count := count - 1;
    }

    /** `wg.Wait()`: returns once all launched work is done. */
    method Wait()
      requires count == 0
    {
    }
  }
}
