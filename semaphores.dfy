/**
 * Zephyr's counting semaphore (struct k_sem), as far as the network module uses it:
 * K_SEM_DEFINE with an initial count and a limit, k_sem_give and k_sem_take.
 */
module Semaphores {

  /** The count after k_sem_give: one more, unless the count already sits at the limit. */
  function Given(count: nat, limit: nat): (r: nat)
    ensures count <= r <= count + 1
    ensures r > count <==> count < limit
    ensures count <= limit ==> r <= limit
  {
    if count < limit then count + 1 else count
  }

  /** A give at the limit is a no-op, however often it is repeated. */
  lemma {:induction false} GivenSaturates(count: nat, limit: nat, n: nat)
    requires count <= limit
    ensures Iterate(count, limit, n) <= limit
    ensures n >= limit - count ==> Iterate(count, limit, n) == limit
    decreases n
  {
    if n > 0 {
      GivenSaturates(Given(count, limit), limit, n - 1);
    }
  }

  /** The count after n consecutive gives. */
  function Iterate(count: nat, limit: nat, n: nat): nat
    decreases n
  {
    if n == 0 then count else Iterate(Given(count, limit), limit, n - 1)
  }

  class Semaphore {
    var count: nat
    const limit: nat

    ghost predicate Valid()
      reads this
    {
      0 < limit && count <= limit
    }

    /** K_SEM_DEFINE(name, initial, limit): the macro refuses a zero limit or initial > limit at build time. */
    constructor (initial: nat, limit: nat)
      requires 0 < limit && initial <= limit
      ensures Valid()
      ensures count == initial && this.limit == limit
    {
      count := initial;
      this.limit := limit;
    }

    /** k_sem_give: never fails; at the limit the count stays where it is. */
    method Give()
      requires Valid()
      modifies this
      ensures Valid()
      ensures count == Given(old(count), limit)
    {
      if count < limit {
        count := count + 1;
      }
    }

    /**
     * k_sem_take without waiting: takes a permit when one is there. A caller that
     * waits forever keeps waiting while this reports false.
     */
    method TryTake() returns (taken: bool)
      requires Valid()
      modifies this
      ensures Valid()
      ensures taken <==> old(count) > 0
      ensures count == if taken then old(count) - 1 else old(count)
    {
      taken := count > 0;
      if taken {
        count := count - 1;
      }
    }
  }
}
