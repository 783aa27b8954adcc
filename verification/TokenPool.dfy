/** The pool that bounds parallel commands (internal/service/gomodule/gocmd/maxparallelismresourcepool.go). */
module TokenPool {
  /** The closure that acquire returns: it remembers whether it was called. */
  class Resource {
    var released: bool

    constructor ()
      ensures !released
    {
      released := false;
    }
  }

  class Pool {
    const max: nat
    /** Tokens in the channel. */
    var free: nat
    ghost var issued: set<Resource>
    ghost var holders: set<Resource>

    /** Conservation: the tokens in the channel and the unreleased resources make up the maximum. */
    ghost predicate Valid()
      reads this, issued
    {
      && free + |holders| == max
      && holders <= issued
      && forall r :: r in issued ==> (r in holders <==> !r.released)
    }

    constructor (max: nat)
      requires max > 0
      ensures Valid() && this.max == max && free == max && issued == {} && holders == {}
    {
      this.max := max;
      free, issued, holders := max, {}, {};
    }

    /** `cancelled` tells whether the context is done; a done context and a free token race. */
    method Acquire(cancelled: bool) returns (r: Resource?)
      requires Valid()
      modifies this`free, this`issued, this`holders
      ensures Valid()
      ensures r == null ==> free == old(free) && issued == old(issued) && holders == old(holders)
      ensures r != null ==> old(free) > 0 && free == old(free) - 1 && fresh(r) && holders == old(holders) + {r}
                            && issued == old(issued) + {r}
      ensures old(free) > 0 && !cancelled ==> r != null
      ensures |holders| <= max
    {
      var resource := new Resource();
      var takeToken: bool := *;
      if free == 0 || (cancelled && !takeToken) {
        return null;
      }
      free := free - 1;
      issued, holders := issued + {resource}, holders + {resource};
      return resource;
    }

    /** Releasing puts one token back the first time and does nothing afterwards; the channel has room for it. */
    method Release(r: Resource) returns (ghost blocked: bool)
      requires Valid() && r in issued
      modifies this`free, this`holders, r
      ensures Valid() && issued == old(issued) && r.released && holders == old(holders) - {r}
      ensures free == old(free) + if old(r.released) then 0 else 1
      ensures !blocked && free <= max
    {
      blocked := false;
      if r.released {
        return;
      }
      r.released := true;
      blocked := free >= max;
      free := free + 1;
      holders := holders - {r};
    }
  }

  /** A handler releases early after the command and again, twice, when it returns. */
  method HandlerReleases(pool: Pool, r: Resource)
    requires pool.Valid() && r in pool.holders
    modifies pool, r
    ensures pool.Valid() && pool.free == old(pool.free) + 1 && pool.holders == old(pool.holders) - {r}
  {
    ghost var blocked := pool.Release(r);
    blocked := pool.Release(r);
    blocked := pool.Release(r);
  }
}
