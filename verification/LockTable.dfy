/**
  The lock service both lock protocols use: a table from key to expiry instant.
  Expired entries are dropped by the next acquire or renew; releasing deletes
  the key whoever holds it.
 */
module LockTable {
  type Locks = map<string, nat>

  function Live(locks: Locks, now: nat): Locks {
    map k | k in locks && locks[k] > now :: locks[k]
  }

  predicate Held(locks: Locks, key: string, now: nat) {
    key in locks && locks[key] > now
  }

  function AfterAcquire(locks: Locks, key: string, now: nat, ttl: nat): Locks {
    if key in Live(locks, now) then Live(locks, now) else Live(locks, now)[key := now + ttl]
  }

  function AfterRenew(locks: Locks, key: string, now: nat, ttl: nat): Locks {
    if key in Live(locks, now) then Live(locks, now)[key := now + ttl] else Live(locks, now)
  }

  function AfterRelease(locks: Locks, key: string): Locks {
    locks - {key}
  }

  /** The table behind its write lock: every operation is atomic. */
  class InMemoryLocks {
    var locks: Locks

    constructor ()
      ensures locks == map[]
    {
      locks := map[];
    }

    method TryAcquire(key: string, now: nat, ttl: nat) returns (acquired: bool)
      modifies this
      ensures acquired == !Held(old(locks), key, now)
      ensures locks == AfterAcquire(old(locks), key, now, ttl)
    {
      var expiry := now + ttl;
      locks := map k | k in locks && locks[k] > now :: locks[k];
      if key in locks {
        acquired := false;
      } else {
        locks := locks[key := expiry];
        acquired := true;
      }
    }

    method Renew(key: string, now: nat, ttl: nat) returns (renewed: bool)
      modifies this
      ensures renewed == Held(old(locks), key, now)
      ensures locks == AfterRenew(old(locks), key, now, ttl)
    {
      locks := map k | k in locks && locks[k] > now :: locks[k];
      if key in locks {
        locks := locks[key := now + ttl];
        renewed := true;
      } else {
        renewed := false;
      }
    }

    method Release(key: string)
      modifies this
      ensures locks == AfterRelease(old(locks), key)
    {
      locks := locks - {key};
    }
  }

  /** Who holds a key, now or later, is not affected by operations on other keys. */
  lemma KeysAreIndependent(locks: Locks, key: string, other: string, now: nat, ttl: nat, later: nat)
    requires key != other && now <= later
    ensures Held(AfterAcquire(locks, key, now, ttl), other, later) == Held(locks, other, later)
    ensures Held(AfterRenew(locks, key, now, ttl), other, later) == Held(locks, other, later)
    ensures Held(AfterRelease(locks, key), other, later) == Held(locks, other, later)
  {
  }

  /**
    An acquired or renewed lock is held exactly until its TTL has run, a
    renewal needs a live lock, a second acquire does not extend it.
   */
  lemma HeldUntilExpiry(locks: Locks, key: string, now: nat, ttl: nat, later: nat)
    requires now <= later
    ensures !Held(locks, key, now) ==> (Held(AfterAcquire(locks, key, now, ttl), key, later) <==> later < now + ttl)
    ensures Held(locks, key, now) ==> (Held(AfterRenew(locks, key, now, ttl), key, later) <==> later < now + ttl)
    ensures !Held(locks, key, now) ==> !Held(AfterRenew(locks, key, now, ttl), key, later)
    ensures Held(locks, key, now) ==>
      (Held(AfterAcquire(locks, key, now, ttl), key, later) <==> Held(locks, key, later))
    ensures !Held(AfterRelease(locks, key), key, later)
  {
  }
}
