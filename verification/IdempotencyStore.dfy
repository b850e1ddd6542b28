/** Claims on commits, with an expiry, in a store that all workers share. */
module IdempotencyStore {

  type Key = (string, string)

  const DEFAULT_TTL: int := 60 * 60 * 24 * 7

  /** The key is present and has not expired. The map gives the time at which it expires. */
  predicate Live(keys: map<Key, int>, key: Key, now: int) {
    key in keys && now < keys[key]
  }

  /** `SET key 1 NX EX ttl`: the check and the claim are one step. */
  function Claimed(keys: map<Key, int>, key: Key, now: int, ttl: int): map<Key, int> {
    if Live(keys, key, now) then keys else keys[key := now + ttl]
  }

  function Released(keys: map<Key, int>, key: Key): map<Key, int> {
    map k | k in keys && k != key :: keys[k]
  }

  /** By default a claim lasts for a week. */
  lemma ClaimLastsAWeek(keys: map<Key, int>, key: Key, now: int, later: int)
    requires !Live(keys, key, now)
    ensures Live(Claimed(keys, key, now, DEFAULT_TTL), key, later) <==> later < now + 604800
  {
  }

  class IdempotencyStore {
    var keys: map<Key, int>

    constructor ()
      ensures keys == map[]
    {
      keys := map[];
    }

    method TryMarkProcessed(repo: string, commitSha: string, now: int, ttl: int := DEFAULT_TTL)
      returns (claimed: bool)
      modifies this
      ensures claimed <==> !Live(old(keys), (repo, commitSha), now)
      ensures keys == Claimed(old(keys), (repo, commitSha), now, ttl)
    {
      var key := (repo, commitSha);
      claimed := !(key in keys && now < keys[key]);
      if claimed {
        keys := keys[key := now + ttl];
      }
    }

    method Release(repo: string, commitSha: string)
      modifies this
      ensures keys == Released(old(keys), (repo, commitSha))
    {
      keys := keys - {(repo, commitSha)};
    }
  }
}
