/** The key/value cache of response snapshots and the repository over it.
    A value is stored pickled and read back unpickled; the round trip is the
    identity, so the store holds the snapshot itself. */
module Cache {
  import opened Wrappers
  import opened Models
  import opened Schemas

  /** The prefix of a key: `menu_`, `submenu_` or `dish_`. */
  datatype Kind = MenuKind | SubmenuKind | DishKind

  /** The key `<prefix><id>`; distinct (kind, id) pairs give distinct strings. */
  datatype CacheKey = CacheKey(kind: Kind, id: Id)

  /** What the services store: a menu with its counts, a submenu with its
      count, or a rendered dish. */
  datatype Snapshot =
    | MenuSnap(menu: MenuWithDetails)
    | SubmenuSnap(submenu: SubmenuWithDishCount)
    | DishSnap(dish: DishScheme)

  type Entries = map<CacheKey, Snapshot>

  function MenuKey(id: Id): CacheKey { CacheKey(MenuKind, id) }
  function SubmenuKey(id: Id): CacheKey { CacheKey(SubmenuKind, id) }
  function DishKey(id: Id): CacheKey { CacheKey(DishKind, id) }

  /** The keys of one kind for the ids in `ids`. */
  function KeysOf(kind: Kind, ids: set<Id>): set<CacheKey> {
    set x | x in ids :: CacheKey(kind, x)
  }

  /** The Redis server, shared by every request. */
  class RedisClient {
    var entries: Entries

    constructor ()
      ensures entries == map[]
    {
      entries := map[];
    }
  }

  class RedisCacheRepository {
    const client: RedisClient

    constructor (client: RedisClient)
      ensures this.client == client
    {
      this.client := client;
    }

    /** Stores `value` under `key`, replacing any earlier value; no other key changes. */
    method Set(key: CacheKey, value: Snapshot)
      modifies client
      ensures client.entries == old(client.entries)[key := value]
    {
      client.entries := client.entries[key := value];
    }

    /** The value stored under `key`, or None for a key never set or since deleted. */
    method Get(key: CacheKey) returns (r: Option<Snapshot>)
      ensures r.Some? <==> key in client.entries
      ensures r.Some? ==> r.value == client.entries[key]
    {
      r := if key in client.entries then Some(client.entries[key]) else None;
    }

    /** Removes `key`; deleting an absent key changes nothing. */
    method Delete(key: CacheKey)
      modifies client
      ensures client.entries == old(client.entries) - {key}
      ensures key !in old(client.entries) ==> client.entries == old(client.entries)
    {
      client.entries := client.entries - {key};
    }
  }

  /** The services' loops that delete one key per listed row. */
  method DeleteKeys(cache: RedisCacheRepository, kind: Kind, ids: seq<Id>)
    modifies cache.client
    ensures cache.client.entries == old(cache.client.entries) - KeysOf(kind, IdSet(ids))
  {
    for i := 0 to |ids|
      invariant cache.client.entries == old(cache.client.entries) - KeysOf(kind, IdSet(ids[..i]))
    {
      assert ids[..i + 1] == ids[..i] + [ids[i]];
      IdSetAppend(ids[..i], [ids[i]]);
      cache.Delete(CacheKey(kind, ids[i]));
    }
    assert ids[..|ids|] == ids;
  }

  /** `get` after `set` on the same key returns the stored value; other keys keep theirs. */
  method SetThenGet(cache: RedisCacheRepository, key: CacheKey, other: CacheKey, value: Snapshot)
    returns (r: Option<Snapshot>, s: Option<Snapshot>)
    requires other != key
    modifies cache.client
    ensures r == Some(value)
    ensures s == if other in old(cache.client.entries) then Some(old(cache.client.entries)[other]) else None
  {
    cache.Set(key, value);
    r := cache.Get(key);
    s := cache.Get(other);
  }

  /** `get` after `delete` returns None; other keys keep their values. */
  method DeleteThenGet(cache: RedisCacheRepository, key: CacheKey, other: CacheKey)
    returns (r: Option<Snapshot>, s: Option<Snapshot>)
    requires other != key
    modifies cache.client
    ensures r == None
    ensures s == if other in old(cache.client.entries) then Some(old(cache.client.entries)[other]) else None
  {
    cache.Delete(key);
    r := cache.Get(key);
    s := cache.Get(other);
  }
}
