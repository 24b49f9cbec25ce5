/**
 * The cache a Group owns (ppcache/cache.go): an LRU store of byte views that
 * is only allocated by the first `add`. The mutex is not modelled; every
 * operation here runs to completion before the next starts.
 */
module MainCache {

  import opened Wrappers
  import opened ByteViews
  import Lru

  /** The `Value.Length()` the LRU charges for a byte view. */
  function ViewLength(v: ByteView): nat {
    v.Length()
  }

  class Cache {
    var lru: Lru.Cache?<ByteView>
    const cacheBytes: int

    /** Once allocated, the store has this cache's budget, byte-view lengths and no callback. */
    ghost predicate Valid()
      reads this, lru
    {
      lru != null ==>
        && lru.Valid() && !lru.released
        && lru.maxBytes == cacheBytes
        && lru.valueLength == ViewLength
        && !lru.hasOnEvicted
    }

    /** The cached entries, most recently used first (none before the first `add`). */
    ghost function Entries(): seq<Lru.Entry<ByteView>>
      reads this, lru
    {
      if lru == null then [] else lru.list
    }

    /** The cached values by key. */
    ghost function Stored(): map<string, ByteView>
      reads this, lru
    {
      if lru == null then map[] else lru.cache
    }

    /** A Group's cache starts without a store. */
    constructor (cacheBytes: int)
      ensures Valid() && lru == null && this.cacheBytes == cacheBytes
      ensures Entries() == [] && Stored() == map[]
    {
      lru := null;
      this.cacheBytes := cacheBytes;
    }

    /**
     * `add`: allocate the store on first use, then insert. The budget is the
     * one fixed at construction (a `const`, so no operation can change it).
     */
    method Add(key: string, value: ByteView)
      requires Valid() && cacheBytes >= 0
      modifies this, lru
      ensures Valid() && lru != null
      ensures old(lru) == null ==> fresh(lru)
      ensures old(lru) != null ==> lru == old(lru)
      ensures Entries() == Lru.Trim(Lru.Admit(old(Entries()), key, value), cacheBytes, ViewLength)
      ensures Stored() == Lru.MapOf(Entries())
      ensures cacheBytes == 0 || ViewLength(value) + |key| <= cacheBytes ==>
        key in Stored() && Stored()[key] == value
    {
      if lru == null {
        lru := new Lru.Cache(cacheBytes, ViewLength, false);
      }
      var panicked := lru.Add(key, value);
      Lru.AdmittedEntryStored(old(Entries()), key, value, cacheBytes, ViewLength);
    }

    /**
     * `get`: before the first `add` every key misses and nothing is allocated;
     * afterwards a hit returns the stored view and makes it most recent.
     */
    method Get(key: string) returns (r: Option<ByteView>)
      requires Valid()
      modifies lru
      ensures Valid() && lru == old(lru)
      ensures r == if key in old(Stored()) then Some(old(Stored())[key]) else None
      ensures Stored() == old(Stored())
      ensures Entries() ==
        if r.Some? then Lru.Admit(old(Entries()), key, r.value) else old(Entries())
    {
      if lru == null {
        return None;
      }
      r := lru.Get(key);
    }
  }
}
