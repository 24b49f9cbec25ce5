/**
 * Groups, the cache namespaces of ppcache/ppcache.go. A group answers a key
 * from its own cache, else from the peer that owns the key, else from the
 * user's getter, and caches only what the getter loaded. The global registry
 * of groups is an object passed around explicitly; the read-write lock and
 * the single-flight de-duplication of concurrent loads are not modelled.
 */
module Groups {

  import opened Wrappers
  import opened ByteViews
  import Lru
  import MainCache
  import Peers

  /** The user's loader for a key no cache holds: the bytes, or an error. */
  type Getter = string -> Result<seq<byte>, string>

  /** The error `Get` returns for the empty key. */
  const KeyRequired: string := "key is require"

  /** What the getter's answer becomes: the bytes wrapped as a view, or the same error. */
  function FromGetter(res: Result<seq<byte>, string>): (r: Result<ByteView, string>)
    ensures r.Success? <==> res.Success?
    ensures r.Success? ==> r.value.b == res.value
    ensures r.Failure? ==> r.error == res.error
  {
    match res
    case Success(bytes) => Success(ByteView(bytes))
    case Failure(e) => Failure(e)
  }

  /** `getFromPeer`: ask the peer's getter for `group`/`key` and wrap the bytes it returns. */
  function GetFromPeer(wire: Peers.Wire, peer: Peers.HttpGetter, group: string, key: string): (r: Result<ByteView, string>)
    ensures r.Success? <==> Peers.Fetch(peer, wire, group, key).Success?
    ensures r.Success? ==> r.value.b == Peers.Fetch(peer, wire, group, key).value
  {
    match Peers.Fetch(peer, wire, group, key)
    case Success(bytes) => Success(ByteView(bytes))
    case Failure(e) => Failure(e)
  }

  class Group {
    const name: string
    const getter: Getter
    const mainCache: MainCache.Cache
    var peers: Peers.HttpPool?
    /** The keys passed to the getter so far, in order. */
    ghost var loads: seq<string>

    ghost predicate Valid()
      reads this, mainCache, mainCache.lru, peers, if peers != null then {peers.peers} else {}
    {
      && mainCache.Valid()
      && (peers != null ==> peers.Valid())
    }

    /**
     * What `Get` may rely on: the cache can store (a negative budget makes
     * the LRU panic on its first insert) and a registered pool has had its
     * peers set (before that, picking a peer dereferences a nil ring).
     */
    ghost predicate Ready()
      reads this, mainCache, mainCache.lru, peers, if peers != null then {peers.peers} else {}
    {
      && Valid()
      && mainCache.cacheBytes >= 0
      && PeersReady()
    }

    /** The registered pool, if any, is consistent and has its peers set. */
    ghost predicate PeersReady()
      reads this`peers, peers, if peers != null then {peers.peers} else {}
    {
      peers != null ==> peers.Valid() && peers.peers != null
    }

    /** A view of this length under this key survives its own insertion into the cache. */
    function Fits(key: string, value: ByteView): bool
    {
      mainCache.cacheBytes == 0 || MainCache.ViewLength(value) + |key| <= mainCache.cacheBytes
    }

    /** The value the owning peer supplies for `key`: none without peers, for this node's own keys, or when the fetch fails. */
    ghost function Remote(key: string): Option<ByteView>
      reads this`peers, peers, if peers != null then {peers.peers} else {}
      requires PeersReady()
    {
      if peers == null then None
      else
        var owner := peers.Owner(key);
        if owner == "" || owner == peers.self then None
        else match GetFromPeer(peers.wire, Peers.HttpGetter(owner + peers.basePath), name, key)
          case Success(v) => Some(v)
          case Failure(_) => None
    }

    /** The answer `Get(key)` gives in the current state. */
    ghost function Answer(key: string): Result<ByteView, string>
      reads this, mainCache, mainCache.lru, peers, if peers != null then {peers.peers} else {}
      requires Ready()
    {
      if key == "" then Failure(KeyRequired)
      else if key in mainCache.Stored() then Success(mainCache.Stored()[key])
      else if Remote(key).Some? then Success(Remote(key).value)
      else FromGetter(getter(key))
    }

    /** The load log after `Get(key)`: the key is appended exactly when neither the cache nor a peer has it. */
    ghost function LoadsAfterGet(key: string): seq<string>
      reads this, mainCache, mainCache.lru, peers, if peers != null then {peers.peers} else {}
      requires Ready()
    {
      loads + if key != "" && key !in mainCache.Stored() && Remote(key).None? then [key] else []
    }

    /**
     * The cache entries after `Get(key)`: a hit moves the entry to the front,
     * a value the getter supplies is admitted and the cache trimmed to its
     * budget, and nothing else changes them.
     */
    ghost function EntriesAfterGet(key: string): seq<Lru.Entry<ByteView>>
      reads this, mainCache, mainCache.lru, peers, if peers != null then {peers.peers} else {}
      requires Ready()
    {
      if key == "" then mainCache.Entries()
      else if key in mainCache.Stored() then Lru.Admit(mainCache.Entries(), key, mainCache.Stored()[key])
      else if Remote(key).None? && Answer(key).Success? then
        Lru.Trim(Lru.Admit(mainCache.Entries(), key, Answer(key).value), mainCache.cacheBytes, MainCache.ViewLength)
      else mainCache.Entries()
    }

    /** The group `NewGroup` builds: no peers, and a cache that is allocated on first use. */
    constructor (name: string, cacheBytes: int, getter: Getter)
      ensures Valid() && fresh(mainCache)
      ensures this.name == name && this.getter == getter && mainCache.cacheBytes == cacheBytes
      ensures peers == null && mainCache.Entries() == [] && loads == []
    {
      this.name := name;
      this.getter := getter;
      mainCache := new MainCache.Cache(cacheBytes);
      peers := null;
      loads := [];
    }

    /** `RegisterPeers`: the first registration is kept; a second one panics. */
    method RegisterPeers(pool: Peers.HttpPool) returns (panicked: bool)
      requires Valid() && pool.Valid()
      modifies this
      ensures Valid()
      ensures panicked <==> old(peers) != null
      ensures peers == if panicked then old(peers) else pool
      ensures loads == old(loads)
    {
      if peers != null {
        return true;
      }
      peers := pool;
      panicked := false;
    }

    /**
     * `Get`: the empty key is an error; a cached key is answered from the
     * cache and refreshed; any other key is loaded. Only a value the getter
     * supplied is cached, and the getter is called exactly when neither the
     * cache nor a peer had the value.
     */
    method Get(key: string) returns (r: Result<ByteView, string>)
      requires Ready()
      modifies this, mainCache, mainCache.lru
      ensures Ready() && peers == old(peers)
      ensures mainCache.lru == old(mainCache.lru) || fresh(mainCache.lru)
      ensures r == old(Answer(key))
      ensures loads == old(LoadsAfterGet(key))
      ensures mainCache.Entries() == old(EntriesAfterGet(key))
      ensures key != "" && old(Remote(key)).None? && r.Success? && Fits(key, r.value) ==>
        key in mainCache.Stored() && mainCache.Stored()[key] == r.value
    {
      if key == "" {
        return Failure(KeyRequired);
      }
      var hit := mainCache.Get(key);
      if hit.Some? {
        return Success(hit.value);
      }
      r := Load(key);
    }

    /** `load`: the owning peer's value when it answers, otherwise the local getter's. */
    method Load(key: string) returns (r: Result<ByteView, string>)
      requires Ready()
      modifies this, mainCache, mainCache.lru
      ensures Ready() && peers == old(peers)
      ensures mainCache.lru == old(mainCache.lru) || fresh(mainCache.lru)
      ensures r == if old(Remote(key)).Some? then Success(old(Remote(key)).value) else FromGetter(getter(key))
      ensures loads == old(loads) + if old(Remote(key)).None? then [key] else []
      ensures mainCache.Entries() ==
        if old(Remote(key)).None? && r.Success? then
          Lru.Trim(Lru.Admit(old(mainCache.Entries()), key, r.value), mainCache.cacheBytes, MainCache.ViewLength)
        else old(mainCache.Entries())
      ensures old(Remote(key)).None? && r.Success? && Fits(key, r.value) ==>
        key in mainCache.Stored() && mainCache.Stored()[key] == r.value
    {
      var remote := TryPeer(key);
      if remote.Some? {
        return Success(remote.value);
      }
      r := GetLocally(key);
    }

    /** The first half of `load`: ask the owning peer, if there is one other than this node. */
    method TryPeer(key: string) returns (v: Option<ByteView>)
      requires PeersReady()
      ensures v == Remote(key)
    {
      if peers != null {
        var peer := peers.PickPeer(key);
        if peer.Some? {
          var res := GetFromPeer(peers.wire, peer.value, name, key);
          if res.Success? {
            return Some(res.value);
          }
        }
      }
      v := None;
    }

    /** `getLocally`: call the getter; cache and return what it supplies, or return its error and cache nothing. */
    method GetLocally(key: string) returns (r: Result<ByteView, string>)
      requires Ready()
      modifies this, mainCache, mainCache.lru
      ensures Ready() && peers == old(peers)
      ensures mainCache.lru == old(mainCache.lru) || fresh(mainCache.lru)
      ensures r == FromGetter(getter(key))
      ensures loads == old(loads) + [key]
      ensures mainCache.Entries() ==
        if r.Success? then
          Lru.Trim(Lru.Admit(old(mainCache.Entries()), key, r.value), mainCache.cacheBytes, MainCache.ViewLength)
        else old(mainCache.Entries())
      ensures r.Success? && Fits(key, r.value) ==> key in mainCache.Stored() && mainCache.Stored()[key] == r.value
    {
      loads := loads + [key];
      var res := getter(key);
      if res.Failure? {
        return Failure(res.error);
      }
      var value := ByteView(res.value);
      PopulateCache(key, value);
      r := Success(value);
    }

    /** `populateCache`: add the loaded value to this group's cache. */
    method PopulateCache(key: string, value: ByteView)
      requires Ready()
      modifies mainCache, mainCache.lru
      ensures Ready()
      ensures mainCache.lru == old(mainCache.lru) || fresh(mainCache.lru)
      ensures mainCache.Entries() ==
        Lru.Trim(Lru.Admit(old(mainCache.Entries()), key, value), mainCache.cacheBytes, MainCache.ViewLength)
      ensures Fits(key, value) ==> key in mainCache.Stored() && mainCache.Stored()[key] == value
    {
      mainCache.Add(key, value);
    }
  }

  /**
   * Asking a group twice for a key it can load and cache: the second answer
   * equals the first and the getter has run at most once for the key.
   */
  method GetTwice(g: Group, key: string) returns (first: Result<ByteView, string>, second: Result<ByteView, string>)
    requires g.Ready() && g.peers == null && key != ""
    modifies g, g.mainCache, g.mainCache.lru
    ensures first.Success? && g.Fits(key, first.value) ==> second == first
    ensures first.Success? && g.Fits(key, first.value) ==>
      g.loads == old(g.loads) + if key in old(g.mainCache.Stored()) then [] else [key]
  {
    first := g.Get(key);
    second := g.Get(key);
  }

  /** The table of groups by name that `NewGroup` fills and `GetGroup` reads. */
  class Registry {
    var groups: map<string, Group>

    constructor ()
      ensures groups == map[]
    {
      groups := map[];
    }

    /** `GetGroup`: the group registered under `name`, or nil. */
    function GetGroup(name: string): (g: Group?)
      reads this
      ensures g != null <==> name in groups
      ensures g != null ==> g == groups[name]
    {
      if name in groups then groups[name] else null
    }

    /**
     * `NewGroup`: a nil getter panics (here: no group is made); otherwise a
     * new group is registered under its name, replacing any earlier one.
     */
    method NewGroup(name: string, cacheBytes: int, getter: Option<Getter>) returns (g: Group?)
      modifies this
      ensures getter.None? ==> g == null && groups == old(groups)
      ensures getter.Some? ==> g != null && fresh(g) && fresh(g.mainCache) && g.Valid()
      ensures getter.Some? ==> g.name == name && g.getter == getter.value && g.mainCache.cacheBytes == cacheBytes
      ensures getter.Some? ==> g.peers == null && g.mainCache.Entries() == [] && g.loads == []
      ensures getter.Some? ==> GetGroup(name) == g
      ensures forall n | n != name :: GetGroup(n) == old(GetGroup(n))
    {
      if getter.None? {
        return null;
      }
      g := new Group(name, cacheBytes, getter.value);
      groups := groups[name := g];
    }
  }
}
