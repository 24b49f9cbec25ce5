/**
 * The peer side of ppcache/http.go: the pool that decides through the
 * consistent-hash ring which peer owns a key, and the client that fetches a
 * value from that peer. The HTTP transport and protobuf decoding are outside
 * the model and reach it as the functions of a `Wire`; URL escaping is the
 * `Urls` module. The pool's mutex is not modelled.
 */
module Peers {

  import opened Wrappers
  import opened ByteViews
  import ConsistentHash
  import Urls

  /** Path prefix of every request between peers. */
  const DefaultBasePath: string := "/_ppcache/"

  /** Virtual positions per peer on the ring. */
  const DefaultReplicas: int := 50

  const StatusOK: int := 200

  /** A response as the client reads it: status code, status line, and the body or the error met reading it. */
  datatype Response = Response(statusCode: int, status: string, body: Result<seq<byte>, string>)

  /**
   * What the client reaches through libraries outside the model: `http.Get`,
   * and `proto.Unmarshal` of a response message to the value bytes it
   * carries.
   */
  datatype Wire = Wire(
    get: string -> Result<Response, string>,
    unmarshal: seq<byte> -> Result<seq<byte>, string>)

  /** `httpGetter`: the client for one peer, addressed by `peer + basePath`. */
  datatype HttpGetter = HttpGetter(baseURL: string)

  /**
   * The URL a getter requests: base, group, "/", key, each name escaped as a
   * path segment so that the server's decoding of the path gives it back
   * (see `Server.RequestReachesTarget`). The source escapes with
   * `url.QueryEscape` instead; that is `RequestUrlAsWritten`.
   */
  function RequestUrl(g: HttpGetter, group: string, key: string): (u: string)
    ensures |u| == |g.baseURL| + |Urls.PathEscape(group)| + 1 + |Urls.PathEscape(key)|
    ensures u[..|g.baseURL|] == g.baseURL
    ensures u[|g.baseURL| + |Urls.PathEscape(group)|] == '/' && '/' !in Urls.PathEscape(group)
  {
    g.baseURL + Urls.PathEscape(group) + "/" + Urls.PathEscape(key)
  }

  /** The URL as the source builds it, with `url.QueryEscape`. */
  function RequestUrlAsWritten(g: HttpGetter, group: string, key: string): (u: string)
    ensures |u| == |g.baseURL| + |Urls.QueryEscape(group)| + 1 + |Urls.QueryEscape(key)|
    ensures u[..|g.baseURL|] == g.baseURL
    ensures u[|g.baseURL| + |Urls.QueryEscape(group)|] == '/' && '/' !in Urls.QueryEscape(group)
  {
    g.baseURL + Urls.QueryEscape(group) + "/" + Urls.QueryEscape(key)
  }

  /**
   * `httpGetter.Get`: a transport error, a status other than 200, a body that
   * cannot be read and a body that does not decode are each an error; only a
   * decoded 200 response yields a value.
   */
  function Fetch(g: HttpGetter, wire: Wire, group: string, key: string): (r: Result<seq<byte>, string>)
    ensures r.Success? <==>
      && wire.get(RequestUrl(g, group, key)).Success?
      && wire.get(RequestUrl(g, group, key)).value.statusCode == StatusOK
      && wire.get(RequestUrl(g, group, key)).value.body.Success?
      && wire.unmarshal(wire.get(RequestUrl(g, group, key)).value.body.value).Success?
    ensures r.Success? ==>
      r.value == wire.unmarshal(wire.get(RequestUrl(g, group, key)).value.body.value).value
  {
    match wire.get(RequestUrl(g, group, key))
    case Failure(e) => Failure(e)
    case Success(res) =>
      if res.statusCode != StatusOK then Failure("server return: " + res.status)
      else match res.body
        case Failure(e) => Failure("reading response body: " + e)
        case Success(bytes) =>
          match wire.unmarshal(bytes)
          case Failure(e) => Failure("decoding response body: " + e)
          case Success(v) => Success(v)
  }

  /** The ring and getters `Set(peers...)` builds for `members`. */
  ghost predicate Configured(ring: ConsistentHash.Map, getters: map<string, HttpGetter>, members: seq<string>)
    reads ring
  {
    && ring.Valid()
    && ring.hash == ConsistentHash.Crc32
    && ring.replicas == DefaultReplicas
    && multiset(ring.keys) == multiset(ConsistentHash.Positions(ring.hash, DefaultReplicas, members))
    && ring.hashMap == ConsistentHash.Assign(map[], ring.hash, DefaultReplicas, members)
    && getters.Keys == set a | a in members
  }

  class HttpPool {
    const self: string
    const basePath: string
    const wire: Wire
    var peers: ConsistentHash.Map?
    var httpGetter: map<string, HttpGetter>
    /** The peers of the last `Set`. */
    ghost var members: seq<string>

    ghost predicate Valid()
      reads this, peers
    {
      && (forall a | a in httpGetter :: httpGetter[a].baseURL == a + basePath)
      && (peers == null ==> httpGetter == map[])
      && (peers != null ==> Configured(peers, httpGetter, members))
    }

    /** `NewHTTPPool`: a pool for this node's own address, with no peers yet. */
    constructor (self: string, wire: Wire)
      ensures Valid()
      ensures this.self == self && basePath == DefaultBasePath && this.wire == wire
      ensures peers == null && httpGetter == map[]
    {
      this.self := self;
      basePath := DefaultBasePath;
      this.wire := wire;
      peers := null;
      httpGetter := map[];
      members := [];
    }

    /** `Set(peers...)`: a fresh ring of the peers and one getter per peer, replacing the old ones. */
    method Set(addrs: seq<string>)
      modifies this
      ensures Valid() && peers != null && fresh(peers) && members == addrs
      ensures Configured(peers, httpGetter, addrs)
    {
      var ring := new ConsistentHash.Map(DefaultReplicas, None);
      ring.Add(addrs);
      peers := ring;
      members := addrs;
      FillGetters(addrs);
    }

    /** The loop of `Set` that gives each peer a getter rooted at `peer + basePath`. */
    method FillGetters(addrs: seq<string>)
      modifies this
      ensures peers == old(peers) && members == old(members)
      ensures httpGetter.Keys == set a | a in addrs
      ensures forall a | a in httpGetter :: httpGetter[a].baseURL == a + basePath
    {
      httpGetter := map[];
      for i := 0 to |addrs|
        invariant peers == old(peers) && members == old(members)
        invariant httpGetter.Keys == set a | a in addrs[..i]
        invariant forall a | a in httpGetter :: httpGetter[a].baseURL == a + basePath
      {
        httpGetter := httpGetter[addrs[i] := HttpGetter(addrs[i] + basePath)];
        assert addrs[..i + 1] == addrs[..i] + [addrs[i]];
      }
      assert addrs[..|addrs|] == addrs;
    }

    /** The node that owns `key` on the current ring. */
    function Owner(key: string): string
      reads this, peers
      requires Valid() && peers != null
    {
      ConsistentHash.OwnerOf(peers.keys, peers.hashMap, peers.hash(key) as int)
    }

    /**
     * `PickPeer`: the getter of the key's owner, unless the ring is empty or
     * this node owns the key. With at least one peer set, a key that is not
     * fetched remotely is this node's own.
     */
    method PickPeer(key: string) returns (r: Option<HttpGetter>)
      requires Valid() && peers != null
      ensures r.Some? <==> Owner(key) != "" && Owner(key) != self
      ensures r.Some? ==> r.value.baseURL == Owner(key) + basePath
      ensures r.Some? ==> Owner(key) in members
      ensures members != [] && "" !in members && r.None? ==> Owner(key) == self
    {
      var peer := peers.Get(key);
      if members != [] {
        OwnerIsMember(key);
      }
      if peer != "" && peer != self {
        MappedPeerHasGetter(key);
        r := Some(httpGetter[peer]);
      } else {
        r := None;
      }
    }

    /** With at least one peer set, every key has an owner among them. */
    lemma OwnerIsMember(key: string)
      requires Valid() && peers != null && members != []
      ensures Owner(key) in members
    {
      var ps := ConsistentHash.Positions(peers.hash, DefaultReplicas, members);
      ConsistentHash.PositionsCount(peers.hash, DefaultReplicas, members);
      assert ps[0] in multiset(peers.keys);
      ConsistentHash.OwnerAmongNodes(peers.hash, DefaultReplicas, members, peers.keys, peers.hash(key) as int);
    }

    /** The owner named by the ring is one of the set peers, so it has a getter. */
    lemma MappedPeerHasGetter(key: string)
      requires Valid() && peers != null && Owner(key) != ""
      ensures Owner(key) in members && Owner(key) in httpGetter
    {
      var keys, hm := peers.keys, peers.hashMap;
      var p := ConsistentHash.Successor(keys, peers.hash(key) as int);
      assert p in hm;
      ConsistentHash.AssignValues(map[], peers.hash, DefaultReplicas, members);
    }
  }
}
