/**
 * The serving side of ppcache/http.go: `ServeHTTP` routes a request path
 * `<basePath><group>/<key>` to a group and answers with the value encoded as
 * a protobuf `Response`. The request's method, headers and logging are not
 * modelled; the encoder is a parameter.
 */
module Server {

  import opened Wrappers
  import opened ByteViews
  import Utf8
  import Urls
  import Peers
  import Groups

  const StatusBadRequest: int := 400
  const StatusNotFound: int := 404
  const StatusInternalServerError: int := 500

  /** What the handler does: panic, answer with an error status and text, or send the encoded value. */
  datatype Reply =
    | Panic(message: string)
    | Error(status: int, message: string)
    | Ok(contentType: string, body: seq<byte>)

  /** Where a request path leads. */
  datatype Route =
    | Unexpected
    | BadRequest
    | Target(group: string, key: string)

  /** `strings.SplitN(s, "/", 2)` with two parts: the text before the first "/" and everything after it. */
  function SplitAtSlash(s: string): (r: Option<(string, string)>)
    ensures r.None? <==> '/' !in s
    ensures r.Some? ==> s == r.value.0 + "/" + r.value.1 && '/' !in r.value.0
  {
    if s == [] then None
    else if s[0] == '/' then Some(([], s[1..]))
    else match SplitAtSlash(s[1..])
      case None => None
      case Some((a, b)) =>
        assert s == [s[0]] + s[1..];
        Some(([s[0]] + a, b))
  }

  /**
   * The routing of `ServeHTTP`: a path outside `basePath` is unexpected, a
   * rest without "/" is a bad request, otherwise the group is the text up to
   * the first "/" and the key all that follows, slashes included.
   */
  function RoutePath(basePath: string, path: string): (r: Route)
    ensures r.Unexpected? <==> !(basePath <= path)
    ensures r.BadRequest? ==> basePath <= path && '/' !in path[|basePath|..]
    ensures r.Target? ==> path == basePath + r.group + "/" + r.key && '/' !in r.group
  {
    if !(basePath <= path) then Unexpected
    else
      var rest := path[|basePath|..];
      assert path == basePath + rest;
      match SplitAtSlash(rest)
      case None => BadRequest
      case Some((group, key)) =>
        Utf8.AppendAssoc(basePath, group + "/", key);
        Utf8.AppendAssoc(basePath, group, "/");
        Target(group, key)
  }

  /** A decoded path `basePath + group + "/" + key` routes to exactly that group and key, when the group has no "/". */
  lemma RouteOfRequest(basePath: string, group: string, key: string)
    requires '/' !in group
    ensures RoutePath(basePath, basePath + group + "/" + key) == Target(group, key)
  {
    var rest := group + "/" + key;
    Utf8.AppendAssoc(basePath, group, "/");
    Utf8.AppendAssoc(basePath, group + "/", key);
    assert (basePath + rest)[|basePath|..] == rest;
    SplitAtFirstSlash(group, key);
  }

  /**
   * A peer's request reaches the group and key it names: the URL is the
   * peer's address followed by a path that `net/http` decodes to
   * `basePath + group + "/" + key`, which routes to exactly that group and
   * key, whatever characters the key holds.
   */
  lemma RequestReachesTarget(peer: string, basePath: string, group: string, key: string)
    requires '%' !in basePath && '/' !in group
    ensures var path := basePath + Urls.PathEscape(group) + "/" + Urls.PathEscape(key);
      && Peers.RequestUrl(Peers.HttpGetter(peer + basePath), group, key) == peer + path
      && Urls.PathUnescape(path) == Some(basePath + group + "/" + key)
      && RoutePath(basePath, basePath + group + "/" + key) == Target(group, key)
  {
    var eg, ek := Urls.PathEscape(group), Urls.PathEscape(key);
    Utf8.AppendAssoc(peer + basePath + eg, "/", ek);
    Utf8.AppendAssoc(peer + basePath, eg, "/" + ek);
    Utf8.AppendAssoc(peer, basePath, eg + ("/" + ek));
    Utf8.AppendAssoc(basePath + eg, "/", ek);
    Utf8.AppendAssoc(basePath, eg, "/" + ek);
    Urls.DecodeRequestPath(basePath, group, key);
    RouteOfRequest(basePath, group, key);
  }

  /**
   * As written, the client escapes with `url.QueryEscape`, which writes a
   * space as "+", and the server's decoding of the path keeps "+": a peer
   * asking group "g" for key "a b" is served key "a+b".
   */
  lemma QueryEscapedSpaceArrivesAsPlus(peer: string, basePath: string)
    requires '%' !in basePath
    ensures Peers.RequestUrlAsWritten(Peers.HttpGetter(peer + basePath), "g", "a b") == peer + (basePath + "g/a+b")
    ensures Urls.PathUnescape(basePath + "g/a+b") == Some(basePath + "g/a+b")
    ensures RoutePath(basePath, basePath + "g/a+b") == Target("g", "a+b")
  {
    Urls.QueryEscapeOfSpace();
    assert '%' !in "g/a+b";
    Urls.PlainPathUnescape(basePath + "g/a+b");
    assert "g" + "/" + "a+b" == "g/a+b";
    assert Peers.RequestUrlAsWritten(Peers.HttpGetter(peer + basePath), "g", "a b") == peer + basePath + "g" + "/" + "a+b";
    Utf8.AppendAssoc(peer + basePath + "g", "/", "a+b");
    Utf8.AppendAssoc(peer + basePath, "g", "/" + "a+b");
    Utf8.AppendAssoc(peer, basePath, "g/a+b");
    Utf8.AppendAssoc(basePath + "g", "/", "a+b");
    Utf8.AppendAssoc(basePath, "g", "/" + "a+b");
    RouteOfRequest(basePath, "g", "a+b");
  }

  /** Splitting `group + "/" + key` at its first slash gives back both parts. */
  lemma {:induction false} SplitAtFirstSlash(group: string, key: string)
    requires '/' !in group
    ensures SplitAtSlash(group + "/" + key) == Some((group, key))
  {
    if group == [] {
      assert group + "/" + key == ['/'] + key;
    } else {
      var s := group + "/" + key;
      assert s[0] == group[0] && group[0] in group;
      assert s[1..] == group[1..] + "/" + key;
      assert group == [group[0]] + group[1..];
      SplitAtFirstSlash(group[1..], key);
    }
  }

  /** The reply to a group's answer: its error as a 500, or the value encoded, or the encoder's error as a 500. */
  function Respond(answer: Result<ByteView, string>, marshal: seq<byte> -> Result<seq<byte>, string>): (reply: Reply)
    ensures reply.Ok? <==> answer.Success? && marshal(answer.value.b).Success?
    ensures reply.Ok? ==> reply.body == marshal(answer.value.b).value && reply.contentType == "application/octet-stream"
    ensures answer.Failure? ==> reply == Error(StatusInternalServerError, answer.error)
  {
    match answer
    case Failure(e) => Error(StatusInternalServerError, e)
    case Success(view) =>
      match marshal(view.b)
      case Failure(e) => Error(StatusInternalServerError, e)
      case Success(body) => Ok("application/octet-stream", body)
  }

  /** The registered group a path is routed to, or null when the path names none. */
  function Routed(basePath: string, registry: Groups.Registry, path: string): (g: Groups.Group?)
    reads registry
    ensures g != null <==> RoutePath(basePath, path).Target? && RoutePath(basePath, path).group in registry.groups
    ensures g != null ==> g == registry.groups[RoutePath(basePath, path).group]
  {
    match RoutePath(basePath, path)
    case Target(group, _) => registry.GetGroup(group)
    case _ => null
  }

  /** What serving a request may change: the routed group, its cache and its cache's store. */
  ghost function Footprint(g: Groups.Group?): set<object?>
    reads g, if g != null then {g.mainCache} else {}
  {
    if g == null then {} else {g, g.mainCache, g.mainCache.lru}
  }

  /**
   * `ServeHTTP` on the decoded path of a request (`r.URL.Path`): route it,
   * look the group up and answer with what the group's `Get` returns. Only
   * the routed group is touched, and exactly as its `Get` touches it; a
   * panic, a bad request and an unknown group change nothing.
   */
  method ServeHTTP(pool: Peers.HttpPool, registry: Groups.Registry, path: string,
                   marshal: seq<byte> -> Result<seq<byte>, string>) returns (reply: Reply)
    requires Routed(pool.basePath, registry, path) != null ==> Routed(pool.basePath, registry, path).Ready()
    modifies Footprint(Routed(pool.basePath, registry, path))
    ensures RoutePath(pool.basePath, path) == Unexpected ==>
      reply == Panic("HTTPPool serving unexpected path: " + path)
    ensures RoutePath(pool.basePath, path) == BadRequest ==>
      reply == Error(StatusBadRequest, "bad request")
    ensures RoutePath(pool.basePath, path).Target? && RoutePath(pool.basePath, path).group !in registry.groups ==>
      reply == Error(StatusNotFound, "no such group: " + RoutePath(pool.basePath, path).group)
    ensures Routed(pool.basePath, registry, path) != null ==>
      reply == Respond(old(Routed(pool.basePath, registry, path).Answer(RoutePath(pool.basePath, path).key)), marshal)
    ensures Routed(pool.basePath, registry, path) != null ==>
      var g, key := Routed(pool.basePath, registry, path), RoutePath(pool.basePath, path).key;
      && g.Ready() && g.peers == old(g.peers)
      && g.loads == old(g.LoadsAfterGet(key))
      && g.mainCache.Entries() == old(g.EntriesAfterGet(key))
    ensures forall n | n in registry.groups && registry.groups[n] !in Footprint(Routed(pool.basePath, registry, path)) ::
      unchanged(registry.groups[n])
    ensures forall n | n in registry.groups && registry.groups[n].mainCache !in Footprint(Routed(pool.basePath, registry, path)) ::
      unchanged(registry.groups[n].mainCache)
  {
    var route := RoutePath(pool.basePath, path);
    match route
    case Unexpected =>
      reply := Panic("HTTPPool serving unexpected path: " + path);
    case BadRequest =>
      reply := Error(StatusBadRequest, "bad request");
    case Target(groupName, key) =>
      var group := registry.GetGroup(groupName);
      if group == null {
        return Error(StatusNotFound, "no such group: " + groupName);
      }
      reply := ServeGroup(group, key, marshal);
  }

  /** The part of `ServeHTTP` after the lookup: the group's `Get`, then the reply built from its answer. */
  method ServeGroup(group: Groups.Group, key: string, marshal: seq<byte> -> Result<seq<byte>, string>)
    returns (reply: Reply)
    requires group.Ready()
    modifies group, group.mainCache, group.mainCache.lru
    ensures reply == Respond(old(group.Answer(key)), marshal)
    ensures group.Ready() && group.peers == old(group.peers)
    ensures group.loads == old(group.LoadsAfterGet(key))
    ensures group.mainCache.Entries() == old(group.EntriesAfterGet(key))
  {
    var view := group.Get(key);
    reply := WriteAnswer(view, marshal);
  }

  /**
   * Writing the answer: an error is a 500; a value is copied out with
   * `ByteSlice`, encoded, and sent, or the encoder's error is a 500.
   */
  method WriteAnswer(view: Result<ByteView, string>, marshal: seq<byte> -> Result<seq<byte>, string>)
    returns (reply: Reply)
    ensures reply == Respond(view, marshal)
  {
    if view.Failure? {
      return Error(StatusInternalServerError, view.error);
    }
    var value := view.value.ByteSlice();
    var body := marshal(value[..]);
    if body.Failure? {
      return Error(StatusInternalServerError, body.error);
    }
    reply := Ok("application/octet-stream", body.value);
  }

  /**
   * Client and server agree: for a codec whose decoder inverts its encoder
   * on every message, when a peer's reply carries a group's value and the
   * transport hands that body back with status 200, the client's fetch
   * yields the value.
   */
  lemma ServedValueIsFetched(g: Peers.HttpGetter, wire: Peers.Wire, group: string, key: string,
                             value: ByteView, marshal: seq<byte> -> Result<seq<byte>, string>, status: string)
    requires forall bs :: marshal(bs).Success? ==> wire.unmarshal(marshal(bs).value) == Success(bs)
    requires Respond(Success(value), marshal).Ok?
    requires wire.get(Peers.RequestUrl(g, group, key)) ==
      Success(Peers.Response(Peers.StatusOK, status, Success(Respond(Success(value), marshal).body)))
    ensures Peers.Fetch(g, wire, group, key) == Success(value.b)
  {
    assert Respond(Success(value), marshal).body == marshal(value.b).value;
  }
}
