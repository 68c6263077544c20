/**
 * Route registration and lookup (`addRoute` and `matchRoute` in index.js):
 * the glue between the segmenter, the route table and the parameter mapper.
 */
module Router {
  import opened Wrappers
  import opened Segments
  import opened Trie
  import opened Params

  /** The trie key `addRoute(method, path, ...)` stores its route under: `<...>` segments become `*`. */
  function RouteKey(httpMethod: string, path: string): seq<string>
  {
    Rewrite(Segment(httpMethod, path))
  }

  /** The resolver `addRoute` stores: named mode exactly when the raw path contains `<`. */
  function MakeResolver<H>(httpMethod: string, path: string, handler: H): (r: Resolver<H>)
    ensures '<' !in path ==> forall params :: Resolved(r, params) == (handler, List(params))
    ensures '<' in path ==> forall params ::
      && Resolved(r, params).0 == handler && Resolved(r, params).1.Object?
      && IsNamedObject(Mappings(Segment(httpMethod, path)), params, Resolved(r, params).1.fields)
  {
    GetResolveFunc(IndexOf(path, '<') != -1, handler, Segment(httpMethod, path))
  }

  /** `addRoute(method, path, handler)` on the route table `routes`. */
  method AddRoute<H>(routes: RouteTable<Resolver<H>>, httpMethod: string, path: string, handler: H)
    requires routes.Valid()
    modifies routes
    ensures routes.Valid()
    ensures routes.nodes == Insert(old(routes.nodes), RouteKey(httpMethod, path), MakeResolver(httpMethod, path, handler))
    ensures forall p :: Exists(routes.nodes, p) <==> Exists(old(routes.nodes), p) || p <= RouteKey(httpMethod, path)
    ensures forall p ::
      (Lookup(routes.nodes, p) ==
        if p == RouteKey(httpMethod, path) then Some(MakeResolver(httpMethod, path, handler)) else Lookup(old(routes.nodes), p))
  {
    var segments := Segment(httpMethod, path);
    var isObjParams := IndexOf(path, '<') != -1;
    var convertedSegments := Rewrite(segments);
    routes.Add(convertedSegments, GetResolveFunc(isObjParams, handler, segments));
  }

  /** `matchRoute(method, url)`: the handler and its arguments, or `None` for `[null, null]`. */
  function MatchRouteSpec<H>(nodes: seq<Node<Resolver<H>>>, httpMethod: string, url: string): Option<(H, Args)>
  {
    match MatchSpec(nodes, Segment(httpMethod, url))
    case None => None
    case Some((resolve, params)) => Some(Resolved(resolve, params))
  }

  /** `matchRoute(method, url)` on the route table `routes`. */
  method MatchRoute<H>(routes: RouteTable<Resolver<H>>, httpMethod: string, url: string) returns (r: Option<(H, Args)>)
    requires routes.Valid()
    ensures r == MatchRouteSpec(routes.nodes, httpMethod, url)
  {
    var segments := Segment(httpMethod, url);
    var found := routes.Match(segments);
    if found.None? {
      r := None;
    } else {
      var handler, args := Resolve(found.value.0, found.value.1);
      r := Some((handler, args));
    }
  }

  // ---------------------------------------------------------------------------
  // Properties of registration and lookup
  // ---------------------------------------------------------------------------

  /** The query string of a request never changes what it resolves to. */
  lemma MatchRouteIgnoresQuery<H>(nodes: seq<Node<Resolver<H>>>, httpMethod: string, url: string, query: string)
    requires '?' !in url
    ensures MatchRouteSpec(nodes, httpMethod, url + "?" + query) == MatchRouteSpec(nodes, httpMethod, url)
  {
    SegmentIgnoresQuery(httpMethod, url, query);
  }

  /** A request's method matches whatever its letter case. */
  lemma MatchRouteMethodCase<H>(nodes: seq<Node<Resolver<H>>>, httpMethod: string, url: string)
    ensures MatchRouteSpec(nodes, ToUpper(httpMethod), url) == MatchRouteSpec(nodes, httpMethod, url)
  {
    SegmentMethodCase(httpMethod, url);
  }

  /**
   * Last registration wins: registering a path whose segments differ from an
   * earlier one only in the names or types inside `<...>` reuses its trie
   * key, and requests then see only the later handler and mappings.
   */
  lemma RenamedRouteReplaces<H>(nodes: seq<Node<Resolver<H>>>, paths: seq<seq<string>>,
                                httpMethod: string, path1: string, h1: H, path2: string, h2: H,
                                requestMethod: string, url: string)
    requires WellFormed(nodes, paths)
    requires |Segment(httpMethod, path1)| == |Segment(httpMethod, path2)|
    requires forall i :: 0 <= i < |Segment(httpMethod, path1)| ==>
      Segment(httpMethod, path1)[i] == Segment(httpMethod, path2)[i] ||
      (IsNamed(Segment(httpMethod, path1)[i]) && IsNamed(Segment(httpMethod, path2)[i]))
    ensures var once := Insert(nodes, RouteKey(httpMethod, path1), MakeResolver(httpMethod, path1, h1));
      MatchRouteSpec(Insert(once, RouteKey(httpMethod, path2), MakeResolver(httpMethod, path2, h2)), requestMethod, url) ==
      MatchRouteSpec(Insert(nodes, RouteKey(httpMethod, path2), MakeResolver(httpMethod, path2, h2)), requestMethod, url)
  {
    RewriteForgetsNames(Segment(httpMethod, path1), Segment(httpMethod, path2));
    ReRegisterReplaces(nodes, paths, RouteKey(httpMethod, path2), MakeResolver(httpMethod, path1, h1),
      MakeResolver(httpMethod, path2, h2), Segment(requestMethod, url));
  }

  /** A table with a single registered route. */
  function OneRoute<H>(httpMethod: string, path: string, handler: H): seq<Node<Resolver<H>>>
  {
    Insert([Empty()], RouteKey(httpMethod, path), MakeResolver(httpMethod, path, handler))
  }

  /**
   * With a single route registered, a request resolves exactly when its
   * tokens fit the route's key; then the handler gets the captured list
   * unchanged when the path has no `<`, and otherwise the object built from
   * the mappings of the registration's capture segments.
   */
  lemma OneRouteResolves<H>(httpMethod: string, path: string, handler: H, requestMethod: string, url: string)
    ensures var key, tokens := RouteKey(httpMethod, path), Segment(requestMethod, url);
      MatchRouteSpec(OneRoute(httpMethod, path, handler), requestMethod, url) ==
        if !Fits(key, tokens) then None
        else if '<' !in path then Some((handler, List(Captured(key, tokens))))
        else Some((handler, Object(Fields(Mappings(Segment(httpMethod, path)), Captured(key, tokens)))))
  {
    SingleRoute(RouteKey(httpMethod, path), MakeResolver(httpMethod, path, handler), Segment(requestMethod, url));
  }

  /**
   * Named mode with no literal `*` in the request: every capture segment of
   * the registration receives the request token at its position, so no
   * property of the result is `undefined` or `Number(undefined)`: each holds
   * its captured token, raw or through `Number`.
   */
  lemma NamedRouteFullCaptures<H>(httpMethod: string, path: string, handler: H, requestMethod: string, url: string)
    ensures var key, tokens := RouteKey(httpMethod, path), Segment(requestMethod, url);
      '<' in path && Fits(key, tokens) && Wildcard !in tokens ==>
        var fields := Fields(Mappings(Segment(httpMethod, path)), AtWildcards(key, tokens));
        && |AtWildcards(key, tokens)| == |Mappings(Segment(httpMethod, path))|
        && MatchRouteSpec(OneRoute(httpMethod, path, handler), requestMethod, url) == Some((handler, Object(fields)))
        && forall k :: k in fields ==> fields[k].Text? || fields[k].Numeric?
  {
    var key, tokens := RouteKey(httpMethod, path), Segment(requestMethod, url);
    if '<' in path && Fits(key, tokens) && Wildcard !in tokens {
      OneRouteResolves(httpMethod, path, handler, requestMethod, url);
      CapturedAtWildcards(key, tokens);
      MappingsMatchWildcards(Segment(httpMethod, path));
      FieldsDefined(Mappings(Segment(httpMethod, path)), AtWildcards(key, tokens));
    }
  }


  /** A request token that is not blank and holds neither `/` nor `?`. */
  predicate PlainToken(v: string)
  {
    !IsBlank(v) && '/' !in v && '?' !in v
  }

  /** The pieces of a canonical path: not blank, free of `/` and `?`. */
  predicate PlainPieces(pieces: seq<string>)
  {
    forall i :: 0 <= i < |pieces| ==> PlainToken(pieces[i])
  }

  /**
   * One route registered at a canonical path, requested at a canonical path:
   * the route key and the request tokens are the method followed by the
   * pieces themselves, with the registration's capture pieces as `*`.
   */
  lemma OneRouteAtPath<H>(httpMethod: string, pattern: seq<string>, handler: H, requestMethod: string, request: seq<string>)
    requires PlainPieces(pattern) && PlainPieces(request)
    ensures var key, tokens := Rewrite([ToUpper(httpMethod)] + pattern), [ToUpper(requestMethod)] + request;
      MatchRouteSpec(OneRoute(httpMethod, Path(pattern), handler), requestMethod, Path(request)) ==
        if !Fits(key, tokens) then None
        else if '<' !in Path(pattern) then Some((handler, List(Captured(key, tokens))))
        else Some((handler, Object(Fields(Mappings([ToUpper(httpMethod)] + pattern), Captured(key, tokens)))))
  {
    SegmentPath(httpMethod, pattern);
    SegmentPath(requestMethod, request);
    OneRouteResolves(httpMethod, Path(pattern), handler, requestMethod, Path(request));
  }

  /** The pieces of the paths used above are plain, and the registration contains `<`. */
  lemma UserPostsPieces(name: string, v: string)
    requires ':' !in name && '/' !in name && '?' !in name && PlainToken(v)
    ensures PlainPieces(["users", "<" + name + ">", "posts"]) && PlainPieces(["users", v, "posts"]) && '<' in Path(["users", "<" + name + ">", "posts"])
  {
    var item := "<" + name + ">";
    var pattern := ["users", "<" + name + ">", "posts"];
    assert PlainToken("users") && PlainToken(item) && PlainToken("posts") by {
      assert !IsWhitespace("users"[0]) && !IsWhitespace(item[0]) && !IsWhitespace("posts"[0]);
    }
    assert PlainPieces(pattern);
    PathHas(pattern, 1, '<');
  }

  /** The pieces of the paths used above are plain, and the registration contains `<`. */
  lemma PostIdPieces(name: string, a: string, b: string)
    requires ':' !in name && '/' !in name && '?' !in name && PlainToken(a) && PlainToken(b)
    ensures PlainPieces(["users", Wildcard, "posts", "<" + name + ":number>"]) && PlainPieces(["users", a, "posts", b]) && '<' in Path(["users", Wildcard, "posts", "<" + name + ":number>"])
  {
    var item := "<" + name + ":number>";
    var pattern := ["users", Wildcard, "posts", "<" + name + ":number>"];
    assert PlainToken("users") && PlainToken(Wildcard) && PlainToken("posts") && PlainToken(item) by {
      assert !IsWhitespace("users"[0]) && !IsWhitespace(Wildcard[0]) && !IsWhitespace("posts"[0]) && !IsWhitespace(item[0]);
    }
    assert PlainPieces(pattern);
    PathHas(pattern, 3, '<');
  }

  /** The pieces of the paths used above are plain, and the registration contains `<`. */
  lemma ShiftedPieces(first: string, second: string, p: string)
    requires '/' !in first && '?' !in first && '/' !in second && '?' !in second && PlainToken(p)
    ensures PlainPieces(["users", "<" + first + ">", "<" + second + ">"]) && PlainPieces(["users", Wildcard, p]) && '<' in Path(["users", "<" + first + ">", "<" + second + ">"])
  {
    var item1, item2 := "<" + first + ">", "<" + second + ">";
    var pattern := ["users", "<" + first + ">", "<" + second + ">"];
    assert PlainToken("users") && PlainToken(item1) && PlainToken(item2) && PlainToken(Wildcard) by {
      assert !IsWhitespace("users"[0]) && !IsWhitespace(item1[0]) && !IsWhitespace(item2[0]) && !IsWhitespace(Wildcard[0]);
    }
    assert PlainPieces(pattern);
    PathHas(pattern, 1, '<');
  }

  /** The trie key and the mappings of the first example's registration. */
  lemma UserPostsKey(u: string, name: string)
    requires !IsCapture(u) && ':' !in name
    ensures var segments := [u, "users", "<" + name + ">", "posts"];
      Rewrite(segments) == [u, "users", Wildcard, "posts"] && Mappings(segments) == [Mapping(name, None)]
  {
    var item := "<" + name + ">";
    assert item[0] == '<';
    var segments := [u, "users", item, "posts"];
    assert segments[3..] == ["posts"] && Captures(segments[3..]) == [];
    assert segments[2..] == [item, "posts"] && Captures(segments[2..]) == [item];
    assert segments[1..] == ["users", item, "posts"] && Captures(segments[1..]) == [item];
    assert Captures(segments) == [item];
    NamedMapping(name, 0);
  }

  /** The first example's request fits its key and yields one capture. */
  lemma UserPostsCaptured(u: string, v: string)
    requires v != Wildcard
    ensures var key, tokens := [u, "users", Wildcard, "posts"], [u, "users", v, "posts"];
      Fits(key, tokens) && Captured(key, tokens) == [v]
  {
    var key, tokens := [u, "users", Wildcard, "posts"], [u, "users", v, "posts"];
    assert key[3..] == ["posts"] && tokens[3..] == ["posts"];
    assert Captured(key[3..], tokens[3..]) == [];
    assert key[2..] == [Wildcard, "posts"] && tokens[2..] == [v, "posts"];
    assert Captured(key[2..], tokens[2..]) == [v];
    assert key[1..] == ["users", Wildcard, "posts"] && tokens[1..] == ["users", v, "posts"];
  }

  /** The captures and the object of the first example, computed on the token lists. */
  lemma UserPostsFields(u: string, name: string, v: string)
    requires !IsCapture(u) && ':' !in name && v != Wildcard
    ensures var segments, tokens := [u, "users", "<" + name + ">", "posts"], [u, "users", v, "posts"];
      Fits(Rewrite(segments), tokens) &&
      Fields(Mappings(segments), Captured(Rewrite(segments), tokens)) == map[name := Text(v)]
  {
    UserPostsKey(u, name);
    UserPostsCaptured(u, v);
    assert Fields([Mapping(name, None)], [v]) == map[name := Text(v)];
  }

  /**
   * The first example of index.js, for any parameter name and any plain
   * token: with `/users/<name>/posts` registered for a method, the request
   * `/users/v/posts` with the same method in any letter case resolves to `{name: v}`; `name = userid` and
   * `v = 1001` with `get` and `GET` give the documented `{userid: "1001"}`.
   */
  lemma UserPostsExample<H>(httpMethod: string, requestMethod: string, handler: H, name: string, v: string)
    requires ToUpper(requestMethod) == ToUpper(httpMethod) && !IsCapture(ToUpper(httpMethod))
    requires ':' !in name && '/' !in name && '?' !in name
    requires PlainToken(v) && v != Wildcard
    ensures MatchRouteSpec(OneRoute(httpMethod, Path(["users", "<" + name + ">", "posts"]), handler), requestMethod, Path(["users", v, "posts"])) ==
      Some((handler, Object(map[name := Text(v)])))
  {
    var item := "<" + name + ">";
    var pattern := ["users", item, "posts"];
    var request := ["users", v, "posts"];
    UserPostsPieces(name, v);
    assert [ToUpper(httpMethod)] + pattern == [ToUpper(httpMethod), "users", item, "posts"];
    assert [ToUpper(requestMethod)] + request == [ToUpper(httpMethod), "users", v, "posts"];
    UserPostsFields(ToUpper(httpMethod), name, v);
    OneRouteAtPath(httpMethod, pattern, handler, requestMethod, request);
  }

  /** The capture segments of the second example's registration. */
  lemma PostIdCaptures(u: string, item: string)
    requires !IsCapture(u) && IsNamed(item)
    ensures Captures([u, "users", Wildcard, "posts", item]) == [Wildcard, item]
  {
    var segments := [u, "users", Wildcard, "posts", item];
    assert segments[4..] == [item] && Captures(segments[4..]) == [item];
    assert segments[3..] == ["posts", item] && Captures(segments[3..]) == [item];
    assert segments[2..] == [Wildcard, "posts", item] && Captures(segments[2..]) == [Wildcard, item];
    assert segments[1..] == ["users", Wildcard, "posts", item] && Captures(segments[1..]) == [Wildcard, item];
  }

  /** The trie key and the mappings of the second example's registration. */
  lemma PostIdKey(u: string, name: string)
    requires !IsCapture(u) && ':' !in name
    ensures var segments := [u, "users", Wildcard, "posts", "<" + name + ":number>"];
      Rewrite(segments) == [u, "users", Wildcard, "posts", Wildcard] &&
      Mappings(segments) == [Mapping("0", Some("string")), Mapping(name, Some("number"))]
  {
    var item := "<" + name + ":number>";
    PostIdRewrite(u, item);
    PostIdMappings(u, item);
    PostIdNamed(name);
    assert MappingOf(Wildcard, 0) == Mapping("0", Some("string")) by {
      assert NatToString(0) == "0";
    }
  }

  /** The trie key of the second example's registration. */
  lemma PostIdRewrite(u: string, item: string)
    requires !IsCapture(u) && IsNamed(item)
    ensures Rewrite([u, "users", Wildcard, "posts", item]) == [u, "users", Wildcard, "posts", Wildcard]
  {
  }

  /** The typed segment of the second example destructures to its name and `number`. */
  lemma PostIdNamed(name: string)
    requires ':' !in name
    ensures IsNamed("<" + name + ":number>") && MappingOf("<" + name + ":number>", 1) == Mapping(name, Some("number"))
  {
    var item := "<" + name + ":number>";
    assert item[0] == '<';
    TypedMapping(name, "number", 1);
    assert item == "<" + name + ":" + "number" + ">";
  }

  /** The mappings of the second example's registration, before the named segment is destructured. */
  lemma PostIdMappings(u: string, item: string)
    requires !IsCapture(u) && IsNamed(item)
    ensures Mappings([u, "users", Wildcard, "posts", item]) == [MappingOf(Wildcard, 0), MappingOf(item, 1)]
  {
    PostIdCaptures(u, item);
  }

  /** The second example's request fits its key and yields two captures. */
  lemma PostIdCaptured(u: string, a: string, b: string)
    requires a != Wildcard && b != Wildcard
    ensures var key, tokens := [u, "users", Wildcard, "posts", Wildcard], [u, "users", a, "posts", b];
      Fits(key, tokens) && Captured(key, tokens) == [a, b]
  {
    var key, tokens := [u, "users", Wildcard, "posts", Wildcard], [u, "users", a, "posts", b];
    assert key[4..] == [Wildcard] && tokens[4..] == [b];
    assert Captured(key[4..], tokens[4..]) == [b];
    assert key[3..] == ["posts", Wildcard] && tokens[3..] == ["posts", b];
    assert Captured(key[3..], tokens[3..]) == [b];
    assert key[2..] == [Wildcard, "posts", Wildcard] && tokens[2..] == [a, "posts", b];
    assert Captured(key[2..], tokens[2..]) == [a, b];
    assert key[1..] == ["users", Wildcard, "posts", Wildcard] && tokens[1..] == ["users", a, "posts", b];
  }

  /** The captures and the object of the second example, computed on the token lists. */
  lemma PostIdFields(u: string, name: string, a: string, b: string)
    requires !IsCapture(u) && ':' !in name && a != Wildcard && b != Wildcard
    ensures var segments, tokens := [u, "users", Wildcard, "posts", "<" + name + ":number>"], [u, "users", a, "posts", b];
      Fits(Rewrite(segments), tokens) &&
      Fields(Mappings(segments), Captured(Rewrite(segments), tokens)) == map["0" := Text(a)][name := Numeric(b)]
  {
    PostIdKey(u, name);
    PostIdCaptured(u, a, b);
    var ms := [Mapping("0", Some("string")), Mapping(name, Some("number"))];
    assert ms[..1] == [Mapping("0", Some("string"))] && ms[..1][..0] == [];
    assert Fields(ms[..1], [a, b]) == map["0" := Text(a)];
  }

  /**
   * The second example of index.js, for any parameter name and plain
   * tokens: with `/users/` + `*` + `/posts/<name:number>` registered, the
   * request `GET /users/a/posts/b` resolves to the object whose key `0` (the
   * bare wildcard's index) holds `a` and whose key `name` holds `Number(b)`.
   * `name = postid`, `a = 1001`, `b = 10000` give the documented case. Any
   * token is passed to `Number`: nothing checks that `b` is made of digits.
   */
  lemma PostIdExample<H>(httpMethod: string, requestMethod: string, handler: H, name: string, a: string, b: string)
    requires ToUpper(requestMethod) == ToUpper(httpMethod) && !IsCapture(ToUpper(httpMethod))
    requires ':' !in name && '/' !in name && '?' !in name
    requires PlainToken(a) && a != Wildcard && PlainToken(b) && b != Wildcard
    ensures MatchRouteSpec(OneRoute(httpMethod, Path(["users", Wildcard, "posts", "<" + name + ":number>"]), handler), requestMethod, Path(["users", a, "posts", b])) ==
      Some((handler, Object(map["0" := Text(a)][name := Numeric(b)])))
  {
    var item := "<" + name + ":number>";
    var pattern := ["users", Wildcard, "posts", item];
    var request := ["users", a, "posts", b];
    PostIdPieces(name, a, b);
    assert [ToUpper(httpMethod)] + pattern == [ToUpper(httpMethod), "users", Wildcard, "posts", item];
    assert [ToUpper(requestMethod)] + request == [ToUpper(httpMethod), "users", a, "posts", b];
    PostIdFields(ToUpper(httpMethod), name, a, b);
    OneRouteAtPath(httpMethod, pattern, handler, requestMethod, request);
  }

  /** The trie key and the mappings of a registration with two named segments. */
  lemma ShiftedKey(u: string, first: string, second: string)
    requires !IsCapture(u) && ':' !in first && ':' !in second
    ensures var segments := [u, "users", "<" + first + ">", "<" + second + ">"];
      Rewrite(segments) == [u, "users", Wildcard, Wildcard] &&
      Mappings(segments) == [Mapping(first, None), Mapping(second, None)]
  {
    var item1, item2 := "<" + first + ">", "<" + second + ">";
    assert item1[0] == '<' && item2[0] == '<';
    ShiftedMappings(u, item1, item2);
    NamedMapping(first, 0);
    NamedMapping(second, 1);
  }

  /** The trie key and the mappings of a registration with two named segments, before they are destructured. */
  lemma ShiftedMappings(u: string, item1: string, item2: string)
    requires !IsCapture(u) && IsNamed(item1) && IsNamed(item2)
    ensures var segments := [u, "users", item1, item2];
      Rewrite(segments) == [u, "users", Wildcard, Wildcard] &&
      Mappings(segments) == [MappingOf(item1, 0), MappingOf(item2, 1)]
  {
    var segments := [u, "users", item1, item2];
    assert Captures(segments) == [item1, item2] by {
      assert segments[3..] == [item2] && Captures(segments[3..]) == [item2];
      assert segments[2..] == [item1, item2] && Captures(segments[2..]) == [item1, item2];
      assert segments[1..] == ["users", item1, item2] && Captures(segments[1..]) == [item1, item2];
    }
  }

  /** A literal `*` token fits the first wildcard without being captured. */
  lemma ShiftedCaptured(u: string, p: string)
    requires p != Wildcard
    ensures var key, tokens := [u, "users", Wildcard, Wildcard], [u, "users", Wildcard, p];
      Fits(key, tokens) && Captured(key, tokens) == [p]
  {
    var key, tokens := [u, "users", Wildcard, Wildcard], [u, "users", Wildcard, p];
    assert key[3..] == [Wildcard] && tokens[3..] == [p];
    assert Captured(key[3..], tokens[3..]) == [p];
    assert key[2..] == [Wildcard, Wildcard] && tokens[2..] == [Wildcard, p];
    assert Captured(key[2..], tokens[2..]) == [p];
    assert key[1..] == ["users", Wildcard, Wildcard] && tokens[1..] == ["users", Wildcard, p];
  }

  /** The captures and the object of the shifted-capture case, computed on the token lists. */
  lemma ShiftedFields(u: string, first: string, second: string, p: string)
    requires !IsCapture(u) && ':' !in first && ':' !in second && p != Wildcard
    ensures var segments, tokens := [u, "users", "<" + first + ">", "<" + second + ">"], [u, "users", Wildcard, p];
      Fits(Rewrite(segments), tokens) &&
      Fields(Mappings(segments), Captured(Rewrite(segments), tokens)) == map[first := Text(p)][second := Undefined]
  {
    ShiftedKey(u, first, second);
    ShiftedCaptured(u, p);
    var ms := [Mapping(first, None), Mapping(second, None)];
    assert ms[..1] == [Mapping(first, None)] && ms[..1][..0] == [];
    assert Fields(ms[..1], [p]) == map[first := Text(p)];
  }

  /**
   * A request token that is literally `*` enters the wildcard child as a
   * literal and is not captured, so later captures shift left: with
   * `/users/<first>/<second>` registered, the request whose second path
   * token is `*` and third is `p` resolves to `{first: p, second: undefined}`.
   */
  lemma LiteralStarShiftsCaptures<H>(httpMethod: string, requestMethod: string, handler: H, first: string, second: string, p: string)
    requires ToUpper(requestMethod) == ToUpper(httpMethod) && !IsCapture(ToUpper(httpMethod))
    requires ':' !in first && '/' !in first && '?' !in first
    requires ':' !in second && '/' !in second && '?' !in second
    requires PlainToken(p) && p != Wildcard
    ensures MatchRouteSpec(OneRoute(httpMethod, Path(["users", "<" + first + ">", "<" + second + ">"]), handler), requestMethod, Path(["users", Wildcard, p])) ==
      Some((handler, Object(map[first := Text(p)][second := Undefined])))
  {
    var item1, item2 := "<" + first + ">", "<" + second + ">";
    var pattern := ["users", item1, item2];
    var request := ["users", Wildcard, p];
    ShiftedPieces(first, second, p);
    assert [ToUpper(httpMethod)] + pattern == [ToUpper(httpMethod), "users", item1, item2];
    assert [ToUpper(requestMethod)] + request == [ToUpper(httpMethod), "users", Wildcard, p];
    ShiftedFields(ToUpper(httpMethod), first, second, p);
    OneRouteAtPath(httpMethod, pattern, handler, requestMethod, request);
  }

  /** A client of the route table: register `/users/<name>/posts`, then request `/users/v/posts`. */
  method ExampleSession<H>(handler: H, name: string, v: string)
    requires ':' !in name && '/' !in name && '?' !in name
    requires PlainToken(v) && v != Wildcard
  {
    var routes := new RouteTable<Resolver<H>>();
    AddRoute(routes, "get", Path(["users", "<" + name + ">", "posts"]), handler);
    var r := MatchRoute(routes, "GET", Path(["users", v, "posts"]));
    UserPostsExample("get", "GET", handler, name, v);
    assert r == Some((handler, Object(map[name := Text(v)])));
  }
}
