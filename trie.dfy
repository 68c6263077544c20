/**
 * The route table of index.js: a trie keyed by routing tokens (`add` and
 * `match`, operating on the module-level `routes` object).
 *
 * The nested JavaScript objects are kept in an arena: node 0 is `routes`
 * itself, every other element of `nodes` is an object some `add` created, and
 * a child entry `current[segment]` is an index into the arena. The reserved
 * key `"/"` that holds a node's target is the `target` field.
 */
module Trie {
  import opened Wrappers

  /** The key of the wildcard child; `add` gets it from rewritten `<...>` and bare `*` segments. */
  const Wildcard: string := "*"

  datatype Node<T> = Node(children: map<string, nat>, target: Option<T>)

  /** A freshly created `{}`. */
  function Empty<T>(): Node<T>
  {
    Node(map[], None)
  }

  // ---------------------------------------------------------------------------
  // The arena and its abstract view
  // ---------------------------------------------------------------------------

  /** Every child entry points into the arena. */
  predicate Closed<T>(nodes: seq<Node<T>>)
  {
    forall i, k | 0 <= i < |nodes| && k in nodes[i].children :: nodes[i].children[k] < |nodes|
  }

  /**
   * `paths[i]` is the key sequence that leads from the root to node `i`: the
   * root is reached by the empty sequence and every child edge extends its
   * parent's sequence by its key, so the arena is a tree.
   */
  ghost predicate WellFormed<T>(nodes: seq<Node<T>>, paths: seq<seq<string>>)
  {
    && |nodes| > 0 && |paths| == |nodes| && paths[0] == []
    && Closed(nodes)
    && forall i, k | 0 <= i < |nodes| && k in nodes[i].children ::
         paths[nodes[i].children[k]] == paths[i] + [k]
  }

  /** The node reached from node `at` by following the keys of `p` literally. */
  function FindFrom<T>(nodes: seq<Node<T>>, at: nat, p: seq<string>): (r: Option<nat>)
    ensures r.Some? ==> r.value < |nodes|
    decreases |p|
  {
    if at >= |nodes| then None
    else if p == [] then Some(at)
    else if p[0] in nodes[at].children then FindFrom(nodes, nodes[at].children[p[0]], p[1..])
    else None
  }

  function Find<T>(nodes: seq<Node<T>>, p: seq<string>): Option<nat>
  {
    FindFrom(nodes, 0, p)
  }

  /** The trie has a node at key sequence `p`. */
  predicate Exists<T>(nodes: seq<Node<T>>, p: seq<string>)
  {
    Find(nodes, p).Some?
  }

  /** The target stored under key sequence `p` (`current["/"]` after walking `p`), if any. */
  function Lookup<T>(nodes: seq<Node<T>>, p: seq<string>): Option<T>
  {
    match Find(nodes, p)
    case None => None
    case Some(m) => nodes[m].target
  }

  // ---------------------------------------------------------------------------
  // add
  // ---------------------------------------------------------------------------

  /** `current[segment] = {}`: node `c` gets a new, empty child under key `k`. */
  function Grow<T>(nodes: seq<Node<T>>, c: nat, k: string): (r: seq<Node<T>>)
    requires Closed(nodes) && c < |nodes|
    ensures Closed(r) && |r| == |nodes| + 1
  {
    nodes[c := nodes[c].(children := nodes[c].children[k := |nodes|])] + [Empty()]
  }

  /**
   * The arena after `add` has walked from node `c` along `rest`, creating
   * the missing children, and stored `t` at the last node.
   */
  function InsertFrom<T>(nodes: seq<Node<T>>, c: nat, rest: seq<string>, t: T): (r: seq<Node<T>>)
    requires Closed(nodes) && c < |nodes|
    ensures Closed(r) && |r| >= |nodes|
    decreases |rest|
  {
    if rest == [] then nodes[c := nodes[c].(target := Some(t))]
    else if rest[0] in nodes[c].children then InsertFrom(nodes, nodes[c].children[rest[0]], rest[1..], t)
    else InsertFrom(Grow(nodes, c, rest[0]), |nodes|, rest[1..], t)
  }

  /** The path labels of the nodes `InsertFrom` creates. */
  ghost function InsertPaths<T>(nodes: seq<Node<T>>, paths: seq<seq<string>>, c: nat, rest: seq<string>): seq<seq<string>>
    requires Closed(nodes) && c < |nodes| && |paths| == |nodes|
    decreases |rest|
  {
    if rest == [] then paths
    else if rest[0] in nodes[c].children then InsertPaths(nodes, paths, nodes[c].children[rest[0]], rest[1..])
    else InsertPaths(Grow(nodes, c, rest[0]), paths + [paths[c] + [rest[0]]], |nodes|, rest[1..])
  }

  /** The whole arena: `add(s, t)` on it is `InsertFrom(nodes, 0, s, t)`. */
  function Insert<T>(nodes: seq<Node<T>>, s: seq<string>, t: T): (r: seq<Node<T>>)
    requires Closed(nodes) && |nodes| > 0
  {
    InsertFrom(nodes, 0, s, t)
  }

  // ---------------------------------------------------------------------------
  // match
  // ---------------------------------------------------------------------------

  /**
   * The reference definition of `match`'s walk over the abstract trie: from
   * key sequence `at`, with `params` captured so far, consume `tokens`. A
   * literal child wins; otherwise the wildcard child is taken and the token
   * captured; otherwise the walk fails. No choice is ever revisited.
   * The result is the key sequence of the node reached and the captures.
   */
  function Walk<T>(nodes: seq<Node<T>>, at: seq<string>, params: seq<string>, tokens: seq<string>)
    : Option<(seq<string>, seq<string>)>
    decreases |tokens|
  {
    if tokens == [] then Some((at, params))
    else if Exists(nodes, at + [tokens[0]]) then Walk(nodes, at + [tokens[0]], params, tokens[1..])
    else if Exists(nodes, at + [Wildcard]) then Walk(nodes, at + [Wildcard], params + [tokens[0]], tokens[1..])
    else None
  }

  /** `match(segments)`: the stored target and the captures, or `None` for `[null, null]`. */
  function MatchSpec<T>(nodes: seq<Node<T>>, tokens: seq<string>): Option<(T, seq<string>)>
  {
    match Walk(nodes, [], [], tokens)
    case None => None
    case Some((q, params)) =>
      match Lookup(nodes, q)
      case None => None
      case Some(t) => Some((t, params))
  }

  // ---------------------------------------------------------------------------
  // The route table object
  // ---------------------------------------------------------------------------

  /** The module-level `routes` object together with `add` and `match`. */
  class RouteTable<T> {
    var nodes: seq<Node<T>>
    ghost var paths: seq<seq<string>>

    ghost predicate Valid()
      reads this
    {
      WellFormed(nodes, paths)
    }

    /** `const routes = {}`. */
    constructor ()
      ensures Valid()
      ensures nodes == [Empty()]
      ensures forall p :: Exists(nodes, p) <==> p == []
      ensures forall p :: Lookup(nodes, p) == None
    {
      nodes := [Empty()];
      paths := [[]];
    }

    /** `add(segments, target)`. */
    method Add(segments: seq<string>, target: T)
      requires Valid()
      modifies this
      ensures Valid()
      ensures nodes == Insert(old(nodes), segments, target)
      ensures forall p :: Exists(nodes, p) <==> Exists(old(nodes), p) || p <= segments
      ensures forall p :: Lookup(nodes, p) == if p == segments then Some(target) else Lookup(old(nodes), p)
    {
      var current: nat := 0;
      var i := 0;
      while i < |segments|
        invariant 0 <= i <= |segments|
        invariant Closed(nodes) && current < |nodes| && |paths| == |nodes|
        invariant InsertFrom(nodes, current, segments[i..], target) == Insert(old(nodes), segments, target)
        invariant InsertPaths(nodes, paths, current, segments[i..]) == InsertPaths(old(nodes), old(paths), 0, segments)
      {
        var segment := segments[i];
        assert segments[i..][0] == segment && segments[i..][1..] == segments[i + 1..];
        if segment !in nodes[current].children {
          nodes := nodes[current := nodes[current].(children := nodes[current].children[segment := |nodes|])] + [Empty()];
          paths := paths + [paths[current] + [segment]];
        }
        current := nodes[current].children[segment];
        i := i + 1;
      }
      nodes := nodes[current := nodes[current].(target := Some(target))];
      InsertEffect(old(nodes), old(paths), 0, segments, target);
    }

    /** `match(segments)`. */
    method Match(segments: seq<string>) returns (r: Option<(T, seq<string>)>)
      requires Valid()
      ensures r == MatchSpec(nodes, segments)
    {
      var current: Option<nat> := Some(0);
      var params: seq<string> := [];
      ghost var at: seq<string> := [];
      var i := 0;
      while i < |segments|
        invariant 0 <= i <= |segments|
        invariant current.Some? && current.value < |nodes| && Find(nodes, at) == current
        invariant Walk(nodes, at, params, segments[i..]) == Walk(nodes, [], [], segments)
      {
        var segment := segments[i];
        var c := current.value;
        assert segments[i..][0] == segment && segments[i..][1..] == segments[i + 1..];
        FindChild(nodes, paths, at, c, segment);
        FindChild(nodes, paths, at, c, Wildcard);
        if segment in nodes[c].children {
          current := Some(nodes[c].children[segment]);
          at := at + [segment];
        } else if Wildcard in nodes[c].children {
          params := params + [segment];
          current := Some(nodes[c].children[Wildcard]);
          at := at + [Wildcard];
        } else {
          current := None;
          break;
        }
        i := i + 1;
      }
      if current.Some? && nodes[current.value].target.Some? {
        r := Some((nodes[current.value].target.value, params));
      } else {
        r := None;
      }
    }
  }

  // ---------------------------------------------------------------------------
  // Lemmas about the arena
  // ---------------------------------------------------------------------------

  /** Following `p + [k]` is following `p`, then the child under `k`. */
  lemma {:induction false} FindSnoc<T>(nodes: seq<Node<T>>, at: nat, p: seq<string>, k: string)
    ensures FindFrom(nodes, at, p + [k]) ==
      match FindFrom(nodes, at, p)
      case None => None
      case Some(c) => FindFrom(nodes, c, [k])
    decreases |p|
  {
    if at < |nodes| && p != [] {
      assert (p + [k])[0] == p[0] && (p + [k])[1..] == p[1..] + [k];
      if p[0] in nodes[at].children {
        FindSnoc(nodes, nodes[at].children[p[0]], p[1..], k);
      }
    } else if at < |nodes| {
      assert p + [k] == [k];
    }
  }

  /** One step of `match`: the child of the node at `at` under `k` is the node at `at + [k]`. */
  lemma FindChild<T>(nodes: seq<Node<T>>, paths: seq<seq<string>>, at: seq<string>, c: nat, k: string)
    requires WellFormed(nodes, paths) && Find(nodes, at) == Some(c)
    ensures Find(nodes, at + [k]) == if k in nodes[c].children then Some(nodes[c].children[k]) else None
  {
    FindSnoc(nodes, 0, at, k);
    assert [k][1..] == [];
  }

  /** The node found along `p` from node `at` is labelled with `paths[at] + p`. */
  lemma {:induction false} FindPath<T>(nodes: seq<Node<T>>, paths: seq<seq<string>>, at: nat, p: seq<string>)
    requires WellFormed(nodes, paths) && at < |nodes| && FindFrom(nodes, at, p).Some?
    ensures paths[FindFrom(nodes, at, p).value] == paths[at] + p
    decreases |p|
  {
    if p != [] {
      var child := nodes[at].children[p[0]];
      FindPath(nodes, paths, child, p[1..]);
      assert paths[at] + p == paths[at] + [p[0]] + p[1..];
    }
  }

  /** Changing targets only does not change which nodes are found. */
  lemma {:induction false} FindSameShape<T>(a: seq<Node<T>>, b: seq<Node<T>>, at: nat, p: seq<string>)
    requires |a| == |b| && forall i :: 0 <= i < |a| ==> a[i].children == b[i].children
    ensures FindFrom(a, at, p) == FindFrom(b, at, p)
    decreases |p|
  {
    if at < |a| && p != [] && p[0] in a[at].children {
      FindSameShape(a, b, a[at].children[p[0]], p[1..]);
    }
  }

  /**
   * Creating a child: the only key sequence whose node changes is
   * `paths[c] + [k]`, which now reaches the new node.
   */
  lemma {:induction false} GrowFind<T>(nodes: seq<Node<T>>, paths: seq<seq<string>>, c: nat, k: string, p: seq<string>)
    requires WellFormed(nodes, paths) && c < |nodes| && k !in nodes[c].children
    requires Find(nodes, paths[c]) == Some(c)
    ensures Find(Grow(nodes, c, k), p) == if p == paths[c] + [k] then Some(|nodes|) else Find(nodes, p)
    decreases |p|
  {
    var grown := Grow(nodes, c, k);
    var np := paths[c] + [k];
    if p != [] {
      var q, x := p[..|p| - 1], p[|p| - 1];
      assert p == q + [x];
      FindSnoc(nodes, 0, q, x);
      FindSnoc(grown, 0, q, x);
      GrowFind(nodes, paths, c, k, q);
      FindChild(nodes, paths, paths[c], c, k);
      if p == np {
        assert q == paths[c] && x == k;
      }
      if q == np {
        assert p != np;
      } else if Find(nodes, q).Some? {
        FindPath(nodes, paths, 0, q);
        if Find(nodes, q).value == c {
          assert q == paths[c];
        }
      }
    }
  }

  lemma GrowWellFormed<T>(nodes: seq<Node<T>>, paths: seq<seq<string>>, c: nat, k: string)
    requires WellFormed(nodes, paths) && c < |nodes| && k !in nodes[c].children
    ensures WellFormed(Grow(nodes, c, k), paths + [paths[c] + [k]])
  {
  }

  /** `p` lies on the way from key sequence `a` to key sequence `b`. */
  predicate Between(a: seq<string>, p: seq<string>, b: seq<string>)
  {
    a <= p && p <= b
  }

  lemma PrefixStep(a: seq<string>, k: string, rest: seq<string>, p: seq<string>)
    ensures Between(a, p, a + [k] + rest) <==> (p == a || Between(a + [k], p, a + [k] + rest))
  {
    if Between(a, p, a + [k] + rest) && p != a {
      assert |p| > |a|;
      assert p[|a|] == (a + [k] + rest)[|a|] == k;
      assert p[..|a| + 1] == a + [k];
    }
  }

  /**
   * The effect of `add` on the abstract trie: a node exists afterwards at
   * exactly the old key sequences and the prefixes of `paths[c] + rest`
   * from `paths[c]` on; the target is stored under `paths[c] + rest`, and
   * every other key sequence keeps its target.
   */
  lemma {:induction false} InsertEffect<T>(nodes: seq<Node<T>>, paths: seq<seq<string>>, c: nat, rest: seq<string>, t: T)
    requires WellFormed(nodes, paths) && c < |nodes| && Find(nodes, paths[c]) == Some(c)
    ensures WellFormed(InsertFrom(nodes, c, rest, t), InsertPaths(nodes, paths, c, rest))
    ensures forall p ::
      Exists(InsertFrom(nodes, c, rest, t), p) <==> (Exists(nodes, p) || Between(paths[c], p, paths[c] + rest))
    ensures forall p ::
      Lookup(InsertFrom(nodes, c, rest, t), p) == (if p == paths[c] + rest then Some(t) else Lookup(nodes, p))
    decreases |rest|
  {
    var after := InsertFrom(nodes, c, rest, t);
    if rest == [] {
      assert paths[c] + rest == paths[c];
      forall p ensures Find(after, p) == Find(nodes, p) {
        FindSameShape(after, nodes, 0, p);
      }
      forall p ensures Lookup(after, p) == if p == paths[c] then Some(t) else Lookup(nodes, p) {
        if Find(nodes, p).Some? {
          FindPath(nodes, paths, 0, p);
          assert paths[0] + p == p;
        }
      }
      forall p ensures Exists(after, p) <==> (Exists(nodes, p) || Between(paths[c], p, paths[c])) {
        if Between(paths[c], p, paths[c]) {
          assert p == paths[c];
        }
      }
    } else {
      var k := rest[0];
      assert paths[c] + rest == paths[c] + [k] + rest[1..];
      forall p ensures Between(paths[c], p, paths[c] + rest) <==>
        (p == paths[c] || Between(paths[c] + [k], p, paths[c] + [k] + rest[1..]))
      {
        PrefixStep(paths[c], k, rest[1..], p);
      }
      if k in nodes[c].children {
        var d := nodes[c].children[k];
        FindChild(nodes, paths, paths[c], c, k);
        InsertEffect(nodes, paths, d, rest[1..], t);
      } else {
        var grown := Grow(nodes, c, k);
        var grownPaths := paths + [paths[c] + [k]];
        GrowWellFormed(nodes, paths, c, k);
        forall p ensures Find(grown, p) == if p == paths[c] + [k] then Some(|nodes|) else Find(nodes, p) {
          GrowFind(nodes, paths, c, k, p);
        }
        FindChild(nodes, paths, paths[c], c, k);
        InsertEffect(grown, grownPaths, |nodes|, rest[1..], t);
      }
    }
  }

  /** The effect of `add` from the root, as `RouteTable.Add` promises it. */
  lemma InsertSpec<T>(nodes: seq<Node<T>>, paths: seq<seq<string>>, s: seq<string>, t: T)
    requires WellFormed(nodes, paths)
    ensures WellFormed(Insert(nodes, s, t), InsertPaths(nodes, paths, 0, s))
    ensures forall p :: Exists(Insert(nodes, s, t), p) <==> Exists(nodes, p) || p <= s
    ensures forall p :: Lookup(Insert(nodes, s, t), p) == if p == s then Some(t) else Lookup(nodes, p)
  {
    InsertEffect(nodes, paths, 0, s, t);
  }

  // ---------------------------------------------------------------------------
  // Lemmas about match
  // ---------------------------------------------------------------------------

  /** Following `p + q` is following `p`, then `q`. */
  lemma {:induction false} FindAppend<T>(nodes: seq<Node<T>>, at: nat, p: seq<string>, q: seq<string>)
    ensures FindFrom(nodes, at, p + q) ==
      match FindFrom(nodes, at, p)
      case None => None
      case Some(c) => FindFrom(nodes, c, q)
    decreases |p|
  {
    if at < |nodes| && p != [] {
      assert (p + q)[0] == p[0] && (p + q)[1..] == p[1..] + q;
      if p[0] in nodes[at].children {
        FindAppend(nodes, nodes[at].children[p[0]], p[1..], q);
      }
    } else if at < |nodes| {
      assert p + q == q;
    }
  }

  /** The key sequences with a node are closed under prefixes. */
  lemma ExistsPrefix<T>(nodes: seq<Node<T>>, p: seq<string>, q: seq<string>)
    requires q <= p && Exists(nodes, p)
    ensures Exists(nodes, q)
  {
    assert p == q + p[|q|..];
    FindAppend(nodes, 0, q, p[|q|..]);
  }

  /**
   * One step of the greedy walk at the node with key sequence `here`: token
   * `t` is consumed by the child under `s`, which is `t` itself whenever that
   * child exists, and otherwise the wildcard child.
   */
  predicate GreedyStep<T>(nodes: seq<Node<T>>, here: seq<string>, s: string, t: string)
  {
    Exists(nodes, here + [s]) && (s == t || (s == Wildcard && !Exists(nodes, here + [t])))
  }

  /** `steps` is the key sequence that `match` follows from `at` for `tokens`. */
  predicate GreedyFrom<T>(nodes: seq<Node<T>>, at: seq<string>, steps: seq<string>, tokens: seq<string>)
  {
    |steps| == |tokens| &&
    forall i :: 0 <= i < |steps| ==> GreedyStep(nodes, at + steps[..i], steps[i], tokens[i])
  }

  predicate Greedy<T>(nodes: seq<Node<T>>, steps: seq<string>, tokens: seq<string>)
  {
    GreedyFrom(nodes, [], steps, tokens)
  }

  /** The tokens consumed by wildcard steps, i.e. where the key followed differs from the token, in order. */
  function Captured(steps: seq<string>, tokens: seq<string>): (r: seq<string>)
    requires |steps| == |tokens|
    ensures |r| <= |tokens|
  {
    if tokens == [] then []
    else (if steps[0] != tokens[0] then [tokens[0]] else []) + Captured(steps[1..], tokens[1..])
  }

  lemma GreedyFromCons<T>(nodes: seq<Node<T>>, at: seq<string>, steps: seq<string>, tokens: seq<string>)
    requires |steps| == |tokens| > 0
    ensures GreedyFrom(nodes, at, steps, tokens) <==>
      GreedyStep(nodes, at, steps[0], tokens[0]) && GreedyFrom(nodes, at + [steps[0]], steps[1..], tokens[1..])
  {
    assert at + steps[..0] == at;
    forall i | 0 <= i < |steps| - 1
      ensures at + steps[..i + 1] == at + [steps[0]] + steps[1..][..i]
    {
      assert steps[..i + 1] == [steps[0]] + steps[1..][..i];
    }
    if GreedyFrom(nodes, at + [steps[0]], steps[1..], tokens[1..]) && GreedyStep(nodes, at, steps[0], tokens[0]) {
      forall i | 0 <= i < |steps| ensures GreedyStep(nodes, at + steps[..i], steps[i], tokens[i]) {
        if i > 0 {
          assert GreedyStep(nodes, at + [steps[0]] + steps[1..][..i - 1], steps[1..][i - 1], tokens[1..][i - 1]);
        }
      }
    }
    if GreedyFrom(nodes, at, steps, tokens) {
      forall i | 0 <= i < |steps| - 1
        ensures GreedyStep(nodes, at + [steps[0]] + steps[1..][..i], steps[1..][i], tokens[1..][i])
      {
        assert GreedyStep(nodes, at + steps[..i + 1], steps[i + 1], tokens[i + 1]);
      }
    }
  }

  /** Whatever `Walk` reaches, it reaches along the greedy key sequence, capturing its wildcard tokens. */
  lemma {:induction false} WalkSound<T>(nodes: seq<Node<T>>, at: seq<string>, params: seq<string>, tokens: seq<string>)
    requires Walk(nodes, at, params, tokens).Some?
    ensures var (q, captured) := Walk(nodes, at, params, tokens).value;
      |q| == |at| + |tokens| && at <= q &&
      GreedyFrom(nodes, at, q[|at|..], tokens) && captured == params + Captured(q[|at|..], tokens)
    decreases |tokens|
  {
    var (q, captured) := Walk(nodes, at, params, tokens).value;
    if tokens == [] {
      assert q == at;
    } else {
      var t := tokens[0];
      var s := if Exists(nodes, at + [t]) then t else Wildcard;
      var ps := if Exists(nodes, at + [t]) then params else params + [t];
      assert Walk(nodes, at, params, tokens) == Walk(nodes, at + [s], ps, tokens[1..]);
      WalkSound(nodes, at + [s], ps, tokens[1..]);
      var steps := q[|at|..];
      assert q[|at| + 1..] == steps[1..];
      assert steps[0] == s;
      GreedyFromCons(nodes, at, steps, tokens);
    }
  }

  /** Along a greedy key sequence, `Walk` succeeds. */
  lemma {:induction false} WalkComplete<T>(nodes: seq<Node<T>>, at: seq<string>, params: seq<string>, steps: seq<string>, tokens: seq<string>)
    requires GreedyFrom(nodes, at, steps, tokens)
    ensures Walk(nodes, at, params, tokens) == Some((at + steps, params + Captured(steps, tokens)))
    decreases |tokens|
  {
    if tokens == [] {
      assert at + steps == at && params + Captured(steps, tokens) == params;
    } else {
      GreedyFromCons(nodes, at, steps, tokens);
      var s, t := steps[0], tokens[0];
      var ps := if s == t then params else params + [t];
      assert Walk(nodes, at, params, tokens) == Walk(nodes, at + [s], ps, tokens[1..]);
      WalkComplete(nodes, at + [s], ps, steps[1..], tokens[1..]);
      assert at + [s] + steps[1..] == at + steps;
      assert Captured(steps, tokens) == (if s != t then [t] else []) + Captured(steps[1..], tokens[1..]);
      assert params + Captured(steps, tokens) == ps + Captured(steps[1..], tokens[1..]);
    }
  }

  /**
   * `match` soundness: on success the target is the one stored at the end of
   * the greedy key sequence, and the captures are that sequence's wildcard tokens.
   */
  lemma MatchSound<T>(nodes: seq<Node<T>>, tokens: seq<string>)
    requires MatchSpec(nodes, tokens).Some?
    ensures var q := Walk(nodes, [], [], tokens).value.0;
      Greedy(nodes, q, tokens) &&
      Lookup(nodes, q) == Some(MatchSpec(nodes, tokens).value.0) &&
      MatchSpec(nodes, tokens).value.1 == Captured(q, tokens)
  {
    WalkSound(nodes, [], [], tokens);
    var q := Walk(nodes, [], [], tokens).value.0;
    assert q[0..] == q;
  }

  /** `match` completeness: along a greedy key sequence, `match` returns what is stored there. */
  lemma MatchComplete<T>(nodes: seq<Node<T>>, steps: seq<string>, tokens: seq<string>)
    requires Greedy(nodes, steps, tokens)
    ensures MatchSpec(nodes, tokens) ==
      match Lookup(nodes, steps)
      case None => None
      case Some(t) => Some((t, Captured(steps, tokens)))
  {
    WalkComplete(nodes, [], [], steps, tokens);
    assert [] + steps == steps && [] + Captured(steps, tokens) == Captured(steps, tokens);
  }

  /** The two ways `match` returns `[null, null]`: no greedy key sequence, or no target at its end. */
  lemma MatchFailure<T>(nodes: seq<Node<T>>, tokens: seq<string>)
    ensures MatchSpec(nodes, tokens).None? <==> forall q :: Greedy(nodes, q, tokens) ==> Lookup(nodes, q).None?
  {
    if MatchSpec(nodes, tokens).Some? {
      MatchSound(nodes, tokens);
    } else {
      forall q | Greedy(nodes, q, tokens) ensures Lookup(nodes, q).None? {
        MatchComplete(nodes, q, tokens);
      }
    }
  }

  /**
   * Where the walk gets stuck: after a greedy prefix `steps` of the tokens,
   * the node reached has neither a child under the next token nor a wildcard child.
   */
  lemma {:induction false} WalkStuck<T>(nodes: seq<Node<T>>, at: seq<string>, params: seq<string>, tokens: seq<string>)
      returns (i: nat, steps: seq<string>)
    requires Walk(nodes, at, params, tokens).None?
    ensures i < |tokens| && GreedyFrom(nodes, at, steps, tokens[..i])
    ensures !Exists(nodes, at + steps + [tokens[i]]) && !Exists(nodes, at + steps + [Wildcard])
    decreases |tokens|
  {
    var t := tokens[0];
    if Exists(nodes, at + [t]) || Exists(nodes, at + [Wildcard]) {
      var s := if Exists(nodes, at + [t]) then t else Wildcard;
      var ps := if Exists(nodes, at + [t]) then params else params + [t];
      assert Walk(nodes, at, params, tokens) == Walk(nodes, at + [s], ps, tokens[1..]);
      var j, rest := WalkStuck(nodes, at + [s], ps, tokens[1..]);
      i, steps := j + 1, [s] + rest;
      var done := tokens[..i];
      assert done[0] == t && done[1..] == tokens[1..][..j];
      assert steps[0] == s && steps[1..] == rest;
      assert GreedyStep(nodes, at, s, t);
      GreedyFromCons(nodes, at, steps, done);
      assert tokens[1..][j] == tokens[i];
      Associative(at, [s], rest);
    } else {
      i, steps := 0, [];
      assert at + steps == at;
    }
  }

  /** Regrouping a concatenation; kept apart because the walk lemmas' context makes this step costly. */
  lemma Associative(a: seq<string>, b: seq<string>, c: seq<string>)
    ensures a + (b + c) == a + b + c
  {
  }

  /** Insert/lookup round trip: a stored key sequence matches itself, capturing nothing. */
  lemma MatchStored<T>(nodes: seq<Node<T>>, s: seq<string>)
    requires Lookup(nodes, s).Some?
    ensures MatchSpec(nodes, s) == Some((Lookup(nodes, s).value, []))
  {
    forall i | 0 <= i < |s| ensures GreedyStep(nodes, [] + s[..i], s[i], s[i]) {
      assert [] + s[..i] + [s[i]] == s[..i + 1];
      ExistsPrefix(nodes, s, s[..i + 1]);
    }
    CapturedSame(s);
    MatchComplete(nodes, s, s);
  }

  lemma {:induction false} CapturedSame(s: seq<string>)
    ensures Captured(s, s) == []
  {
    if s != [] {
      CapturedSame(s[1..]);
    }
  }

  /** Positions where `pattern` (a key sequence) admits `tokens`: the same length, literal or wildcard at each place. */
  predicate Fits(pattern: seq<string>, tokens: seq<string>)
  {
    |pattern| == |tokens| && forall i :: 0 <= i < |pattern| ==> pattern[i] == tokens[i] || pattern[i] == Wildcard
  }

  /**
   * A table holding the single key sequence `key`: a request matches exactly
   * when it fits the key, and captures the tokens at its wildcard positions
   * (other than a literal `*` token, which enters the wildcard child as a literal).
   */
  lemma SingleRoute<T>(key: seq<string>, t: T, tokens: seq<string>)
    ensures MatchSpec(Insert([Empty()], key, t), tokens) ==
      if Fits(key, tokens) then Some((t, Captured(key, tokens))) else None
  {
    var nodes := Insert([Empty()], key, t);
    InsertSpec([Empty()], [[]], key, t);
    assert forall p :: Exists(nodes, p) <==> p <= key;
    if Fits(key, tokens) {
      forall i | 0 <= i < |key| ensures GreedyStep(nodes, [] + key[..i], key[i], tokens[i]) {
        assert [] + key[..i] + [key[i]] == key[..i + 1];
        if key[i] != tokens[i] {
          var p := key[..i] + [tokens[i]];
          assert p[i] != key[i];
          assert !(p <= key);
        }
      }
      MatchComplete(nodes, key, tokens);
    } else if MatchSpec(nodes, tokens).Some? {
      MatchSound(nodes, tokens);
      var q := Walk(nodes, [], [], tokens).value.0;
      assert q == key;
      forall i | 0 <= i < |key| ensures key[i] == tokens[i] || key[i] == Wildcard {
        assert GreedyStep(nodes, [] + key[..i], key[i], tokens[i]);
      }
      assert false;
    }
  }

  /**
   * No backtracking: with the keys `m a b` and `m * c` stored, the request
   * `m a c` enters the literal child `a`, dead-ends there and fails,
   * although it fits the second key sequence.
   */
  lemma NoBacktracking<T>(m: string, a: string, b: string, c: string, t1: T, t2: T)
    requires a != Wildcard && b != Wildcard && b != c && c != Wildcard
    ensures var nodes := Insert(Insert([Empty()], [m, a, b], t1), [m, Wildcard, c], t2);
      Fits([m, Wildcard, c], [m, a, c]) && MatchSpec(nodes, [m, a, c]) == None
  {
    var one := Insert([Empty()], [m, a, b], t1);
    var nodes := Insert(one, [m, Wildcard, c], t2);
    InsertSpec([Empty()], [[]], [m, a, b], t1);
    InsertSpec(one, InsertPaths([Empty<T>()], [[]], 0, [m, a, b]), [m, Wildcard, c], t2);
    var mac: seq<string> := [m, a, c];
    var mas: seq<string> := [m, a, Wildcard];
    assert mac[2] != [m, a, b][2] && mac[1] != [m, Wildcard, c][1];
    assert mas[2] != [m, a, b][2] && mas[1] != [m, Wildcard, c][1];
    assert !Exists(nodes, mac) && !Exists(nodes, mas);
    assert Exists(nodes, [m]) by { assert [m] <= [m, a, b]; }
    assert Exists(nodes, [m, a]) by { assert [m, a] <= [m, a, b]; }
    assert [m, a] + [c] == mac && [m, a] + [Wildcard] == mas;
    assert Walk(nodes, [m, a], [], [c]) == None;
    assert [m, a, c][1..] == [a, c] && [a, c][1..] == [c];
    assert [] + [m] == [m] && [m] + [a] == [m, a];
    assert Walk(nodes, [m], [], [a, c]) == Walk(nodes, [m, a], [], [c]);
    assert Walk(nodes, [], [], [m, a, c]) == Walk(nodes, [m], [], [a, c]);
  }

  /**
   * Adding a key sequence keeps every other stored target, yet it can change
   * what a request matches: a new literal child shadows the wildcard.
   */
  lemma LiteralShadowsWildcard<T>(m: string, x: string, y: string, t1: T, t2: T)
    requires x != Wildcard
    ensures var one := Insert([Empty()], [m, Wildcard], t1);
      MatchSpec(one, [m, x]) == Some((t1, [x])) &&
      MatchSpec(Insert(one, [m, x, y], t2), [m, x]) == None &&
      Lookup(Insert(one, [m, x, y], t2), [m, Wildcard]) == Some(t1)
  {
    var one := Insert([Empty()], [m, Wildcard], t1);
    SingleRoute([m, Wildcard], t1, [m, x]);
    assert Fits([m, Wildcard], [m, x]);
    assert Captured([m, Wildcard], [m, x]) == [x] by {
      assert [m, Wildcard][1..] == [Wildcard] && [m, x][1..] == [x];
    }
    var two := Insert(one, [m, x, y], t2);
    InsertSpec([Empty()], [[]], [m, Wildcard], t1);
    InsertSpec(one, InsertPaths([Empty<T>()], [[]], 0, [m, Wildcard]), [m, x, y], t2);
    var mx: seq<string> := [m, x];
    assert mx != [m, Wildcard] by { assert mx[1] != [m, Wildcard][1]; }
    assert Exists(two, mx) by { assert mx <= [m, x, y]; }
    assert Exists(two, [m]) by { assert [m] <= [m, x, y]; }
    assert Lookup(two, mx) == None;
    assert [m, Wildcard] != [m, x, y];
    assert [] + [m] == [m] && [m] + [x] == mx && mx[1..] == [x] && [x][1..] == [];
    assert Walk(two, [m], [], [x]) == Walk(two, mx, [], []);
    assert Walk(two, [], [], mx) == Walk(two, [m], [], [x]);
  }

  /** How many wildcard keys a key sequence holds. */
  function CountWildcards(keys: seq<string>): nat
  {
    if keys == [] then 0 else (if keys[0] == Wildcard then 1 else 0) + CountWildcards(keys[1..])
  }

  /** The tokens at the wildcard positions of `pattern`. */
  function AtWildcards(pattern: seq<string>, tokens: seq<string>): (r: seq<string>)
    requires |pattern| == |tokens|
    ensures |r| == CountWildcards(pattern)
  {
    if tokens == [] then []
    else (if pattern[0] == Wildcard then [tokens[0]] else []) + AtWildcards(pattern[1..], tokens[1..])
  }

  /**
   * When no request token is itself `*`, the captures of a fitting request
   * are exactly its tokens at the pattern's wildcard positions, one per wildcard.
   */
  lemma {:induction false} CapturedAtWildcards(pattern: seq<string>, tokens: seq<string>)
    requires Fits(pattern, tokens)
    requires forall i :: 0 <= i < |tokens| ==> tokens[i] != Wildcard
    ensures Captured(pattern, tokens) == AtWildcards(pattern, tokens)
  {
    if tokens != [] {
      assert Fits(pattern[1..], tokens[1..]) by {
        forall i | 0 <= i < |pattern| - 1
          ensures pattern[1..][i] == tokens[1..][i] || pattern[1..][i] == Wildcard
        {
          assert pattern[i + 1] == tokens[i + 1] || pattern[i + 1] == Wildcard;
        }
      }
      CapturedAtWildcards(pattern[1..], tokens[1..]);
      assert pattern[0] == tokens[0] || pattern[0] == Wildcard;
    }
  }

  /** The walk depends only on which key sequences exist. */
  lemma {:induction false} WalkSameView<T>(n1: seq<Node<T>>, n2: seq<Node<T>>, at: seq<string>, params: seq<string>, tokens: seq<string>)
    requires forall p :: Exists(n1, p) == Exists(n2, p)
    ensures Walk(n1, at, params, tokens) == Walk(n2, at, params, tokens)
    decreases |tokens|
  {
    if tokens != [] {
      WalkSameView(n1, n2, at + [tokens[0]], params, tokens[1..]);
      WalkSameView(n1, n2, at + [Wildcard], params + [tokens[0]], tokens[1..]);
    }
  }

  /** Registering the same key sequence again replaces its target and changes nothing else a request can see. */
  lemma ReRegisterReplaces<T>(nodes: seq<Node<T>>, paths: seq<seq<string>>, s: seq<string>, t1: T, t2: T, tokens: seq<string>)
    requires WellFormed(nodes, paths)
    ensures MatchSpec(Insert(Insert(nodes, s, t1), s, t2), tokens) == MatchSpec(Insert(nodes, s, t2), tokens)
  {
    var once := Insert(nodes, s, t1);
    InsertSpec(nodes, paths, s, t1);
    InsertSpec(once, InsertPaths(nodes, paths, 0, s), s, t2);
    InsertSpec(nodes, paths, s, t2);
    var twice, direct := Insert(once, s, t2), Insert(nodes, s, t2);
    WalkSameView(twice, direct, [], [], tokens);
    assert forall p :: Lookup(twice, p) == Lookup(direct, p);
  }
}
