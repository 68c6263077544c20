/**
 * The parameter mapper of the router (`getResolveFunc` in index.js and the
 * segment rewrite of `addRoute`): which registration segments capture, the
 * `[name, type]` mapping built for each of them, and the resolver that turns
 * the list captured by `match` into the handler's arguments.
 */
module Params {
  import opened Wrappers
  import Segments
  import Trie

  /** `item[0] === "<"`: a named segment `<name>` or `<name:type>` (closing `>` not checked). */
  predicate IsNamed(item: string)
  {
    |item| > 0 && item[0] == '<'
  }

  /** `item === '*' || item[0] === '<'`: a segment that captures a request token. */
  predicate IsCapture(item: string)
  {
    item == Trie.Wildcard || IsNamed(item)
  }

  /** `segments.map((item) => item[0] === "<" ? "*" : item)`: the trie key of a registration. */
  function Rewrite(segments: seq<string>): (r: seq<string>)
    ensures |r| == |segments|
    ensures forall i :: 0 <= i < |r| ==> (r[i] == Trie.Wildcard <==> IsCapture(segments[i]))
    ensures forall i :: 0 <= i < |r| && !IsCapture(segments[i]) ==> r[i] == segments[i]
  {
    seq(|segments|, i requires 0 <= i < |segments| => if IsNamed(segments[i]) then Trie.Wildcard else segments[i])
  }

  /** `segments.filter((item) => item === '*' || item[0] === '<')`. */
  function Captures(segments: seq<string>): (r: seq<string>)
    ensures |r| <= |segments|
    ensures forall i :: 0 <= i < |r| ==> IsCapture(r[i]) && r[i] in segments
    ensures forall i :: 0 <= i < |segments| && IsCapture(segments[i]) ==> segments[i] in r
  {
    assert segments != [] ==> segments == [segments[0]] + segments[1..];
    if segments == [] then []
    else (if IsCapture(segments[0]) then [segments[0]] else []) + Captures(segments[1..])
  }

  /** JavaScript's `String(n)` for a natural number: its decimal digits. */
  function NatToString(n: nat): (r: string)
    ensures |r| > 0 && forall i :: 0 <= i < |r| ==> '0' <= r[i] <= '9'
    ensures r[0] == '0' ==> n == 0 && r == "0"
  {
    var digit := ('0' as int + n % 10) as char;
    if n < 10 then [digit] else NatToString(n / 10) + [digit]
  }

  /** The value of a string of decimal digits. */
  function DecimalValue(s: string): nat
  {
    if s == [] then 0
    else DecimalValue(s[..|s| - 1]) * 10 + (if '0' <= s[|s| - 1] <= '9' then s[|s| - 1] as int - '0' as int else 0)
  }

  /** `s.substring(start, end)`: both ends clamped to the string, swapped if out of order. */
  function Substring(s: string, start: int, end: int): (r: string)
    ensures 0 <= start <= end <= |s| ==> r == s[start..end]
    ensures 0 <= end <= start <= |s| ==> r == s[end..start]
    ensures start <= 0 && 0 <= end <= |s| ==> r == s[..end]
    ensures end <= 0 && 0 <= start <= |s| ==> r == s[..start]
    ensures end >= |s| && 0 <= start <= |s| ==> r == s[start..]
    ensures start >= |s| && 0 <= end <= |s| ==> r == s[end..]
    ensures (start <= 0 && end <= 0) || (start >= |s| && end >= |s|) ==> r == []
    ensures (start <= 0 && end >= |s|) || (end <= 0 && start >= |s|) ==> r == s
  {
    var a := if start < 0 then 0 else if start > |s| then |s| else start;
    var b := if end < 0 then 0 else if end > |s| then |s| else end;
    if a <= b then s[a..b] else s[b..a]
  }

  /**
   * One mapping `[name, type]`. The name is the property key the capture is
   * stored under; `kind` is the type text (`None` when the destructured
   * `type` is `undefined`).
   */
  datatype Mapping = Mapping(key: string, kind: Option<string>)

  /** The text of a named segment between its first and its last character: `item.substring(1, item.length - 1)`. */
  function Inner(item: string): string
  {
    Substring(item, 1, |item| - 1)
  }

  /**
   * `const [name, type] = inner.split(":")`: the name is the text before the
   * first colon (all of `inner` when it has none), the type the text between
   * that colon and the next colon or the end, and `undefined` without a colon.
   */
  predicate Destructures(inner: string, m: Mapping)
  {
    && ':' !in m.key && m.key <= inner
    && (m.kind.None? <==> ':' !in inner)
    && (m.kind.None? ==> m.key == inner)
    && (m.kind.Some? ==>
          && |m.key| < |inner| && inner[|m.key|] == ':'
          && var rest := inner[|m.key| + 1..];
          && ':' !in m.kind.value && m.kind.value <= rest
          && (|m.kind.value| == |rest| || rest[|m.kind.value|] == ':'))
  }

  /**
   * The mapping of the `index`-th capture segment: `[index, 'string']` for a
   * bare `*` (the number becomes the property key `String(index)`), and for
   * `<...>` the first two pieces of the text between the first and the last
   * character, split at `:`.
   */
  function MappingOf(item: string, index: nat): (r: Mapping)
    ensures item == Trie.Wildcard ==> r == Mapping(NatToString(index), Some("string"))
    ensures item != Trie.Wildcard ==> Destructures(Inner(item), r)
  {
    if item == Trie.Wildcard then Mapping(NatToString(index), Some("string"))
    else
      var parts := Segments.Split(Inner(item), ':');
      SplitDestructures(Inner(item));
      Mapping(parts[0], if |parts| > 1 then Some(parts[1]) else None)
  }

  /** The first two pieces of a `split(":")` destructure as described by `Destructures`. */
  lemma SplitDestructures(inner: string)
    ensures var parts := Segments.Split(inner, ':');
      Destructures(inner, Mapping(parts[0], if |parts| > 1 then Some(parts[1]) else None))
  {
    var parts := Segments.Split(inner, ':');
    assert ':' !in parts[0];
    if |parts| == 1 {
      assert inner == parts[0];
    } else {
      var tail := Segments.Join(parts[1..], ':');
      assert inner == parts[0] + [':'] + tail;
      assert inner[|parts[0]| + 1..] == tail;
      assert ':' !in parts[1];
      if |parts| > 2 {
        assert parts[1..][1..] == parts[2..];
        assert tail == parts[1] + [':'] + Segments.Join(parts[2..], ':');
      }
    }
  }

  /** The `mappings` list of `getResolveFunc`: one mapping per capture segment, in order. */
  function Mappings(segments: seq<string>): (r: seq<Mapping>)
    ensures |r| == |Captures(segments)|
    ensures forall i :: 0 <= i < |r| && Captures(segments)[i] == Trie.Wildcard ==>
      r[i] == Mapping(NatToString(i), Some("string"))
    ensures forall i :: 0 <= i < |r| && Captures(segments)[i] != Trie.Wildcard ==>
      Destructures(Inner(Captures(segments)[i]), r[i])
  {
    var captures := Captures(segments);
    seq(|captures|, i requires 0 <= i < |captures| => MappingOf(captures[i], i))
  }

  /** A property value of the named-mode result object. */
  datatype Value =
    | Text(raw: string)      // the captured string itself
    | Numeric(raw: string)   // `Number(raw)`, the JavaScript conversion, left uninterpreted
    | Undefined              // `params[index]` past the end of the captured list
    | NumberOfUndefined      // `Number(params[index])` past the end: `Number(undefined)`

  /** The arguments a resolver hands over: the captured list, or the named-mode object. */
  datatype Args = List(params: seq<string>) | Object(fields: map<string, Value>)

  /** The closure `getResolveFunc` returns, as data. */
  datatype Resolver<H> = Positional(handler: H) | Named(handler: H, mappings: seq<Mapping>)

  /** `getResolveFunc(isObjParams, handler, segments)`. */
  function GetResolveFunc<H>(isObjParams: bool, handler: H, segments: seq<string>): (r: Resolver<H>)
    ensures forall params :: Resolved(r, params).0 == handler
    ensures !isObjParams ==> forall params :: Resolved(r, params).1 == List(params)
    ensures isObjParams ==> forall params ::
      Resolved(r, params).1.Object? && IsNamedObject(Mappings(segments), params, Resolved(r, params).1.fields)
  {
    if !isObjParams then Positional(handler)
    else
      var ms := Mappings(segments);
      assert forall params :: IsNamedObject(ms, params, Fields(ms, params)) by {
        forall params ensures IsNamedObject(ms, params, Fields(ms, params)) {
          FieldsKeys(ms, params);
          FieldsLastWins(ms, params);
        }
      }
      Named(handler, ms)
  }

  /** `type === 'number' ? Number(params[index]) : params[index]`. */
  function FieldValue(m: Mapping, params: seq<string>, index: nat): (r: Value)
    ensures (r.Numeric? || r.NumberOfUndefined?) <==> m.kind == Some("number")
    ensures (r.Text? || r.Numeric?) <==> index < |params|
    ensures index < |params| ==> r.raw == params[index]
  {
    if m.kind == Some("number") then (if index < |params| then Numeric(params[index]) else NumberOfUndefined)
    else if index < |params| then Text(params[index]) else Undefined
  }

  /** No mapping after the `i`-th one writes the same key. */
  predicate LastWithKey(ms: seq<Mapping>, i: nat)
    requires i < |ms|
  {
    forall j :: i < j < |ms| ==> ms[j].key != ms[i].key
  }

  /**
   * `obj` is the named-mode object for `ms` and `params`: it has exactly the
   * mapping keys as properties, and each holds the value the last mapping with
   * that key computes from the capture at that mapping's position.
   */
  ghost predicate IsNamedObject(ms: seq<Mapping>, params: seq<string>, obj: map<string, Value>)
  {
    && (forall k :: k in obj <==> exists i :: 0 <= i < |ms| && ms[i].key == k)
    && (forall i :: 0 <= i < |ms| && LastWithKey(ms, i) ==> ms[i].key in obj && obj[ms[i].key] == FieldValue(ms[i], params, i))
  }

  /**
   * The object the `forEach` fills: one property per mapping key, holding the
   * value of the last mapping with that key (later assignments overwrite).
   */
  function Fields(ms: seq<Mapping>, params: seq<string>): (r: map<string, Value>)
    ensures forall k :: k in r ==> exists i :: 0 <= i < |ms| && ms[i].key == k && r[k] == FieldValue(ms[i], params, i)
    decreases |ms|
  {
    if ms == [] then map[]
    else
      var n := |ms| - 1;
      var init := Fields(ms[..n], params);
      assert forall i :: 0 <= i < n ==> ms[..n][i] == ms[i];
      init[ms[n].key := FieldValue(ms[n], params, n)]
  }

  /** The resolver applied to the captured list: `[handler, params]` or `[handler, result]`. */
  function Resolved<H>(rv: Resolver<H>, params: seq<string>): (H, Args)
  {
    match rv
    case Positional(h) => (h, List(params))
    case Named(h, ms) => (h, Object(Fields(ms, params)))
  }

  /** Calling the resolver closure: the named mode fills `result` one mapping at a time. */
  method Resolve<H>(rv: Resolver<H>, params: seq<string>) returns (handler: H, args: Args)
    ensures (handler, args) == Resolved(rv, params)
  {
    if rv.Positional? {
      return rv.handler, List(params);
    }
    var mappings := rv.mappings;
    var result: map<string, Value> := map[];
    var index := 0;
    while index < |mappings|
      invariant 0 <= index <= |mappings|
      invariant result == Fields(mappings[..index], params)
    {
      var m := mappings[index];
      assert mappings[..index + 1][..index] == mappings[..index];
      result := result[m.key := FieldValue(m, params, index)];
      index := index + 1;
    }
    assert mappings[..index] == mappings;
    return rv.handler, Object(result);
  }

  // ---------------------------------------------------------------------------
  // Properties of the mapper
  // ---------------------------------------------------------------------------

  /** The object has exactly the mapping keys as properties. */
  lemma {:induction false} FieldsKeys(ms: seq<Mapping>, params: seq<string>)
    ensures forall k :: k in Fields(ms, params) <==> exists i :: 0 <= i < |ms| && ms[i].key == k
    decreases |ms|
  {
    if ms != [] {
      var n := |ms| - 1;
      var init := ms[..n];
      FieldsKeys(init, params);
      var r := Fields(ms, params);
      forall k ensures k in r <==> exists i :: 0 <= i < |ms| && ms[i].key == k {
        if k in Fields(init, params) {
          var i :| 0 <= i < n && init[i].key == k;
          assert ms[i].key == k;
        }
        if exists i :: 0 <= i < |ms| && ms[i].key == k {
          var i :| 0 <= i < |ms| && ms[i].key == k;
          if i < n {
            assert init[i].key == k;
          }
        }
      }
    }
  }

  /**
   * Later assignments overwrite: a key holds the value of the last mapping
   * with that key, taken from the capture at that mapping's position.
   */
  lemma {:induction false} FieldsLastWins(ms: seq<Mapping>, params: seq<string>)
    ensures forall i :: 0 <= i < |ms| && LastWithKey(ms, i) ==>
      ms[i].key in Fields(ms, params) && Fields(ms, params)[ms[i].key] == FieldValue(ms[i], params, i)
    decreases |ms|
  {
    if ms != [] {
      var n := |ms| - 1;
      var init := ms[..n];
      FieldsLastWins(init, params);
      var r := Fields(ms, params);
      forall i | 0 <= i < |ms| && LastWithKey(ms, i)
        ensures ms[i].key in r && r[ms[i].key] == FieldValue(ms[i], params, i)
      {
        if i < n {
          assert ms[n].key != ms[i].key;
          assert init[i] == ms[i];
          assert LastWithKey(init, i);
        }
      }
    }
  }

  /** Registrations that differ only in the names (or types) of their named segments get the same trie key. */
  lemma RewriteForgetsNames(s1: seq<string>, s2: seq<string>)
    requires |s1| == |s2|
    requires forall i :: 0 <= i < |s1| ==> s1[i] == s2[i] || (IsNamed(s1[i]) && IsNamed(s2[i]))
    ensures Rewrite(s1) == Rewrite(s2)
  {
  }

  /**
   * When there are captures for all mappings, no property is `undefined` or
   * `Number(undefined)`: each holds its captured token, raw or through `Number`.
   */
  lemma {:induction false} FieldsDefined(ms: seq<Mapping>, params: seq<string>)
    requires |ms| <= |params|
    ensures forall k :: k in Fields(ms, params) ==> Fields(ms, params)[k].Text? || Fields(ms, params)[k].Numeric?
    decreases |ms|
  {
    if ms != [] {
      FieldsDefined(ms[..|ms| - 1], params);
    }
  }

  /** Capturing distributes over concatenation: the capture segments keep their order. */
  lemma {:induction false} CapturesAppend(a: seq<string>, b: seq<string>)
    ensures Captures(a + b) == Captures(a) + Captures(b)
  {
    if a == [] {
      assert a + b == b;
    } else {
      assert (a + b)[0] == a[0];
      assert (a + b)[1..] == a[1..] + b;
      CapturesAppend(a[1..], b);
    }
  }

  /** The capture segments are the segments at the wildcard positions of the trie key, in order. */
  lemma {:induction false} CapturesAtWildcardKeys(segments: seq<string>)
    ensures Captures(segments) == Trie.AtWildcards(Rewrite(segments), segments)
  {
    if segments != [] {
      assert Rewrite(segments)[1..] == Rewrite(segments[1..]);
      CapturesAtWildcardKeys(segments[1..]);
    }
  }

  /**
   * The `j`-th segment, when it captures, is mapped at the index that counts
   * the capture segments before it, under the mapping built from its own text.
   */
  lemma CapturePosition(segments: seq<string>, j: nat)
    requires j < |segments| && IsCapture(segments[j])
    ensures var i := |Captures(segments[..j])|;
      i < |Mappings(segments)| && Captures(segments)[i] == segments[j] && Mappings(segments)[i] == MappingOf(segments[j], i)
  {
    var x := segments[j];
    assert segments == segments[..j] + ([x] + segments[j + 1..]);
    CapturesAppend(segments[..j], [x] + segments[j + 1..]);
    CapturesAppend([x], segments[j + 1..]);
    assert Captures([x]) == [x] by {
      assert [x][1..] == [];
    }
  }

  /** There is one mapping for every wildcard key the rewritten registration puts in the trie. */
  lemma {:induction false} MappingsMatchWildcards(segments: seq<string>)
    ensures |Mappings(segments)| == Trie.CountWildcards(Rewrite(segments))
  {
    CapturesCount(segments);
  }

  lemma {:induction false} CapturesCount(segments: seq<string>)
    ensures |Captures(segments)| == Trie.CountWildcards(Rewrite(segments))
  {
    if segments != [] {
      assert Rewrite(segments)[1..] == Rewrite(segments[1..]);
      CapturesCount(segments[1..]);
    }
  }

  /** Decimal digits round-trip: `String(n)` read back as a number is `n`. */
  lemma {:induction false} DecimalRoundTrip(n: nat)
    ensures DecimalValue(NatToString(n)) == n
  {
    var digit := ('0' as int + n % 10) as char;
    if n >= 10 {
      DecimalRoundTrip(n / 10);
      var s := NatToString(n / 10) + [digit];
      assert s[..|s| - 1] == NatToString(n / 10);
    } else {
      assert [digit][..0] == [];
    }
  }

  /** Distinct bare wildcards get distinct property keys. */
  lemma IndexKeysDistinct(i: nat, j: nat)
    requires i != j
    ensures MappingOf(Trie.Wildcard, i).key != MappingOf(Trie.Wildcard, j).key
  {
    DecimalRoundTrip(i);
    DecimalRoundTrip(j);
  }

  /** `<name>` maps to `name` with no type (`type` is `undefined`). */
  lemma NamedMapping(name: string, index: nat)
    requires ':' !in name
    ensures MappingOf("<" + name + ">", index) == Mapping(name, None)
  {
    var item := "<" + name + ">";
    assert Substring(item, 1, |item| - 1) == name by {
      assert item[1..|item| - 1] == name;
    }
    Segments.SplitNoSeparator(name, ':');
  }

  /** `<name:type>` maps to `name` with type `type`. */
  lemma TypedMapping(name: string, kind: string, index: nat)
    requires ':' !in name && ':' !in kind
    ensures MappingOf("<" + name + ":" + kind + ">", index) == Mapping(name, Some(kind))
  {
    var item := "<" + name + ":" + kind + ">";
    var inner := name + [':'] + kind;
    assert Substring(item, 1, |item| - 1) == inner by {
      assert item[1..|item| - 1] == inner;
    }
    Segments.SplitAppend(name, ':', kind);
    Segments.SplitNoSeparator(name, ':');
    Segments.SplitNoSeparator(kind, ':');
  }

  /** The text of a one-character segment `<` is not shortened: `substring(1, 0)` swaps its ends. */
  lemma LoneAngle(index: nat)
    ensures MappingOf("<", index) == Mapping("<", None)
  {
    assert Substring("<", 1, 0) == "<";
    Segments.SplitNoSeparator("<", ':');
  }
}
