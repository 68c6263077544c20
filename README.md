# line-router route table, modelled in Dafny

line-router is a small HTTP router for Node.js. It registers handlers with
`addRoute(method, path, handler)` and looks them up with
`matchRoute(method, url)`. The model covers the whole route-table core of
`index.js`:

- **Segmenter** (module `Segments`, file `segments.dfy`). `segment` and
  `removeQuery` cut a URL into routing tokens, which are the upper-cased
  method followed by the non-blank pieces between slashes of the query-free
  URL. The JavaScript string operations are modelled with the edge cases
  the router meets:
  - `indexOf` returns -1 when the character is absent;
  - `split` always yields at least one piece;
  - `trim` with its whitespace set, and the truthiness of its result;
  - `substring` with its clamping and swapping of bounds;
  - ASCII `toUpperCase`.
- **Trie** (module `Trie`, file `trie.dfy`). The module-level `routes`
  object is the class `RouteTable`, an arena of nodes. Each node maps keys to
  child indices and may hold a target, which is the `"/"` entry of the
  source.
  - `Add` and `Match` are the loops of `add` and `match`, each walking a
    `current` node.
  - A ghost labelling of every node with its key path proves that the arena
    is a trie.
  - `Match` is proved equal to `MatchSpec`, a reference definition over the
    abstract view: which key paths exist, and what each stores.
  - The lemmas characterise `MatchSpec` as a greedy walk without
    backtracking. At each step it takes the literal child if one exists, and
    otherwise the wildcard child, which captures the token.
- **Parameter mapper** (module `Params`, file `params.dfy`).
  - The `<...>` to `*` rewrite of `addRoute`.
  - The `mappings` list of `getResolveFunc`.
  - The resolver closure, as the datatype `Resolver`.
  - The `forEach` that fills the result object, as the method `Resolve`
    with its loop.
  - `Number(...)` is left uninterpreted as `Numeric(raw)`.
  - `params[index]` past the end is `Undefined`, and `Number(undefined)` is
    `NumberOfUndefined`. A `Numeric(raw)` value may itself be NaN in
    JavaScript (for a non-numeric `raw`); the model does not say which.
- **Router** (module `Router`, file `router.dfy`). `AddRoute` and
  `MatchRoute` operate on a `RouteTable`. `MatchRouteSpec` is the reference
  definition of `MatchRoute`. `AddRoute` is specified by the pure
  `Trie.Insert` together with the key paths that exist afterwards and what
  each of them stores. The lemmas cover end-to-end behaviour, including the two
  `addRoute`/`matchRoute` examples in the comments of `index.js`. The
  `add`/`match` example at index.js:133-135 is an instance of
  `Trie.SingleRoute`.

`wrappers.dfy` holds the `Option` datatype.

### Where the comments and the code differ, the model follows the code

- Nothing checks that a `<name:number>` capture is made of digits. `Number`
  is applied to whatever token was captured (`PostIdExample`). A
  non-numeric token still resolves, to `Number` of that token, and not to
  "not found".
- No type is rejected. A check of the type exists only in the
  commented-out block at index.js:104-117. A `<name:anything>` segment with
  any type other than `number` acts like `<name>`, except that the mapping
  records the type.
- The comment at index.js:67-69 shows the result as an array. The code
  builds an object whose keys are `0` (the position of the bare `*` among
  the capture segments) and `postid`.
- The rewrite and the mappings range over all segments, the method token
  included, as the code does. The examples therefore require that the
  upper-cased method is not itself `*` or `<`-prefixed.

## Model

| member | source | states |
|---|---|---|
| Segments.IndexOf | index.js:73 | -1 exactly when the character does not occur; otherwise a position holding it with no earlier occurrence |
| Segments.RemoveQuery | index.js:89-92 | the result is a prefix of the URL with no `?`; it is the whole URL when there is no `?`, and otherwise it stops right at the first `?` |
| Segments.Split | index.js:85 | at least one piece; no piece contains the separator; joining the pieces with the separator gives back the input |
| Segments.SplitJoin | index.js:85 | split inverts join: pieces free of the separator, joined and split again, come back unchanged |
| Segments.SplitNoSeparator | index.js:85 | a string without the separator splits into itself alone |
| Segments.Trim | index.js:85 | `item.trim()`, with white space being the ECMAScript white space and line terminators (`IsWhitespace`): the result is a part of the input that neither starts nor ends with white space, and everything cut off before and after it is white space |
| Segments.TrimStart | index.js:85 | drops a prefix made only of white space, leaving a suffix that is empty or starts with a non-white-space character |
| Segments.TrimEnd | index.js:85 | drops a suffix made only of white space, leaving a prefix that is empty or ends with a non-white-space character |
| Segments.TrimEmptyIffBlank | index.js:85 | `item.trim()` is the empty, falsy string exactly when every character of `item` is white space, which is the `IsBlank` test the filter uses |
| Segments.NonBlank | index.js:85 | the `filter(item => item.trim())` keeps exactly the non-blank pieces: every kept piece is non-blank and comes from the input, and every non-blank input piece is kept |
| Segments.NonBlankAppend | index.js:85 | filtering a concatenation is filtering both halves and concatenating the results |
| Segments.NonBlankOrder | index.js:85 | each piece is kept or dropped where it stands, so the kept pieces stay in their original order |
| Segments.Pieces | index.js:85 | the path pieces are non-blank, contain neither `/` nor `?`, are pieces of the query-free URL split at `/`, and every non-blank such piece is among them |
| Segments.ToUpper | index.js:86 | same length; each lower-case ASCII letter becomes its capital (code point minus 32); every other character is unchanged |
| Segments.ToUpperIdempotent | index.js:86 | upper-casing twice equals upper-casing once |
| Segments.Segment | index.js:84-87 | the first token is the upper-cased method; every later token is non-blank, contains neither `/` nor `?` and is a piece of the query-free URL split at `/`; every non-blank such piece is a later token |
| Segments.PiecesAppend | index.js:85 | the pieces of `a/b` are the pieces of `a` followed by the pieces of `b` |
| Segments.SegmentAppend | index.js:84-87 | the tokens of `a/b`, with no `?` in `a`, are the tokens of `a` followed by the path pieces of `b`, in order |
| Segments.SegmentIgnoresQuery | index.js:84-92 | appending `?` and any query to a URL without `?` leaves its tokens unchanged |
| Segments.SegmentLeadingSlash | index.js:85 | a leading slash does not change the tokens |
| Segments.SegmentTrailingSlash | index.js:85 | a trailing slash does not change the tokens of a query-free URL |
| Segments.SegmentDuplicateSlash | index.js:85 | a doubled slash gives the same tokens as a single one |
| Segments.SegmentPath | index.js:84-87 | round trip: segmenting the canonical path `/t1/t2/...` of plain tokens gives the method followed by exactly those tokens |
| Segments.SegmentMethodCase | index.js:86 | upper-casing the method beforehand changes nothing: `get` and `GET` give the same tokens |
| Trie.RouteTable.constructor | index.js:3 | the route table starts empty: only the root exists and nothing is stored |
| Trie.RouteTable.Add | index.js:137-146 | the table stays a trie; the key paths that exist afterwards are the old ones plus every prefix of the segments; the target is stored at exactly the segments, and every other stored target is kept, so a later registration of the same key replaces the earlier one |
| Trie.RouteTable.Match | index.js:148-167 | the loop returns exactly the reference walk: the target and captures, or `None` for `[null, null]` |
| Trie.InsertSpec | index.js:137-146 | on the pure insert: well-formedness is preserved, existence grows by exactly the prefixes of the key, and lookups change only at the key |
| Trie.WalkSound | index.js:151-161 | whatever the walk reaches, it reaches along a key path that is greedy at every step, and it captures that path's wildcard tokens, in order |
| Trie.WalkComplete | index.js:151-161 | along any greedy key path the walk ends at its end, with that path's captures appended |
| Trie.MatchSound | index.js:148-167 | on success, the key path followed prefers the literal child and uses the wildcard only when the literal child is missing; the result is its stored target and its wildcard tokens |
| Trie.MatchComplete | index.js:148-167 | along a greedy key path, `match` returns the target stored there with that path's captures, or `None` when nothing is stored |
| Trie.MatchFailure | index.js:157-166 | `[null, null]` exactly when no greedy key path for the request ends at a stored target |
| Trie.WalkStuck | index.js:154-159 | when the walk fails it has reached, after a greedy prefix, a node with neither a child under the next token nor a wildcard child |
| Trie.MatchStored | index.js:137-167 | round trip: requesting exactly a stored key path returns its target with no captures |
| Trie.SingleRoute | index.js:133-167 | with one key stored, a request matches exactly when it fits the key (equal or `*` at each position, same length), capturing the tokens where it differs from the key |
| Trie.NoBacktracking | index.js:151-160 | with `m a b` and `m * c` stored, `m a c` enters the literal `a` child, dead-ends and fails, although it fits `m * c` |
| Trie.LiteralShadowsWildcard | index.js:137-156 | adding the key `m x y` keeps the target stored at `m *`, yet it changes a match: the new literal child `x` hides the wildcard route that used to capture `x` |
| Trie.CapturedAtWildcards | index.js:154-156 | when no request token is `*`, the captures of a fitting request are exactly its tokens at the wildcard positions, one per wildcard |
| Trie.ReRegisterReplaces | index.js:140-145 | registering the same key twice gives the same matches as registering it once with the later target |
| Params.Rewrite | index.js:74 | same length; `*` exactly at the capture segments (`*` or `<`-prefixed); every other segment is unchanged |
| Params.RewriteForgetsNames | index.js:74 | registrations that differ only inside `<...>` get the same trie key |
| Params.Captures | index.js:100 | every kept segment is a capture segment of the input, and every capture segment of the input is kept |
| Params.CapturesAppend | index.js:100 | filtering distributes over concatenation, so the capture segments keep their order |
| Params.CapturesAtWildcardKeys | index.js:74-100 | the capture segments are exactly the registration segments at the positions where the rewritten trie key has `*`, left to right |
| Params.Substring | index.js:101 | `substring` returns the slice between its bounds when they are in range, swaps bounds given in the wrong order, and clamps negative or over-long bounds to the string |
| Params.MappingOf | index.js:101 | a bare `*` at capture index `i` gives `[String(i), 'string']`; any other capture segment gives the name before the first `:` of its inner text and the type between that `:` and the next one, `undefined` without a `:` |
| Params.SplitDestructures | index.js:101 | `const [name, type] = inner.split(':')` takes the text before the first colon and the text up to the next colon |
| Params.Mappings | index.js:100-102 | one mapping per capture segment; the i-th is `[String(i), 'string']` when the i-th capture segment is `*`, and destructured from that segment's inner text otherwise |
| Params.CapturePosition | index.js:100-102 | the capture segment at position `j` of the registration is mapped at the index that counts the capture segments before it, by the mapping built from its own text |
| Params.MappingsMatchWildcards | index.js:74-102 | there are exactly as many mappings as wildcards in the rewritten key |
| Params.NatToString | index.js:101 | the key of a bare `*` is a non-empty string of decimal digits with no leading zero |
| Params.DecimalRoundTrip | index.js:101 | reading that key back as a decimal gives the capture index |
| Params.IndexKeysDistinct | index.js:101 | bare wildcards at different capture indices get different keys |
| Params.NamedMapping | index.js:101 | `<name>` maps to `name` with an undefined type |
| Params.TypedMapping | index.js:101 | `<name:type>` maps to `name` with type `type` |
| Params.LoneAngle | index.js:101 | for the one-character segment `<`, `substring(1, 0)` swaps its bounds and returns `<`, which becomes the key |
| Params.GetResolveFunc | index.js:94-124 | applied to any captured list, the resolver returns the handler; without `isObjParams` it passes the list through unchanged; with it, it returns an object whose properties are exactly the mapping keys, each holding the value the last mapping with that key computes |
| Params.FieldValue | index.js:122 | the value is the capture at the mapping's index when there is one (`undefined` after the end), passed through `Number` exactly when the type is `number` |
| Params.Fields | index.js:119-123 | every property of the object was written by a mapping with that key, with that mapping's value |
| Params.Resolve | index.js:119-124 | the `forEach` loop builds the reference result: positional mode returns the captured list unchanged, named mode returns the object of all mappings |
| Params.FieldsKeys | index.js:119-123 | the result object has exactly the mapping keys as properties |
| Params.FieldsLastWins | index.js:121-123 | each key holds the value from the last mapping that writes it: the i-th capture token, passed through `Number` exactly when the type is `number`; `undefined` (or `Number(undefined)` under `Number`) past the end of the captures |
| Params.FieldsDefined | index.js:121-123 | when there are at least as many captures as mappings, no property is `undefined` or `Number(undefined)`: each holds its captured token, raw or through `Number` |
| Router.MakeResolver | index.js:72-75 | the stored resolver passes the captured list through when the raw path has no `<`, and otherwise builds the named-mode object of the registration's mappings |
| Router.AddRoute | index.js:71-76 | the table stays a trie; the rewritten key and every prefix of it now exist; the resolver (named exactly when the path contains `<`) is stored at that key; all other routes are kept |
| Router.MatchRoute | index.js:78-82 | the lookup returns exactly the reference result: the handler and its arguments, or `None` for `[null, null]` |
| Router.MatchRouteIgnoresQuery | index.js:78-92 | the query string of a request never changes what it resolves to |
| Router.MatchRouteMethodCase | index.js:78-86 | a request resolves the same way whatever the letter case of its method |
| Router.RenamedRouteReplaces | index.js:71-76 | re-registering a path that differs only inside `<...>` replaces the earlier route: requests see only the later handler and names |
| Router.OneRouteResolves | index.js:71-82 | with one route registered, a request resolves exactly when its tokens fit the route's key; the handler then receives the captured list unchanged when the path has no `<`, and otherwise the object built from the registration's mappings |
| Router.OneRouteAtPath | index.js:71-87 | the same, for a route and a request given as canonical paths of plain pieces, stated directly on those pieces |
| Router.NamedRouteFullCaptures | index.js:119-123 | in named mode, with no literal `*` in the request, every capture segment receives the request token at its position, so no property is `undefined` or `Number(undefined)`: each holds its token, raw or through `Number` |
| Router.UserPostsExample | index.js:63-65 | `/users/<name>/posts` registered for a method and requested as `/users/v/posts`, with the method in any letter case, gives `{name: v}` |
| Router.PostIdExample | index.js:67-69 | `/users/*/posts/<name:number>` requested as `/users/a/posts/b` gives `{0: a, name: Number(b)}`, whatever plain token other than `*` `b` is; a literal `*` token is the case of `LiteralStarShiftsCaptures` |
| Router.LiteralStarShiftsCaptures | index.js:151-156 | a request token that is literally `*` enters the wildcard child as a literal without being captured: `/users/<first>/<second>` requested as `/users/*/p` gives `{first: p, second: undefined}` |

## Left out

- `router` and `doHandler` (index.js:5-38) are left out. They are the request entry point and asynchronous response handling (promises, `res.end`, `res.finished`), which is I/O.
- The method helpers `router.get` … `router.patch` (index.js:40-48) are not separate members. Each calls `addRoute` with a fixed lower-case method name, and `AddRoute` takes the method as a parameter.
- `router.notfound`, `router.error` and the default handlers (index.js:50-61) are left out. They set and run I/O callbacks.
- `Number(...)` is not interpreted: a `number` capture becomes `Numeric(raw)`.
- JavaScript's `in` operator is not modelled beyond own properties. In the source, `segment in current` also sees properties inherited from `Object.prototype`, so a token such as `constructor` or `toString` can find a phantom child, and assigning `__proto__` does not create a child. Likewise `result[name] = ...` (index.js:122) with the name `__proto__` creates no own property of the named-mode object. The model uses plain maps for both.
- A target is stored next to a node's children and not under the child key `"/"`. This matters only for a method token equal to `/`, because no path token can contain `/`.
- `current && current['/']` tests the target for truthiness. The model treats every stored target as present. A stored target is always the resolver closure built by `getResolveFunc`, which is truthy whatever the handler is.
- Strings are sequences of Unicode scalar values, not of UTF-16 code units. `item.substring(1, item.length - 1)` therefore differs from JavaScript for a named segment whose last character lies outside the Basic Multilingual Plane: for `<a` followed by such a character, JavaScript keeps `a` and a lone high surrogate while `MappingOf` keeps only `a`. Lengths and indices of such strings differ in the same way.
- `toUpperCase` is modelled on ASCII letters only. Other characters are kept unchanged, whereas JavaScript also upper-cases non-ASCII letters.
- The commented-out code (index.js:104-117 and 125-129) is dead and not modelled.
- example.js is a usage script and is not part of this model.
- The module-level `routes` object becomes a `RouteTable` passed explicitly to `AddRoute` and `MatchRoute`. No concurrency is modelled.
- UserPostsExample and PostIdExample are stated for any parameter name, any plain request tokens other than `*` and any method pair that upper-case alike, with the paths written as canonical `Path([...])` sequences. The literal strings of the comments are one instance, used by `ExampleSession` with `get` and `GET`. They are not stated separately. A request token that is literally `*` is captured differently; `LiteralStarShiftsCaptures` states that case.
