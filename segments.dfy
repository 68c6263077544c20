/**
 * The path segmenter of the router (`segment` and `removeQuery` in index.js):
 * a request or a registration becomes the upper-cased method followed by the
 * non-blank `/`-separated pieces of the URL that precede the first `?`.
 */
module Segments {

  /** The characters `String.prototype.trim` removes: ECMAScript WhiteSpace and LineTerminator. */
  predicate IsWhitespace(c: char)
  {
    var n := c as int;
    n == 0x09 || n == 0x0A || n == 0x0B || n == 0x0C || n == 0x0D || n == 0x20 ||
    n == 0xA0 || n == 0x1680 || (0x2000 <= n <= 0x200A) || n == 0x2028 || n == 0x2029 ||
    n == 0x202F || n == 0x205F || n == 0x3000 || n == 0xFEFF
  }

  /** `s.trim()` is the empty string, i.e. falsy. */
  predicate IsBlank(s: string)
  {
    forall i :: 0 <= i < |s| ==> IsWhitespace(s[i])
  }

  /** `s.trim()`: `s` without its leading and trailing whitespace. */
  function Trim(s: string): (r: string)
    ensures r == [] || (!IsWhitespace(r[0]) && !IsWhitespace(r[|r| - 1]))
    ensures exists i :: (0 <= i <= |s| - |r| && s[i..][..|r|] == r && IsBlank(s[..i]) && IsBlank(s[i..][|r|..]))
  {
    var t := TrimStart(s);
    var r := TrimEnd(t);
    var i := |s| - |t|;
    assert s[i..] == t;
    assert IsBlank(s[..i]);
    assert IsBlank(t[|r|..]);
    r
  }

  /** Drops the leading whitespace. */
  function TrimStart(s: string): (r: string)
    ensures |r| <= |s| && r == s[|s| - |r|..]
    ensures forall k :: 0 <= k < |s| - |r| ==> IsWhitespace(s[k])
    ensures r == [] || !IsWhitespace(r[0])
  {
    if s != [] && IsWhitespace(s[0]) then TrimStart(s[1..]) else s
  }

  /** Drops the trailing whitespace. */
  function TrimEnd(s: string): (r: string)
    ensures |r| <= |s| && r == s[..|r|]
    ensures forall k :: |r| <= k < |s| ==> IsWhitespace(s[k])
    ensures r == [] || !IsWhitespace(r[|r| - 1])
  {
    if s != [] && IsWhitespace(s[|s| - 1]) then TrimEnd(s[..|s| - 1]) else s
  }

  /** The filter's test: `item.trim()` is falsy exactly when every character of `item` is whitespace. */
  lemma TrimEmptyIffBlank(s: string)
    ensures Trim(s) == [] <==> IsBlank(s)
  {
    var t := TrimStart(s);
    if Trim(s) == [] {
      forall k | |s| - |t| <= k < |s| ensures IsWhitespace(s[k]) {
        assert s[k] == t[k - (|s| - |t|)];
      }
    } else if t != [] {
      assert t[0] == s[|s| - |t|];
    }
  }

  /** `s.indexOf(c)`: the first index of `c`, or -1. */
  function IndexOf(s: string, c: char): (r: int)
    ensures -1 <= r < |s|
    ensures r == -1 <==> c !in s
    ensures r != -1 ==> s[r] == c && c !in s[..r]
  {
    if s == [] then -1
    else if s[0] == c then 0
    else
      var i := IndexOf(s[1..], c);
      assert s[1..][..if i == -1 then 0 else i] == s[1..1 + if i == -1 then 0 else i];
      if i == -1 then -1 else i + 1
  }

  /** `removeQuery`: the URL up to, and without, its first `?`. */
  function RemoveQuery(url: string): (r: string)
    ensures '?' !in r
    ensures r <= url
    ensures '?' !in url ==> r == url
    ensures '?' in url ==> |r| < |url| && url[|r|] == '?'
  {
    var index := IndexOf(url, '?');
    if index == -1 then url else url[..index]
  }

  /** `s.split(sep)` for a one-character separator: always at least one piece. */
  function Split(s: string, sep: char): (r: seq<string>)
    ensures |r| >= 1
    ensures forall i :: 0 <= i < |r| ==> sep !in r[i]
    ensures Join(r, sep) == s
  {
    if s == [] then [[]]
    else
      var rest := Split(s[1..], sep);
      if s[0] == sep then
        [[]] + rest
      else
        var r := [[s[0]] + rest[0]] + rest[1..];
        assert forall i :: 1 <= i < |r| ==> r[i] == rest[i];
        assert Join(r, sep) == [s[0]] + Join(rest, sep);
        r
  }

  /** `pieces.join(sep)`, the inverse of `Split`. */
  function Join(pieces: seq<string>, sep: char): string
    requires |pieces| >= 1
  {
    if |pieces| == 1 then pieces[0] else pieces[0] + [sep] + Join(pieces[1..], sep)
  }

  /** `.filter((item) => item.trim())`: the pieces that are not blank, in order. */
  function NonBlank(pieces: seq<string>): (r: seq<string>)
    ensures |r| <= |pieces|
    ensures forall i :: 0 <= i < |r| ==> !IsBlank(r[i]) && r[i] in pieces
    ensures forall i :: 0 <= i < |pieces| && !IsBlank(pieces[i]) ==> pieces[i] in r
  {
    if pieces == [] then []
    else if IsBlank(pieces[0]) then NonBlank(pieces[1..])
    else [pieces[0]] + NonBlank(pieces[1..])
  }

  function UpperChar(c: char): char
  {
    if 'a' <= c <= 'z' then (c as int - 32) as char else c
  }

  /** `toUpperCase` on the ASCII letters. */
  function ToUpper(s: string): (r: string)
    ensures |r| == |s|
    ensures forall i :: 0 <= i < |r| ==> !('a' <= r[i] <= 'z')
    ensures forall i :: 0 <= i < |s| && 'a' <= s[i] <= 'z' ==> r[i] as int == s[i] as int - 32
    ensures forall i :: 0 <= i < |s| && !('a' <= s[i] <= 'z') ==> r[i] == s[i]
  {
    if s == [] then [] else [UpperChar(s[0])] + ToUpper(s[1..])
  }

  /** The path pieces of `segment`: the non-blank pieces of the query-free URL. */
  function Pieces(url: string): (r: seq<string>)
    ensures forall i :: 0 <= i < |r| ==> !IsBlank(r[i]) && '/' !in r[i] && '?' !in r[i]
    ensures forall i :: 0 <= i < |r| ==> r[i] in Split(RemoveQuery(url), '/')
    ensures var pieces := Split(RemoveQuery(url), '/');
      forall i :: 0 <= i < |pieces| && !IsBlank(pieces[i]) ==> pieces[i] in r
  {
    var pieces := Split(RemoveQuery(url), '/');
    SplitAvoids(RemoveQuery(url), '/', '?');
    var kept := NonBlank(pieces);
    assert forall i :: 0 <= i < |kept| ==> '/' !in kept[i] && '?' !in kept[i] by {
      forall i | 0 <= i < |kept| ensures '/' !in kept[i] && '?' !in kept[i] {
        var j :| 0 <= j < |pieces| && pieces[j] == kept[i];
      }
    }
    kept
  }

  /** `segment(method, url)`: the routing tokens of a request or a registration. */
  function Segment(httpMethod: string, url: string): (r: seq<string>)
    ensures |r| >= 1 && r[0] == ToUpper(httpMethod)
    ensures forall i :: 1 <= i < |r| ==> !IsBlank(r[i]) && '/' !in r[i] && '?' !in r[i]
    ensures forall i :: 1 <= i < |r| ==> r[i] in Split(RemoveQuery(url), '/')
    ensures var pieces := Split(RemoveQuery(url), '/');
      forall i :: 0 <= i < |pieces| && !IsBlank(pieces[i]) ==> pieces[i] in r[1..]
  {
    [ToUpper(httpMethod)] + Pieces(url)
  }

  /** The canonical URL of a list of segments: each one preceded by a slash. */
  function Path(segments: seq<string>): string
  {
    if segments == [] then [] else ['/'] + segments[0] + Path(segments[1..])
  }

  // ---------------------------------------------------------------------------
  // Properties of the segmenter
  // ---------------------------------------------------------------------------

  /** Splitting at a separator splits the two sides independently. */
  lemma {:induction false} SplitAppend(a: string, sep: char, b: string)
    ensures Split(a + [sep] + b, sep) == Split(a, sep) + Split(b, sep)
  {
    if a == [] {
      assert a + [sep] + b == [sep] + b;
      assert ([sep] + b)[1..] == b;
    } else {
      assert (a + [sep] + b)[1..] == a[1..] + [sep] + b;
      SplitAppend(a[1..], sep, b);
    }
  }

  /** A character absent from a string is absent from each of its pieces. */
  lemma {:induction false} SplitAvoids(s: string, sep: char, c: char)
    requires c !in s
    ensures forall i :: 0 <= i < |Split(s, sep)| ==> c !in Split(s, sep)[i]
  {
    if s != [] {
      assert c !in s[1..];
      SplitAvoids(s[1..], sep, c);
    }
  }

  /** A string without the separator is a single piece. */
  lemma {:induction false} SplitNoSeparator(s: string, sep: char)
    requires sep !in s
    ensures Split(s, sep) == [s]
  {
    if s != [] {
      SplitNoSeparator(s[1..], sep);
    }
  }

  /** Split undoes Join when no piece contains the separator. */
  lemma {:induction false} SplitJoin(pieces: seq<string>, sep: char)
    requires |pieces| >= 1
    requires forall i :: 0 <= i < |pieces| ==> sep !in pieces[i]
    ensures Split(Join(pieces, sep), sep) == pieces
  {
    SplitNoSeparator(pieces[0], sep);
    if |pieces| > 1 {
      SplitAppend(pieces[0], sep, Join(pieces[1..], sep));
      SplitJoin(pieces[1..], sep);
    }
  }

  lemma {:induction false} NonBlankAppend(a: seq<string>, b: seq<string>)
    ensures NonBlank(a + b) == NonBlank(a) + NonBlank(b)
  {
    if a != [] {
      assert (a + b)[0] == a[0];
      assert (a + b)[1..] == a[1..] + b;
      NonBlankAppend(a[1..], b);
      assert NonBlank(a + b) == (if IsBlank(a[0]) then [] else [a[0]]) + NonBlank(a[1..] + b);
      assert NonBlank(a) == (if IsBlank(a[0]) then [] else [a[0]]) + NonBlank(a[1..]);
    } else {
      assert a + b == b;
    }
  }

  /** The filter keeps or drops each piece where it stands: the kept pieces stay in order. */
  lemma NonBlankOrder(a: seq<string>, p: string, b: seq<string>)
    ensures NonBlank(a + [p] + b) == NonBlank(a) + (if IsBlank(p) then [] else [p]) + NonBlank(b)
  {
    NonBlankAppend(a + [p], b);
    NonBlankAppend(a, [p]);
    assert NonBlank([p]) == if IsBlank(p) then [] else [p] by {
      assert [p][0] == p && [p][1..] == [];
    }
  }

  lemma {:induction false} IndexOfPrefix(a: string, b: string, c: char)
    requires c !in a
    ensures IndexOf(a + b, c) == if c in b then |a| + IndexOf(b, c) else -1
  {
    if a == [] {
      assert a + b == b;
    } else {
      assert (a + b)[0] == a[0];
      assert (a + b)[1..] == a[1..] + b;
      IndexOfPrefix(a[1..], b, c);
    }
  }

  /** Stripping the query commutes with a query-free prefix. */
  lemma RemoveQueryPrefix(a: string, b: string)
    requires '?' !in a
    ensures RemoveQuery(a + b) == a + RemoveQuery(b)
  {
    IndexOfPrefix(a, b, '?');
    if '?' in b {
      var k := IndexOf(b, '?');
      assert (a + b)[..|a| + k] == a + b[..k];
    } else {
      assert '?' !in a + b;
    }
  }

  /** The query string never influences routing: `/a/b?x=1` segments like `/a/b`. */
  lemma SegmentIgnoresQuery(httpMethod: string, url: string, query: string)
    requires '?' !in url
    ensures Segment(httpMethod, url + "?" + query) == Segment(httpMethod, url)
  {
    RemoveQueryPrefix(url, "?" + query);
    assert url + "?" + query == url + ("?" + query);
  }

  /** A leading slash changes nothing. */
  lemma SegmentLeadingSlash(httpMethod: string, url: string)
    ensures Segment(httpMethod, "/" + url) == Segment(httpMethod, url)
  {
    var q := RemoveQuery(url);
    RemoveQueryPrefix("/", url);
    SplitAppend([], '/', q);
    assert [] + ['/'] + q == "/" + q;
    NonBlankAppend([[]], Split(q, '/'));
  }

  /** A trailing slash on the path changes nothing. */
  lemma SegmentTrailingSlash(httpMethod: string, url: string)
    requires '?' !in url
    ensures Segment(httpMethod, url + "/") == Segment(httpMethod, url)
  {
    RemoveQueryPrefix(url, "/");
    assert url + "/" == url + ['/'] + [];
    SplitAppend(url, '/', []);
    NonBlankAppend(Split(url, '/'), [[]]);
  }

  /** The pieces of `a/b` are those of `a` followed by those of `b`. */
  lemma PiecesAppend(a: string, b: string)
    ensures NonBlank(Split(a + ['/'] + b, '/')) == NonBlank(Split(a, '/')) + NonBlank(Split(b, '/'))
  {
    SplitAppend(a, '/', b);
    NonBlankAppend(Split(a, '/'), Split(b, '/'));
  }

  /** The tokens of `a/b` are those of `a` followed by the path pieces of `b`. */
  lemma SegmentAppend(httpMethod: string, a: string, b: string)
    requires '?' !in a
    ensures Segment(httpMethod, a + "/" + b) == Segment(httpMethod, a) + Segment(httpMethod, b)[1..]
  {
    var q := RemoveQuery(b);
    assert Pieces(a + "/" + b) == Pieces(a) + Pieces(b) by {
      assert '?' !in a + "/";
      RemoveQueryPrefix(a + "/", b);
      assert a + "/" + q == a + ['/'] + q;
      PiecesAppend(a, q);
      assert RemoveQuery(a) == a;
    }
    assert Segment(httpMethod, b)[1..] == Pieces(b);
  }

  /** Doubling a slash in the path changes nothing. */
  lemma SegmentDuplicateSlash(httpMethod: string, a: string, b: string)
    requires '?' !in a
    ensures Segment(httpMethod, a + "//" + b) == Segment(httpMethod, a + "/" + b)
  {
    var q := RemoveQuery(b);
    var one, two := a + ['/'], a + ['/', '/'];
    assert '?' !in one && '?' !in two;
    assert a + "//" + b == two + b;
    assert a + "/" + b == one + b;
    RemoveQueryPrefix(two, b);
    RemoveQueryPrefix(one, b);
    assert two + q == a + ['/'] + ([] + ['/'] + q);
    assert one + q == a + ['/'] + q;
    PiecesAppend(a, [] + ['/'] + q);
    PiecesAppend([], q);
    PiecesAppend(a, q);
    assert NonBlank(Split([], '/')) == [] by {
      assert Split([], '/') == [[]];
      assert IsBlank([]);
    }
    assert Pieces(two + b) == NonBlank(Split(a, '/')) + NonBlank(Split(q, '/'));
    assert Pieces(one + b) == NonBlank(Split(a, '/')) + NonBlank(Split(q, '/'));
  }

  /** Splitting a canonical path yields an empty piece followed by its segments. */
  lemma {:induction false} SplitPath(segments: seq<string>)
    requires segments != []
    requires forall i :: 0 <= i < |segments| ==> '/' !in segments[i]
    ensures Split(Path(segments), '/') == [[]] + segments
  {
    var s0, rest := segments[0], segments[1..];
    assert Path(segments) == [] + ['/'] + (s0 + Path(rest));
    SplitAppend([], '/', s0 + Path(rest));
    SplitNoSeparator(s0, '/');
    if rest == [] {
      assert s0 + Path(rest) == s0;
    } else {
      var tail := rest[0] + Path(rest[1..]);
      assert Path(rest) == [] + ['/'] + tail;
      assert s0 + Path(rest) == s0 + ['/'] + tail;
      SplitAppend(s0, '/', tail);
      SplitAppend([], '/', tail);
      SplitPath(rest);
      assert segments == [s0] + rest;
    }
  }

  lemma {:induction false} NonBlankKeepsAll(pieces: seq<string>)
    requires forall i :: 0 <= i < |pieces| ==> !IsBlank(pieces[i])
    ensures NonBlank(pieces) == pieces
  {
    if pieces != [] {
      NonBlankKeepsAll(pieces[1..]);
    }
  }

  lemma {:induction false} PathNoQuery(segments: seq<string>)
    requires forall i :: 0 <= i < |segments| ==> '?' !in segments[i]
    ensures '?' !in Path(segments)
  {
    if segments != [] {
      PathNoQuery(segments[1..]);
      assert Path(segments) == ['/'] + segments[0] + Path(segments[1..]);
    }
  }

  /** Round trip: the canonical URL of a list of segments segments back to that list. */
  lemma SegmentPath(httpMethod: string, segments: seq<string>)
    requires forall i :: 0 <= i < |segments| ==> !IsBlank(segments[i]) && '/' !in segments[i] && '?' !in segments[i]
    ensures Segment(httpMethod, Path(segments)) == [ToUpper(httpMethod)] + segments
  {
    PathNoQuery(segments);
    if segments == [] {
      assert Split([], '/') == [[]];
      assert IsBlank([]);
    } else {
      SplitPath(segments);
      NonBlankKeepsAll(segments);
      assert IsBlank([]);
      assert ([[]] + segments)[1..] == segments;
    }
  }

  /** A character of any segment occurs in the path built from the segments. */
  lemma {:induction false} PathHas(segments: seq<string>, i: nat, c: char)
    requires i < |segments| && c in segments[i]
    ensures c in Path(segments)
  {
    var rest := Path(segments[1..]);
    assert Path(segments) == ['/'] + segments[0] + rest;
    if i > 0 {
      PathHas(segments[1..], i - 1, c);
    }
  }

  /** Upper-casing twice is upper-casing once. */
  lemma {:induction false} ToUpperIdempotent(s: string)
    ensures ToUpper(ToUpper(s)) == ToUpper(s)
  {
    if s != [] {
      ToUpperIdempotent(s[1..]);
      assert ToUpper(s)[1..] == ToUpper(s[1..]);
    }
  }

  /** The method token is case-insensitive: `get` and `GET` give the same tokens. */
  lemma SegmentMethodCase(httpMethod: string, url: string)
    ensures Segment(ToUpper(httpMethod), url) == Segment(httpMethod, url)
  {
    ToUpperIdempotent(httpMethod);
  }
}
