/** Reference resolution of RFC 3986, the algorithm behind `urljoin`:
    splitting a URI reference into its five components (Appendix B),
    resolving a reference against a base (section 5.2.2), merging paths
    (section 5.2.3), removing dot segments (section 5.2.4) and recomposing
    the result (section 5.3). */
module Uri {
  import opened Wrappers
  import opened Text

  /** The five components of a URI reference; an absent component is `None`,
      which is not the same as an empty one (`"http://a/?"` has an empty
      query, `"http://a/"` none). The path is always present, maybe empty. */
  datatype Uri = Uri(
    scheme: Option<string>,
    authority: Option<string>,
    path: string,
    query: Option<string>,
    fragment: Option<string>)

  /** The length of the longest prefix of `s` holding none of `stop`. */
  function Span(s: string, stop: set<char>): (n: nat)
    ensures n <= |s|
    ensures forall k :: 0 <= k < n ==> s[k] !in stop
    ensures n < |s| ==> s[n] in stop
  {
    if s == [] || s[0] in stop then 0 else 1 + Span(s[1..], stop)
  }

  /** A prefix free of `stop` followed by the end or a character of `stop`
      is the one `Span` measures. */
  lemma {:induction false} SpanIs(s: string, stop: set<char>, n: nat)
    requires n <= |s|
    requires forall k :: 0 <= k < n ==> s[k] !in stop
    requires n == |s| || s[n] in stop
    ensures Span(s, stop) == n
  {
    if n > 0 {
      SpanIs(s[1..], stop, n - 1);
    }
  }

  predicate NoneOf(s: string, stop: set<char>) {
    forall k :: 0 <= k < |s| ==> s[k] !in stop
  }

  const SchemeStop: set<char> := {':', '/', '?', '#'}
  const AuthorityStop: set<char> := {'/', '?', '#'}
  const PathStop: set<char> := {'?', '#'}
  const Slash: set<char> := {'/'}

  // Appendix B splits a reference left to right; each step takes one
  // component off the front and hands the rest on.

  /** `scheme ":"`: a non-empty run free of `:/?#` followed by `:`. */
  function SplitScheme(s: string): (r: (Option<string>, string))
    ensures r.0.None? ==> r.1 == s
    ensures r.0.Some? ==> s == r.0.value + ":" + r.1
    ensures r.0.Some? ==> r.0.value != [] && NoneOf(r.0.value, SchemeStop)
  {
    var i := Span(s, SchemeStop);
    if 0 < i < |s| && s[i] == ':' then
      assert s == s[..i] + ":" + s[i + 1..];
      (Some(s[..i]), s[i + 1..])
    else (None, s)
  }

  /** `"//" authority`: the run after `//` up to the next `/`, `?` or `#`. */
  function SplitAuthority(s: string): (r: (Option<string>, string))
    ensures r.0.None? ==> r.1 == s && !StartsWith(s, "//")
    ensures r.0.Some? ==> s == "//" + r.0.value + r.1
    ensures r.0.Some? ==> NoneOf(r.0.value, AuthorityStop)
    ensures r.0.Some? ==> r.1 == [] || r.1[0] in AuthorityStop
  {
    if StartsWith(s, "//") then
      var j := Span(s[2..], AuthorityStop);
      assert s == "//" + s[2..][..j] + s[2..][j..];
      (Some(s[2..][..j]), s[2..][j..])
    else (None, s)
  }

  /** The path: everything up to the first `?` or `#`. */
  function SplitPath(s: string): (r: (string, string))
    ensures s == r.0 + r.1
    ensures NoneOf(r.0, PathStop)
    ensures r.1 == [] || r.1[0] in PathStop
  {
    var k := Span(s, PathStop);
    assert s == s[..k] + s[k..];
    (s[..k], s[k..])
  }

  /** `"?" query`: the run after `?` up to the next `#`. */
  function SplitQuery(s: string): (r: (Option<string>, string))
    ensures r.0.None? ==> r.1 == s
    ensures r.0.Some? ==> s == "?" + r.0.value + r.1 && NoneOf(r.0.value, {'#'})
    ensures (s == [] || s[0] in PathStop) ==> r.1 == [] || r.1[0] == '#'
  {
    if s != [] && s[0] == '?' then
      var q := Span(s[1..], {'#'});
      assert s == "?" + s[1..][..q] + s[1..][q..];
      (Some(s[1..][..q]), s[1..][q..])
    else (None, s)
  }

  /** `"#" fragment`: everything after the `#`. */
  function SplitFragment(s: string): (r: Option<string>)
    ensures r.None? <==> s == []
    ensures r.Some? && s[0] == '#' ==> s == "#" + r.value
  {
    if s == [] then None else Some(s[1..])
  }

  /** The regular expression of Appendix B, component by component. */
  function Parse(s: string): (u: Uri)
    ensures u.scheme.Some? ==> u.scheme.value != [] && NoneOf(u.scheme.value, SchemeStop)
    ensures u.authority.Some? ==> NoneOf(u.authority.value, AuthorityStop)
    ensures NoneOf(u.path, PathStop)
    ensures u.query.Some? ==> NoneOf(u.query.value, {'#'})
  {
    var scheme := SplitScheme(s);
    var authority := SplitAuthority(scheme.1);
    var path := SplitPath(authority.1);
    var query := SplitQuery(path.1);
    Uri(scheme.0, authority.0, path.0, query.0, SplitFragment(query.1))
  }

  function SchemePart(scheme: Option<string>): string {
    if scheme.Some? then scheme.value + ":" else ""
  }

  function AuthorityPart(authority: Option<string>): string {
    if authority.Some? then "//" + authority.value else ""
  }

  function QueryPart(query: Option<string>): string {
    if query.Some? then "?" + query.value else ""
  }

  function FragmentPart(fragment: Option<string>): (s: string)
    ensures s == [] || s[0] == '#'
  {
    if fragment.Some? then "#" + fragment.value else ""
  }

  /** RFC 3986 section 5.3: the components put back together with their delimiters. */
  function Recompose(u: Uri): (s: string)
    ensures |s| >= |u.path|
  {
    SchemePart(u.scheme) + AuthorityPart(u.authority) + u.path
      + QueryPart(u.query) + FragmentPart(u.fragment)
  }

  /** Splitting loses nothing: every string is a URI reference, and putting
      its components back together gives it back. */
  lemma ParseRecompose(s: string)
    ensures Recompose(Parse(s)) == s
  {
    var scheme := SplitScheme(s);
    var authority := SplitAuthority(scheme.1);
    var path := SplitPath(authority.1);
    var query := SplitQuery(path.1);
    var fragment := SplitFragment(query.1);
    SchemeSplitJoins(s);
    AuthoritySplitJoins(scheme.1);
    QuerySplitJoins(path.1);
    Regroup(SchemePart(scheme.0), AuthorityPart(authority.0), path.0,
            QueryPart(query.0), FragmentPart(fragment));
  }

  lemma SchemeSplitJoins(s: string)
    ensures s == SchemePart(SplitScheme(s).0) + SplitScheme(s).1
  {
  }

  lemma AuthoritySplitJoins(s: string)
    ensures s == AuthorityPart(SplitAuthority(s).0) + SplitAuthority(s).1
  {
  }

  lemma QuerySplitJoins(s: string)
    requires s == [] || s[0] in PathStop
    ensures s == QueryPart(SplitQuery(s).0) + FragmentPart(SplitFragment(SplitQuery(s).1))
  {
  }

  lemma Regroup(a: string, b: string, c: string, d: string, e: string)
    ensures a + (b + (c + (d + e))) == a + b + c + d + e
  {
  }

  lemma NoneOfConcat(a: string, b: string, stop: set<char>)
    requires NoneOf(a, stop) && NoneOf(b, stop)
    ensures NoneOf(a + b, stop)
  {
    forall k | 0 <= k < |a + b| ensures (a + b)[k] !in stop {
      if k >= |a| {
        assert (a + b)[k] == b[k - |a|];
      }
    }
  }

  /** The components `Parse` can produce: each free of the delimiters that
      end it, a path that cannot be mistaken for an authority or (without
      scheme and authority) for a scheme, and an absolute or empty path
      after an authority. */
  predicate WellFormed(u: Uri) {
    && (u.scheme.Some? ==> u.scheme.value != [] && NoneOf(u.scheme.value, SchemeStop))
    && (u.authority.Some? ==> NoneOf(u.authority.value, AuthorityStop))
    && (u.authority.Some? ==> u.path == [] || u.path[0] == '/')
    && (u.authority.None? ==> !StartsWith(u.path, "//"))
    && (u.scheme.None? && u.authority.None? ==> SplitScheme(u.path).0.None?)
    && NoneOf(u.path, PathStop)
    && (u.query.Some? ==> NoneOf(u.query.value, {'#'}))
  }

  lemma SpanAfter(a: string, b: string, stop: set<char>)
    requires NoneOf(a, stop)
    requires b == [] || b[0] in stop
    ensures Span(a + b, stop) == |a|
  {
    SpanIs(a + b, stop, |a|);
  }

  lemma SpanWithin(a: string, b: string, stop: set<char>)
    requires Span(a, stop) < |a|
    ensures Span(a + b, stop) == Span(a, stop)
  {
    SpanIs(a + b, stop, Span(a, stop));
  }

  /** `Parse` produces only well-formed components. */
  lemma ParseIsWellFormed(s: string)
    ensures WellFormed(Parse(s))
  {
    var scheme := SplitScheme(s);
    var authority := SplitAuthority(scheme.1);
    var path := SplitPath(authority.1);
    if authority.0.Some? && path.0 != [] {
      assert path.0[0] == authority.1[0];
    }
    if StartsWith(path.0, "//") {
      assert authority.1[..2] == path.0[..2];
    }
    if scheme.0.None? && authority.0.None? && Span(path.0, SchemeStop) < |path.0| {
      SpanWithin(path.0, path.1, SchemeStop);
      assert (path.0 + path.1)[Span(path.0, SchemeStop)] == path.0[Span(path.0, SchemeStop)];
    }
  }

  function QueryOn(u: Uri): (s: string)
    ensures s == [] || s[0] in PathStop
  {
    QueryPart(u.query) + FragmentPart(u.fragment)
  }

  function PathOn(u: Uri): string {
    u.path + QueryOn(u)
  }

  function AuthorityOn(u: Uri): string {
    AuthorityPart(u.authority) + PathOn(u)
  }

  lemma SplitSchemeRecomposed(u: Uri)
    requires WellFormed(u)
    ensures SplitScheme(SchemePart(u.scheme) + AuthorityOn(u)) == (u.scheme, AuthorityOn(u))
  {
    if u.scheme.Some? {
      SchemeRecomposed(u.scheme.value, AuthorityOn(u));
    } else if u.authority.Some? {
      NoSchemeBeforeAuthority(u);
    } else {
      NoSchemeInPath(u.path, QueryOn(u));
    }
  }

  lemma SchemeRecomposed(scheme: string, rest: string)
    requires scheme != [] && NoneOf(scheme, SchemeStop)
    ensures SplitScheme(SchemePart(Some(scheme)) + rest) == (Some(scheme), rest)
  {
    var s := SchemePart(Some(scheme)) + rest;
    SpanAfter(scheme, ":" + rest, SchemeStop);
    assert s == scheme + (":" + rest);
    assert s[|scheme| + 1..] == rest;
  }

  lemma NoSchemeBeforeAuthority(u: Uri)
    requires u.scheme.None? && u.authority.Some?
    ensures SplitScheme(SchemePart(u.scheme) + AuthorityOn(u)) == (None, AuthorityOn(u))
  {
    var s := AuthorityOn(u);
    assert SchemePart(u.scheme) + s == s;
    assert s[0] == '/';
    SpanIs(s, SchemeStop, 0);
  }

  /** A path whose own first `:/?#` is not a `:` (or has none) still has
      no scheme once the query and fragment follow it. */
  lemma NoSchemeInPath(path: string, rest: string)
    requires SplitScheme(path).0.None?
    requires rest == [] || rest[0] in PathStop
    ensures SplitScheme(SchemePart(None) + (path + rest)) == (None, path + rest)
  {
    var s := path + rest;
    assert SchemePart(None) + s == s;
    var i := Span(path, SchemeStop);
    assert !(0 < i < |path| && path[i] == ':');
    if i < |path| {
      SpanWithin(path, rest, SchemeStop);
      assert s[i] == path[i];
    } else {
      SpanAfter(path, rest, SchemeStop);
    }
  }

  lemma SplitAuthorityRecomposed(u: Uri)
    requires WellFormed(u)
    ensures SplitAuthority(AuthorityOn(u)) == (u.authority, PathOn(u))
  {
    var s := AuthorityOn(u);
    if u.authority.Some? {
      assert s == "//" + (u.authority.value + PathOn(u));
      assert s[2..] == u.authority.value + PathOn(u);
      SpanAfter(u.authority.value, PathOn(u), AuthorityStop);
      assert s[2..][..|u.authority.value|] == u.authority.value;
    } else {
      assert s == PathOn(u);
      if |u.path| >= 2 {
        assert s[..2] == u.path[..2];
      } else if |u.path| == 1 && |s| >= 2 {
        assert s[..2][1] == s[1] == QueryOn(u)[0];
      } else if |s| >= 2 {
        assert s[..2][0] == s[0] == QueryOn(u)[0];
      }
    }
  }

  lemma SplitQueryRecomposed(u: Uri)
    requires WellFormed(u)
    ensures SplitQuery(QueryOn(u)) == (u.query, FragmentPart(u.fragment))
  {
    var s := QueryOn(u);
    var f := FragmentPart(u.fragment);
    if u.query.Some? {
      assert s == "?" + (u.query.value + f);
      assert s[1..] == u.query.value + f;
      SpanAfter(u.query.value, f, {'#'});
      assert s[1..][..|u.query.value|] == u.query.value;
    } else {
      assert s == f;
    }
  }

  /** Splitting a recomposed well-formed value gives its components back, so
      `Parse` and `Recompose` are inverse bijections between strings and
      well-formed component tuples. */
  lemma RecomposeParse(u: Uri)
    requires WellFormed(u)
    ensures Parse(Recompose(u)) == u
  {
    var s := SchemePart(u.scheme) + AuthorityOn(u);
    Regroup(SchemePart(u.scheme), AuthorityPart(u.authority), u.path,
            QueryPart(u.query), FragmentPart(u.fragment));
    assert s == Recompose(u);
    SplitSchemeRecomposed(u);
    SplitAuthorityRecomposed(u);
    SpanAfter(u.path, QueryOn(u), PathStop);
    assert SplitPath(PathOn(u)) == (u.path, QueryOn(u));
    SplitQueryRecomposed(u);
    if u.fragment.Some? {
      assert FragmentPart(u.fragment)[1..] == u.fragment.value;
    }
  }

  // RFC 3986 section 5.2.4: dot segments.

  /** Removes the last segment of `s` and the `/` before it, if any. */
  function RemoveLastSegment(s: string): (r: string)
    ensures |r| <= |s| && r == s[..|r|]
    ensures || (r == [] && NoneOf(s, Slash))
            || (|r| < |s| && s[|r|] == '/' && NoneOf(s[|r| + 1..], Slash))
    decreases |s|
  {
    if s == [] then []
    else if s[|s| - 1] == '/' then s[..|s| - 1]
    else RemoveLastSegment(s[..|s| - 1])
  }

  /** The first segment of a non-empty buffer, with its leading `/` if it
      has one, up to but not including the next `/`. */
  function FirstSegmentLen(input: string): (n: nat)
    requires input != []
    ensures 0 < n <= |input|
    ensures n == |input| || input[n] == '/'
    ensures forall k :: 0 < k < n ==> input[k] != '/'
  {
    if input[0] == '/' then 1 + Span(input[1..], Slash) else Span(input, Slash)
  }

  /** One pass of the loop of RFC 3986 section 5.2.4 over its input and output
      buffers: the first of the rules A to E that applies. */
  function Step(input: string, output: string): (r: (string, string))
    requires input != []
    ensures |r.0| < |input|
    ensures |r.0| + |r.1| <= |input| + |output|
  {
    // A
    if StartsWith(input, "../") then (input[3..], output)
    else if StartsWith(input, "./") then (input[2..], output)
    // B
    else if StartsWith(input, "/./") then (input[2..], output)
    else if input == "/." then ("/", output)
    // C
    else if StartsWith(input, "/../") then (input[3..], RemoveLastSegment(output))
    else if input == "/.." then ("/", RemoveLastSegment(output))
    // D
    else if input == "." || input == ".." then ([], output)
    // E
    else
      var n := FirstSegmentLen(input);
      (input[n..], output + input[..n])
  }

  /** The loop itself: step until the input buffer is empty. */
  function RemoveDotSegmentsFrom(input: string, output: string): (r: string)
    ensures |r| <= |output| + |input|
    decreases |input|
  {
    if input == [] then output
    else
      var next := Step(input, output);
      RemoveDotSegmentsFrom(next.0, next.1)
  }

  function RemoveDotSegments(path: string): string {
    RemoveDotSegmentsFrom(path, "")
  }

  /** The end of the segment that starts at `i`. */
  function SegmentEnd(p: string, i: nat): (j: nat)
    requires i <= |p|
    ensures i <= j <= |p|
  {
    i + Span(p[i..], Slash)
  }

  predicate IsDotSegment(seg: string) {
    seg == "." || seg == ".."
  }

  /** No segment of `p` (the text between two `/`, or before the first, or
      after the last) is `.` or `..`. */
  predicate DotFree(p: string) {
    forall i :: 0 <= i <= |p| && (i == 0 || p[i - 1] == '/') ==>
      !IsDotSegment(p[i..SegmentEnd(p, i)])
  }

  /** Each of the rules A to D fires only on a buffer that starts with a dot
      segment. */
  lemma DotRulesNeedDotSegment(input: string)
    requires |input| >= 1
    ensures (StartsWith(input, "../") || StartsWith(input, "./") || input == "." || input == "..")
              ==> IsDotSegment(input[..SegmentEnd(input, 0)])
    ensures (StartsWith(input, "/./") || StartsWith(input, "/../") || input == "/." || input == "/..")
              ==> input[0] == '/' && |input| >= 2 && IsDotSegment(input[1..SegmentEnd(input, 1)])
  {
    if StartsWith(input, "../") {
      SpanIs(input, Slash, 2);
    } else if StartsWith(input, "./") {
      SpanIs(input, Slash, 1);
    } else if input == "." {
      SpanIs(input, Slash, 1);
    } else if input == ".." {
      SpanIs(input, Slash, 2);
    }
    if StartsWith(input, "/./") || input == "/." {
      SpanIs(input[1..], Slash, 1);
    } else if StartsWith(input, "/../") || input == "/.." {
      SpanIs(input[1..], Slash, 2);
    }
  }

  /** Cutting a dot-free path at a segment boundary leaves it dot-free. */
  lemma DotFreeSuffix(p: string, n: nat)
    requires DotFree(p)
    requires n <= |p| && (n == |p| || p[n] == '/')
    ensures DotFree(p[n..])
  {
    var q := p[n..];
    forall i | 0 <= i <= |q| && (i == 0 || q[i - 1] == '/')
      ensures !IsDotSegment(q[i..SegmentEnd(q, i)])
    {
      if i == 0 {
        SpanIs(q, Slash, 0);
      } else {
        assert q[i..] == p[n + i..];
        assert p[n + i - 1] == '/';
        assert q[i..SegmentEnd(q, i)] == p[n + i..SegmentEnd(p, n + i)];
      }
    }
  }

  /** On a dot-free input only rule E applies, and what is left is dot-free. */
  lemma StepOnDotFree(input: string, output: string)
    requires input != [] && DotFree(input)
    ensures var n := FirstSegmentLen(input);
            && RemoveDotSegmentsFrom(input, output)
               == RemoveDotSegmentsFrom(input[n..], output + input[..n])
            && DotFree(input[n..])
  {
    var n := FirstSegmentLen(input);
    assert Step(input, output) == (input[n..], output + input[..n]) by {
      DotRulesNeedDotSegment(input);
    }
    DotFreeSuffix(input, n);
  }

  /** On a dot-free input the loop of RFC 3986 section 5.2.4 only ever applies rule
      E, so it moves the input to the output unchanged. */
  lemma {:induction false} DotFreeUnchanged(input: string, output: string)
    requires DotFree(input)
    ensures RemoveDotSegmentsFrom(input, output) == output + input
    decreases |input|
  {
    if input != [] {
      var n := FirstSegmentLen(input);
      StepOnDotFree(input, output);
      DotFreeUnchanged(input[n..], output + input[..n]);
      SplitRejoin(output, input, n);
    }
  }

  lemma SplitRejoin(a: string, b: string, n: nat)
    requires n <= |b|
    ensures a + b[..n] + b[n..] == a + b
  {
    assert b[..n] + b[n..] == b;
  }

  predicate SlashLed(s: string) {
    s != [] && s[0] == '/'
  }

  /** Each step keeps the input and the output absolute (or empty), and
      only empties the input once the output is absolute. */
  lemma StepKeepsSlash(input: string, output: string)
    requires SlashLed(input)
    requires output == [] || SlashLed(output)
    ensures var next := Step(input, output);
            (next.1 == [] || SlashLed(next.1)) && (SlashLed(next.0) || (next.0 == [] && SlashLed(next.1)))
  {
    var next := Step(input, output);
    assert !StartsWith(input, "../") && !StartsWith(input, "./") by {
      if |input| >= 2 {
        assert input[..2][0] == input[0];
      }
      if |input| >= 3 {
        assert input[..3][0] == input[0];
      }
    }
    if StartsWith(input, "/./") {
      assert input[..3][2] == input[2];
      assert next == (input[2..], output);
    } else if input == "/." || input == "/.." {
    } else if StartsWith(input, "/../") {
      assert input[..4][3] == input[3];
      var r := RemoveLastSegment(output);
      assert r == [] || r[0] == output[0];
      assert next == (input[3..], r);
    } else {
      assert input != "." && input != "..";
      var n := FirstSegmentLen(input);
      assert next == (input[n..], output + input[..n]);
      assert (output + input[..n])[0] == if output == [] then input[0] else output[0];
    }
  }

  /** An absolute path stays absolute: starting from a `/`, the loop never
      empties the output without a `/` to put back. */
  lemma {:induction false} KeepsLeadingSlash(input: string, output: string)
    requires SlashLed(input)
    requires output == [] || SlashLed(output)
    ensures SlashLed(RemoveDotSegmentsFrom(input, output))
    decreases |input|
  {
    var next := Step(input, output);
    StepKeepsSlash(input, output);
    if next.0 != [] {
      KeepsLeadingSlash(next.0, next.1);
    }
  }

  // RFC 3986 sections 5.2.2 and 5.2.3.

  /** Everything up to and including the last `/` of `p`; empty if it has none. */
  function Directory(p: string): (d: string)
    ensures |d| <= |p| && d == p[..|d|]
    ensures d == [] || d[|d| - 1] == '/'
    ensures NoneOf(p[|d|..], Slash)
    decreases |p|
  {
    if p == [] then []
    else if p[|p| - 1] == '/' then p
    else Directory(p[..|p| - 1])
  }

  /** RFC 3986 section 5.2.3: a relative path is appended to the base's directory, or
      to `/` when the base has an authority and an empty path. */
  function Merge(base: Uri, refPath: string): (p: string)
    ensures base.authority.Some? && (base.path == [] || base.path[0] == '/') ==>
              p != [] && p[0] == '/'
  {
    if base.authority.Some? && base.path == [] then "/" + refPath
    else Directory(base.path) + refPath
  }

  /** RFC 3986 section 5.2.2, in its strict form: a reference with a scheme replaces
      the base, one with an authority keeps only the base's scheme, an empty
      path keeps the base's path (and its query, unless the reference has
      one), an absolute path replaces the base's path and a relative one is
      merged with it. The fragment always comes from the reference. */
  function Resolve(base: Uri, ref: Uri): (t: Uri)
    ensures t.scheme == if ref.scheme.Some? then ref.scheme else base.scheme
    ensures t.authority == if ref.scheme.Some? || ref.authority.Some? then ref.authority else base.authority
    ensures t.fragment == ref.fragment
    ensures ref.scheme.None? && ref.authority.None? && ref.path == [] ==>
              t.path == base.path && t.query == (if ref.query.Some? then ref.query else base.query)
    ensures ref.scheme.Some? || ref.authority.Some? || ref.path != [] ==> t.query == ref.query
  {
    if ref.scheme.Some? then
      Uri(ref.scheme, ref.authority, RemoveDotSegments(ref.path), ref.query, ref.fragment)
    else if ref.authority.Some? then
      Uri(base.scheme, ref.authority, RemoveDotSegments(ref.path), ref.query, ref.fragment)
    else if ref.path == [] then
      Uri(base.scheme, base.authority, base.path,
          if ref.query.Some? then ref.query else base.query, ref.fragment)
    else if ref.path[0] == '/' then
      Uri(base.scheme, base.authority, RemoveDotSegments(ref.path), ref.query, ref.fragment)
    else
      Uri(base.scheme, base.authority, RemoveDotSegments(Merge(base, ref.path)), ref.query, ref.fragment)
  }

  /** The characters `urlsplit` deletes wherever they occur: tab, CR, LF. */
  const Unsafe: set<char> := {'\t', '\r', '\n'}

  /** A C0 control character or a space, which `urlsplit` strips from the
      front of its input. */
  predicate ControlOrSpace(c: char) {
    c <= ' '
  }

  /** `s` with every character of `drop` deleted. */
  function Without(s: string, drop: set<char>): (r: string)
    ensures NoneOf(r, drop)
    ensures |r| <= |s|
    decreases |s|
  {
    if s == [] then []
    else if s[0] in drop then Without(s[1..], drop)
    else [s[0]] + Without(s[1..], drop)
  }

  lemma {:induction false} WithoutConcat(a: string, b: string, drop: set<char>)
    ensures Without(a + b, drop) == Without(a, drop) + Without(b, drop)
    decreases |a|
  {
    if a == [] {
      assert a + b == b;
    } else {
      assert (a + b)[1..] == a[1..] + b;
      WithoutConcat(a[1..], b, drop);
    }
  }

  lemma {:induction false} WithoutNone(s: string, drop: set<char>)
    requires NoneOf(s, drop)
    ensures Without(s, drop) == s
    decreases |s|
  {
    if s != [] {
      WithoutNone(s[1..], drop);
      assert s == [s[0]] + s[1..];
    }
  }

  /** What `urlsplit` reads of a reference: its leading C0 controls and
      spaces stripped, then every tab, CR and LF deleted. */
  function Clean(s: string): (r: string)
    ensures NoneOf(r, Unsafe)
    ensures r != [] ==> !ControlOrSpace(r[0])
  {
    var t := DropWhile(s, ControlOrSpace);
    if t == [] then []
    else
      assert t[0] !in Unsafe;
      assert Without(t, Unsafe) == [t[0]] + Without(t[1..], Unsafe);
      Without(t, Unsafe)
  }

  /** A reference with nothing to strip or delete is read as it is. */
  lemma CleanUnchanged(s: string)
    requires NoneOf(s, Unsafe) && (s == [] || !ControlOrSpace(s[0]))
    ensures Clean(s) == s
  {
    WithoutNone(s, Unsafe);
  }

  /** A prefix with nothing to strip or delete is kept, and the rest loses
      its tabs, CRs and LFs. */
  lemma CleanAfterPrefix(c: string, x: string)
    requires c != [] && !ControlOrSpace(c[0]) && NoneOf(c, Unsafe)
    ensures Clean(c + x) == c + Without(x, Unsafe)
  {
    assert DropWhile(c + x, ControlOrSpace) == c + x;
    WithoutConcat(c, x, Unsafe);
    WithoutNone(c, Unsafe);
  }

  /** `urljoin(base, ref)` on strings: the reference is read as `urlsplit`
      reads it, then resolved against the base. */
  function Join(base: string, ref: string): string {
    Recompose(Resolve(Parse(base), Parse(Clean(ref))))
  }

  /** A reference without scheme or authority, against a base with an
      authority and an absolute (or empty) path, keeps the base's scheme and
      authority and gets an absolute path. */
  lemma RelativeResolvesAbsolute(base: Uri, ref: Uri)
    requires base.authority.Some? && (base.path == [] || base.path[0] == '/')
    requires ref.scheme.None? && ref.authority.None?
    ensures Resolve(base, ref).scheme == base.scheme
    ensures Resolve(base, ref).authority == base.authority
    ensures Resolve(base, ref).path == [] ==> base.path == [] && ref.path == []
    ensures Resolve(base, ref).path != [] ==> Resolve(base, ref).path[0] == '/'
  {
    if ref.path != [] {
      if ref.path[0] == '/' {
        KeepsLeadingSlash(ref.path, "");
      } else {
        KeepsLeadingSlash(Merge(base, ref.path), "");
      }
    }
  }

  /** A dot-free relative path against a base whose directory is `d` is
      simply appended to `d`. */
  lemma DotFreeRelativeAppends(base: Uri, ref: Uri)
    requires ref.scheme.None? && ref.authority.None?
    requires ref.path != [] && ref.path[0] != '/'
    requires DotFree(Merge(base, ref.path))
    ensures Resolve(base, ref).path == Merge(base, ref.path)
  {
    DotFreeUnchanged(Merge(base, ref.path), "");
  }

  /** A base whose path is just `/`, with no query or fragment: the root of
      a site. */
  predicate IsRoot(b: Uri) {
    b.authority.Some? && b.path == "/" && b.query.None? && b.fragment.None?
  }

  lemma RootRecomposed(b: Uri)
    requires IsRoot(b)
    ensures Recompose(b) == SchemePart(b.scheme) + AuthorityPart(b.authority) + "/"
  {
  }

  /** Against a site's root, a reference without scheme and authority gives
      an address under the root. */
  lemma ResolveUnderRoot(b: Uri, ref: Uri)
    requires IsRoot(b)
    requires ref.scheme.None? && ref.authority.None?
    ensures StartsWith(Recompose(Resolve(b, ref)), Recompose(b))
  {
    RelativeResolvesAbsolute(b, ref);
    UnderRoot(Resolve(b, ref), b);
  }

  /** An absolute path on the root's scheme and authority recomposes to an
      address under the root. */
  lemma UnderRoot(t: Uri, b: Uri)
    requires IsRoot(b)
    requires t.scheme == b.scheme && t.authority == b.authority
    requires t.path != [] && t.path[0] == '/'
    ensures StartsWith(Recompose(t), Recompose(b))
  {
    var origin := SchemePart(b.scheme) + AuthorityPart(b.authority);
    var rest := t.path[1..] + QueryPart(t.query) + FragmentPart(t.fragment);
    assert t.path == "/" + t.path[1..];
    assert Recompose(t) == (origin + "/") + rest;
    RootRecomposed(b);
    assert Recompose(t)[..|origin + "/"|] == origin + "/";
  }

  /** Against a site's root, a dot-free relative path without query or
      fragment is appended to the root. */
  lemma ResolvePlainUnderRoot(b: Uri, ref: Uri)
    requires IsRoot(b)
    requires ref.scheme.None? && ref.authority.None? && ref.query.None? && ref.fragment.None?
    requires ref.path != [] && ref.path[0] != '/'
    requires DotFree("/" + ref.path)
    ensures Recompose(Resolve(b, ref)) == Recompose(b) + ref.path
  {
    assert Merge(b, ref.path) == "/" + ref.path by {
      assert Directory(b.path) == "/";
    }
    DotFreeRelativeAppends(b, ref);
    AppendedToRoot(Resolve(b, ref), b, ref.path);
  }

  lemma AppendedToRoot(t: Uri, b: Uri, p: string)
    requires IsRoot(b)
    requires t == Uri(b.scheme, b.authority, "/" + p, None, None)
    ensures Recompose(t) == Recompose(b) + p
  {
    var origin := SchemePart(b.scheme) + AuthorityPart(b.authority);
    assert Recompose(t) == origin + ("/" + p) + "" + "";
    RootRecomposed(b);
  }

  /** `urljoin` from the root of a site, on strings. */
  lemma JoinUnderRoot(root: string, ref: string)
    requires IsRoot(Parse(root))
    requires Parse(Clean(ref)).scheme.None? && Parse(Clean(ref)).authority.None?
    ensures StartsWith(Join(root, ref), root)
  {
    ParseRecompose(root);
    ResolveUnderRoot(Parse(root), Parse(Clean(ref)));
  }

  /** A path-only reference without `?`, `#`, dot segments, empty
      segments, tabs, CRs or LFs, not starting with `/` or a control
      character or space, is appended to the root as it is. */
  lemma JoinPlainUnderRoot(root: string, ref: string)
    requires IsRoot(Parse(root))
    requires ref != [] && ref[0] != '/' && NoneOf(ref, PathStop) && !Contains(ref, "//")
    requires !ControlOrSpace(ref[0]) && NoneOf(ref, Unsafe)
    requires Parse(ref).scheme.None? && Parse(ref).authority.None?
    requires DotFree("/" + ref)
    ensures Join(root, ref) == root + ref
  {
    CleanUnchanged(ref);
    ParseRecompose(root);
    var u := Parse(ref);
    assert u == Uri(None, None, ref, None, None) by {
      ParseRecompose(ref);
      SpanAfter(ref, [], PathStop);
    }
    ResolvePlainUnderRoot(Parse(root), u);
  }
}
