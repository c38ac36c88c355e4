/** What a browser requests when a page fetches a URL that begins with a slash: the parsing rules of the WHATWG
    URL Standard (section 4.4) for the path, as far as they move, merge or drop segments. */
module UrlResolution {
  predicate IsSlash(c: char) {
    c == '/' || c == '\\'
  }

  predicate IsTabOrNewline(c: char) {
    c == '\t' || c == '\n' || c == '\r'
  }

  predicate EndsPath(c: char) {
    c == '?' || c == '#'
  }

  /** Trailing control characters and spaces go. */
  function StripEnd(s: string): string {
    if s != "" && s[|s| - 1] <= ' ' then StripEnd(s[..|s| - 1]) else s
  }

  /** Tabs and newlines go, wherever they stand. */
  function DropTabs(s: string): string {
    if s == "" then ""
    else DropTabs(s[..|s| - 1]) + if IsTabOrNewline(s[|s| - 1]) then "" else [s[|s| - 1]]
  }

  /** Where the path ends: at the query or the fragment, if there is one. */
  function PathEnd(s: string): (n: nat)
    ensures n <= |s|
  {
    if s == "" || EndsPath(s[0]) then 0 else 1 + PathEnd(s[1..])
  }

  /** The parts between the slashes of either kind. */
  function Segments(s: string): (r: seq<string>)
    ensures r != []
  {
    if s == "" then [""]
    else if IsSlash(s[0]) then [""] + Segments(s[1..])
    else var r := Segments(s[1..]); [[s[0]] + r[0]] + r[1..]
  }

  const DOTS: set<string> := {".", "%2e", "%2E"}
  const DOUBLE_DOTS: set<string> :=
    {"..", ".%2e", ".%2E", "%2e.", "%2E.", "%2e%2e", "%2e%2E", "%2E%2e", "%2E%2E"}

  /** One segment more: a dot stays where it is, a double dot goes up, and either leaves an empty segment if it is
      the last. */
  function Enter(done: seq<string>, segment: string, last: bool): seq<string> {
    if segment in DOUBLE_DOTS then (if done == [] then [] else done[..|done| - 1]) + (if last then [""] else [])
    else if segment in DOTS then done + (if last then [""] else [])
    else done + [segment]
  }

  function EnterAll(done: seq<string>, segments: seq<string>): seq<string>
    decreases |segments|
  {
    if segments == [] then done else EnterAll(Enter(done, segments[0], |segments| == 1), segments[1..])
  }

  function Join(segments: seq<string>): string {
    if segments == [] then ""
    else if |segments| == 1 then segments[0]
    else segments[0] + "/" + Join(segments[1..])
  }

  /** `rest` entered below the segments `base`, its query and fragment kept. */
  function ResolvedBelow(base: seq<string>, rest: string): string {
    var s := DropTabs(StripEnd(rest));
    "/" + Join(EnterAll(base, Segments(s[..PathEnd(s)]))) + s[PathEnd(s)..]
  }

  /** The URL requested for `url`, which begins with a slash. */
  function Resolved(url: string): string {
    if url == "" then "" else ResolvedBelow([], url[1..])
  }

  // ---------------------------------------------------------------- parsing what follows plain segments

  /** Nothing for the parser to move or drop: no tab, newline or backslash, no trailing blank, no dot segment. */
  predicate Plain(s: string) {
    && (forall i :: 0 <= i < |s| ==> !IsTabOrNewline(s[i]) && s[i] != '\\')
    && (s != "" ==> s[|s| - 1] > ' ')
    && (forall segment :: segment in Segments(s[..PathEnd(s)]) ==> segment !in DOTS && segment !in DOUBLE_DOTS)
  }

  /** A single segment that is one as it stands. */
  predicate PlainSegment(s: string) {
    && s != "" && s !in DOTS && s !in DOUBLE_DOTS
    && forall i :: 0 <= i < |s| ==> s[i] > ' ' && !IsSlash(s[i]) && !EndsPath(s[i])
  }

  lemma {:induction false} StripEndBehind(a: string, b: string)
    requires a != "" && a[|a| - 1] > ' '
    ensures StripEnd(a + b) == a + StripEnd(b)
  {
    if b == "" {
      assert a + b == a;
    } else if b[|b| - 1] <= ' ' {
      assert (a + b)[..|a + b| - 1] == a + b[..|b| - 1];
      StripEndBehind(a, b[..|b| - 1]);
    }
  }

  lemma {:induction false} DropTabsBehind(a: string, b: string)
    requires forall i :: 0 <= i < |a| ==> !IsTabOrNewline(a[i])
    ensures DropTabs(a + b) == a + DropTabs(b)
    decreases |b|
  {
    if b == "" {
      assert a + b == a;
      NoTabs(a);
    } else {
      assert (a + b)[..|a + b| - 1] == a + b[..|b| - 1];
      DropTabsBehind(a, b[..|b| - 1]);
    }
  }

  lemma {:induction false} NoTabs(s: string)
    requires forall i :: 0 <= i < |s| ==> !IsTabOrNewline(s[i])
    ensures DropTabs(s) == s
  {
    if s != "" { NoTabs(s[..|s| - 1]); }
  }

  lemma {:induction false} PathEndBehind(a: string, b: string)
    requires forall i :: 0 <= i < |a| ==> !EndsPath(a[i])
    ensures PathEnd(a + b) == |a| + PathEnd(b)
  {
    if a == "" {
      assert a + b == b;
    } else {
      assert (a + b)[1..] == a[1..] + b;
      PathEndBehind(a[1..], b);
    }
  }

  lemma {:induction false} SegmentsBehind(a: string, b: string)
    requires forall i :: 0 <= i < |a| ==> !IsSlash(a[i])
    ensures Segments(a + "/" + b) == [a] + Segments(b)
  {
    if a == "" {
      assert a + "/" + b == "/" + b && ("/" + b)[1..] == b;
    } else {
      assert (a + "/" + b)[1..] == a[1..] + "/" + b;
      SegmentsBehind(a[1..], b);
      assert [a[0]] + a[1..] == a;
    }
  }

  /** A plain segment in front is entered as it is. */
  lemma BelowPlainSegment(base: seq<string>, a: string, rest: string)
    requires PlainSegment(a)
    ensures ResolvedBelow(base, a + "/" + rest) == ResolvedBelow(base + [a], rest)
  {
    hide StripEnd, DropTabs, PathEnd, Segments, Join;
    var front := a + "/";
    assert a + "/" + rest == front + rest;
    StripEndBehind(front, rest);
    DropTabsBehind(front, StripEnd(rest));
    var t := DropTabs(StripEnd(rest));
    PathEndBehind(front, t);
    assert (front + t)[..|front| + PathEnd(t)] == a + "/" + t[..PathEnd(t)];
    assert (front + t)[|front| + PathEnd(t)..] == t[PathEnd(t)..];
    SegmentsBehind(a, t[..PathEnd(t)]);
    EnterFirst(base, a, Segments(t[..PathEnd(t)]));
  }

  lemma {:induction false} EnterFirst(base: seq<string>, a: string, segments: seq<string>)
    requires PlainSegment(a) && segments != []
    ensures EnterAll(base, [a] + segments) == EnterAll(base + [a], segments)
  {
    assert ([a] + segments)[1..] == segments;
  }

  // ---------------------------------------------------------------- plain URLs

  lemma {:induction false} JoinSegments(s: string)
    requires forall i :: 0 <= i < |s| ==> s[i] != '\\'
    ensures Join(Segments(s)) == s
  {
    if s != "" {
      JoinSegments(s[1..]);
      var r := Segments(s[1..]);
      if IsSlash(s[0]) {
        assert ([""] + r)[1..] == r;
      } else {
        assert ([[s[0]] + r[0]] + r[1..])[1..] == r[1..];
      }
      assert s == [s[0]] + s[1..];
    }
  }

  lemma {:induction false} EnterPlain(done: seq<string>, segments: seq<string>)
    requires forall segment :: segment in segments ==> segment !in DOTS && segment !in DOUBLE_DOTS
    ensures EnterAll(done, segments) == done + segments
    decreases |segments|
  {
    if segments != [] {
      EnterPlain(done + [segments[0]], segments[1..]);
      assert done + [segments[0]] + segments[1..] == done + segments;
    }
  }

  lemma {:induction false} NothingDropped(rest: string)
    requires Plain(rest)
    ensures DropTabs(StripEnd(rest)) == rest
  {
    hide Segments, PathEnd;
    NoTabs(rest);
  }

  lemma {:induction false} PlainPathJoins(rest: string)
    requires Plain(rest)
    ensures Join(EnterAll([], Segments(rest[..PathEnd(rest)]))) == rest[..PathEnd(rest)]
  {
    var path := rest[..PathEnd(rest)];
    EnterPlain([], Segments(path));
    assert [] + Segments(path) == Segments(path);
    hide EnterAll, Segments, Join, PathEnd;
    JoinSegments(path);
  }

  /** A URL with nothing to move or drop is requested as it stands. */
  lemma PlainUntouched(rest: string)
    requires Plain(rest)
    ensures Resolved("/" + rest) == "/" + rest
  {
    hide Plain, StripEnd, DropTabs, PathEnd, Segments, Join, EnterAll;
    assert ("/" + rest)[1..] == rest;
    NothingDropped(rest);
    PlainPathJoins(rest);
    assert "/" + rest[..PathEnd(rest)] + rest[PathEnd(rest)..] == "/" + rest;
  }

  lemma PlainBehind(a: string, rest: string)
    requires PlainSegment(a) && Plain(rest)
    ensures Plain(a + "/" + rest)
  {
    var front := a + "/";
    assert a + "/" + rest == front + rest;
    PathEndBehind(front, rest);
    assert (front + rest)[..|front| + PathEnd(rest)] == a + "/" + rest[..PathEnd(rest)];
    SegmentsBehind(a, rest[..PathEnd(rest)]);
    assert forall i :: 0 <= i < |a| ==> !IsTabOrNewline(a[i]) && a[i] != '\\';
  }

  // ---------------------------------------------------------------- one segment more or less

  /** Below two bases that differ in one segment, the same segments either leave that segment in place, with the
      same ones after it, or go up past it, and then the results are the same. */
  lemma {:induction false} EnterBelow(base: seq<string>, u: string, v: string, done: seq<string>, segments: seq<string>)
    returns (kept: bool, below: seq<string>)
    requires segments != []
    ensures if kept then below != [] && EnterAll(base + [u] + done, segments) == base + [u] + below
                         && EnterAll(base + [v] + done, segments) == base + [v] + below
            else EnterAll(base + [u] + done, segments) == EnterAll(base + [v] + done, segments)
    decreases |segments|
  {
    var last := |segments| == 1;
    if segments[0] in DOUBLE_DOTS && done == [] {
      assert base + [u] + done == base + [u] && base + [v] + done == base + [v];
      assert (base + [u])[..|base|] == base == (base + [v])[..|base|];
      kept, below := false, [];
    } else {
      var next := Enter(done, segments[0], last);
      EnterKeeps(base + [u], done, segments[0], last);
      EnterKeeps(base + [v], done, segments[0], last);
      if last {
        kept, below := true, next;
      } else {
        kept, below := EnterBelow(base, u, v, next, segments[1..]);
      }
    }
  }

  lemma EnterKeeps(base: seq<string>, done: seq<string>, segment: string, last: bool)
    requires !(segment in DOUBLE_DOTS && done == [])
    ensures Enter(base + done, segment, last) == base + Enter(done, segment, last)
    ensures last ==> Enter(done, segment, last) != []
  {
    if segment in DOUBLE_DOTS {
      assert (base + done)[..|base + done| - 1] == base + done[..|done| - 1];
    }
  }

  lemma {:induction false} JoinBelow(base: seq<string>, below: seq<string>)
    requires base != [] && below != []
    ensures Join(base + below) == Join(base) + "/" + Join(below)
  {
    assert (base + below)[1..] == base[1..] + below;
    if |base| > 1 {
      JoinBelow(base[1..], below);
    } else {
      assert base[1..] + below == below;
    }
  }
}
