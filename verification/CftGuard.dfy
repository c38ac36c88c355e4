/** The CFT bridge's write guard: which requests it lets through, and which of those the browser turns into
    requests of a write path after all. */
module CftGuard {
  import opened UrlResolution
  import opened Wrappers

  // ---------------------------------------------------------------- the write guard

  function LowerChar(c: char): char {
    if 'A' <= c <= 'Z' then c - 'A' + 'a' else c
  }

  function UpperChar(c: char): char {
    if 'a' <= c <= 'z' then c - 'a' + 'A' else c
  }

  function Lower(s: string): (r: string)
    ensures |r| == |s| && forall i :: 0 <= i < |s| ==> r[i] == LowerChar(s[i])
  {
    seq(|s|, i requires 0 <= i < |s| => LowerChar(s[i]))
  }

  function Upper(s: string): (r: string)
    ensures |r| == |s| && forall i :: 0 <= i < |s| ==> r[i] == UpperChar(s[i])
  {
    seq(|s|, i requires 0 <= i < |s| => UpperChar(s[i]))
  }

  predicate OccursAt(s: string, sub: string, i: nat) {
    i + |sub| <= |s| && s[i..i + |sub|] == sub
  }

  /** Python's `sub in s`. */
  predicate Contains(s: string, sub: string) {
    exists i :: 0 <= i <= |s| && OccursAt(s, sub, i)
  }

  const WRITE_PATH_FRAGMENTS: seq<string> := [
    "/position/open", "/position/close", "/position/edit", "/position/modify", "/order", "/positions/close"
  ]

  predicate HasWriteFragment(path: string) {
    exists k :: 0 <= k < |WRITE_PATH_FRAGMENTS| && Contains(Lower(path), WRITE_PATH_FRAGMENTS[k])
  }

  /** `is_write_request`. A missing method counts as GET here. */
  predicate IsWriteRequest(verb: Option<string>, path: string) {
    HasWriteFragment(path) || Upper(if verb == None || verb.value == "" then "GET" else verb.value) != "GET"
  }

  /** The fragments are matched wherever they stand and however they are cased: a renamed or versioned route
      that still carries one trips the guard, whatever the method. */
  lemma FragmentAnywhereTrips(verb: Option<string>, before: string, cased: string, after: string, k: nat)
    requires k < |WRITE_PATH_FRAGMENTS| && Lower(cased) == WRITE_PATH_FRAGMENTS[k]
    ensures IsWriteRequest(verb, before + cased + after)
  {
    var path := before + cased + after;
    assert Lower(path)[|before|..|before| + |cased|] == Lower(cased);
    assert OccursAt(Lower(path), WRITE_PATH_FRAGMENTS[k], |before|);
  }

  /** The request only reads: its method is GET in any letter case (or not given), and its lower-cased path
      contains nothing that opens, closes, edits or modifies a position or places an order. */
  predicate OnlyAsksToRead(verb: Option<string>, path: string) {
    && (verb == None || verb.value == "" || Lower(verb.value) == "get")
    && !Contains(Lower(path), "/position/open") && !Contains(Lower(path), "/position/close")
    && !Contains(Lower(path), "/position/edit") && !Contains(Lower(path), "/position/modify")
    && !Contains(Lower(path), "/order") && !Contains(Lower(path), "/positions/close")
  }

  /** The guard trips on exactly the other requests. */
  lemma GuardTripsExactly(verb: Option<string>, path: string)
    ensures IsWriteRequest(verb, path) <==> !OnlyAsksToRead(verb, path)
  {
    if verb.Some? { CaseOfGet(verb.value); }
    FragmentsListed(path);
  }

  lemma FragmentsListed(path: string)
    ensures HasWriteFragment(path) <==>
              || Contains(Lower(path), "/position/open") || Contains(Lower(path), "/position/close")
              || Contains(Lower(path), "/position/edit") || Contains(Lower(path), "/position/modify")
              || Contains(Lower(path), "/order") || Contains(Lower(path), "/positions/close")
  {
    hide Contains, Lower;
    var f := WRITE_PATH_FRAGMENTS;
    assert f[0] == "/position/open" && f[1] == "/position/close" && f[2] == "/position/edit";
    assert f[3] == "/position/modify" && f[4] == "/order" && f[5] == "/positions/close" && |f| == 6;
  }

  lemma CaseOfGet(verb: string)
    ensures Upper(verb) == "GET" <==> Lower(verb) == "get"
    ensures Upper(verb) == "" <==> verb == ""
  {
    if Upper(verb) == "GET" {
      assert verb[0] in {'g', 'G'} && verb[1] in {'e', 'E'} && verb[2] in {'t', 'T'} by {
        assert UpperChar(verb[0]) == 'G' && UpperChar(verb[1]) == 'E' && UpperChar(verb[2]) == 'T';
      }
      assert Lower(verb)[0] == 'g' && Lower(verb)[1] == 'e' && Lower(verb)[2] == 't';
    }
    if Lower(verb) == "get" {
      assert LowerChar(verb[0]) == 'g' && LowerChar(verb[1]) == 'e' && LowerChar(verb[2]) == 't';
      assert Upper(verb)[0] == 'G' && Upper(verb)[1] == 'E' && Upper(verb)[2] == 'T';
    }
  }

  // ---------------------------------------------------------------- the URL handed to the browser

  predicate IsUuid(s: string) {
    |s| == 36 && forall i :: 0 <= i < |s| ==> '0' <= s[i] <= '9' || 'a' <= s[i] <= 'f' || s[i] == '-'
  }

  /** What the login's pattern lets through as a uuid. */
  type Uuid = s: string | IsUuid(s) witness "------------------------------------"

  predicate StartsWith(s: string, prefix: string) {
    prefix <= s
  }

  /** Absolute API paths pass through; others are taken relative to the account. */
  function Url(path: string, uuid: Uuid): string {
    if StartsWith(path, "/mtr-api/") || StartsWith(path, "/market-data-api/") then path
    else "/mtr-api/" + uuid + (if StartsWith(path, "/") then path else "/" + path)
  }

  // ---------------------------------------------------------------- what the guard lets through

  /** The path has no leading slash and would begin with a write fragment if it had one. */
  predicate LacksItsSlash(path: string) {
    && !StartsWith(path, "/")
    && exists k :: 0 <= k < |WRITE_PATH_FRAGMENTS| && StartsWith("/" + Lower(path), WRITE_PATH_FRAGMENTS[k])
  }

  /** What all the fragments have in common. */
  predicate FragmentShape(f: string) {
    |f| > 1 && f[0] == '/' && (f[1] == 'p' || f[1] == 'o')
  }

  lemma FragmentsShape(k: nat)
    requires k < |WRITE_PATH_FRAGMENTS|
    ensures FragmentShape(WRITE_PATH_FRAGMENTS[k])
  {
  }

  lemma LowerConcat(a: string, b: string)
    ensures Lower(a + b) == Lower(a) + Lower(b)
  {
  }

  lemma LowerUuid(uuid: Uuid)
    ensures Lower(uuid) == uuid
  {
  }

  /** Past the prefix an occurrence lies in the rest; in front of it there is none: the two slashes there are
      not followed by the right letter. */
  lemma OccursInUrl(uuid: Uuid, rest: string, f: string)
    requires FragmentShape(f) && rest != "" && rest[0] == '/'
    ensures Contains("/mtr-api/" + uuid + rest, f) <==> Contains(rest, f)
  {
    var base := "/mtr-api/" + uuid;
    if Contains(base + rest, f) {
      var i :| 0 <= i <= |base + rest| && OccursAt(base + rest, f, i);
      NotInFront(uuid, rest, f, i);
      OccursShift(base, rest, f, i - |base|);
    }
    if Contains(rest, f) {
      var i :| 0 <= i <= |rest| && OccursAt(rest, f, i);
      OccursShift(base, rest, f, i);
    }
  }

  lemma NotInFront(uuid: Uuid, rest: string, f: string, i: nat)
    requires FragmentShape(f) && rest != "" && rest[0] == '/' && OccursAt("/mtr-api/" + uuid + rest, f, i)
    ensures |"/mtr-api/" + uuid| <= i
  {
    var s := "/mtr-api/" + uuid + rest;
    assert s[i] == f[0] && s[i + 1] == f[1];
  }

  lemma OccursShift(base: string, rest: string, f: string, i: nat)
    ensures OccursAt(base + rest, f, |base| + i) <==> OccursAt(rest, f, i)
  {
    if i + |f| <= |rest| {
      assert (base + rest)[|base| + i..|base| + i + |f|] == rest[i..i + |f|];
    }
  }

  /** A slash in front adds an occurrence exactly if the fragment then stands at the front. */
  lemma OccursBehindSlash(path: string, f: string)
    requires FragmentShape(f)
    ensures Contains("/" + path, f) <==> Contains(path, f) || StartsWith("/" + path, f)
  {
    if Contains("/" + path, f) {
      var i :| 0 <= i <= |"/" + path| && OccursAt("/" + path, f, i);
      if i > 0 { OccursShift("/", path, f, i - 1); }
    }
    if StartsWith("/" + path, f) { assert OccursAt("/" + path, f, 0); }
    if Contains(path, f) {
      var i :| 0 <= i <= |path| && OccursAt(path, f, i);
      OccursShift("/", path, f, i);
    }
  }

  lemma FragmentInUrl(path: string, uuid: Uuid, f: string)
    requires FragmentShape(f) && !Contains(Lower(path), f)
    ensures Contains(Lower(Url(path, uuid)), f) <==> !StartsWith(path, "/") && StartsWith("/" + Lower(path), f)
  {
    hide Contains, FragmentShape, Lower;
    if !StartsWith(path, "/mtr-api/") && !StartsWith(path, "/market-data-api/") {
      var rest := if StartsWith(path, "/") then path else "/" + path;
      UrlLowered(uuid, rest);
      LowerConcat("/", path);
      assert Lower("/") == "/";
      OccursInUrl(uuid, Lower(rest), f);
      OccursBehindSlash(Lower(path), f);
    }
  }

  /** The guard reads the path as given; the slash a path lacks is added afterwards. So of a path the guard lets
      through, the URL handed to the browser carries a fragment exactly if the path lacks the slash its fragment
      begins with. */
  lemma UrlCarriesExactly(path: string, uuid: Uuid)
    requires !HasWriteFragment(path)
    ensures HasWriteFragment(Url(path, uuid)) <==> LacksItsSlash(path)
  {
    hide Contains, Lower, Url, StartsWith;
    forall k | 0 <= k < |WRITE_PATH_FRAGMENTS|
      ensures Contains(Lower(Url(path, uuid)), WRITE_PATH_FRAGMENTS[k]) <==>
                !StartsWith(path, "/") && StartsWith("/" + Lower(path), WRITE_PATH_FRAGMENTS[k])
    {
      FragmentsShape(k);
      FragmentInUrl(path, uuid, WRITE_PATH_FRAGMENTS[k]);
    }
  }

  lemma UrlLowered(uuid: Uuid, rest: string)
    ensures Lower("/mtr-api/" + uuid + rest) == "/mtr-api/" + uuid + Lower(rest)
  {
    LowerConcat("/mtr-api/" + uuid, rest);
    LowerConcat("/mtr-api/", uuid);
    LowerUuid(uuid);
  }

  // ---------------------------------------------------------------- the URL the browser requests

  function Unslashed(path: string): string {
    if StartsWith(path, "/") then path[1..] else path
  }

  /** Nothing in the path for the browser to move or drop. */
  predicate PlainPath(path: string) {
    Plain(Unslashed(path))
  }

  const ANY_ACCOUNT: Uuid := "------------------------------------"

  /** The browser, asked for the path under any account, requests a URL with a write fragment. */
  predicate ReachesWrite(path: string) {
    HasWriteFragment(Resolved(Url(path, ANY_ACCOUNT)))
  }

  lemma UuidIsPlain(uuid: Uuid)
    ensures PlainSegment(uuid)
  {
  }

  /** Absolute API paths are handed over as they are. */
  lemma AbsoluteUrl(path: string, rest: string, uuid: Uuid)
    requires path == "/mtr-api/" + rest || path == "/market-data-api/" + rest
    ensures Url(path, uuid) == path
  {
  }

  lemma UrlIs(path: string, uuid: Uuid)
    requires !StartsWith(path, "/mtr-api/") && !StartsWith(path, "/market-data-api/")
    ensures Url(path, uuid) == "/" + ("mtr-api" + "/" + (uuid + "/" + Unslashed(path)))
  {
    var rest := Unslashed(path);
    assert (if StartsWith(path, "/") then path else "/" + path) == "/" + rest;
    Regroup(uuid, rest);
  }

  lemma Regroup(uuid: string, rest: string)
    ensures "/mtr-api/" + uuid + ("/" + rest) == "/" + ("mtr-api" + "/" + (uuid + "/" + rest))
  {
    assert "/mtr-api/" == "/" + "mtr-api" + "/";
  }

  /** A plain path is requested as it stands. */
  lemma PlainRequest(path: string, uuid: Uuid)
    requires PlainPath(path)
    ensures Resolved(Url(path, uuid)) == Url(path, uuid)
  {
    hide Plain, PlainSegment, Resolved, Unslashed, StartsWith;
    var rest := Unslashed(path);
    if StartsWith(path, "/mtr-api/") || StartsWith(path, "/market-data-api/") {
      AbsolutePath(path);
      PlainUntouched(rest);
    } else {
      UrlIs(path, uuid);
      UuidIsPlain(uuid);
      PlainBehind(uuid, rest);
      PlainApi();
      PlainBehind("mtr-api", uuid + "/" + rest);
      PlainUntouched("mtr-api" + "/" + (uuid + "/" + rest));
    }
  }

  lemma AbsolutePath(path: string)
    requires StartsWith(path, "/mtr-api/") || StartsWith(path, "/market-data-api/")
    ensures path == "/" + Unslashed(path)
  {
    assert path[0] == '/';
    assert path[..1] == "/";
  }

  lemma PlainApi()
    ensures PlainSegment("mtr-api")
  {
  }

  lemma RequestBelow(path: string, uuid: Uuid)
    requires !StartsWith(path, "/mtr-api/") && !StartsWith(path, "/market-data-api/")
    ensures Resolved(Url(path, uuid)) == ResolvedBelow(["mtr-api"] + [uuid], Unslashed(path))
  {
    hide ResolvedBelow, PlainSegment, Unslashed;
    UrlIs(path, uuid);
    var rest := uuid + "/" + Unslashed(path);
    assert Url(path, uuid)[1..] == "mtr-api" + "/" + rest;
    PlainApi();
    BelowPlainSegment([], "mtr-api", rest);
    UuidIsPlain(uuid);
    assert [] + ["mtr-api"] == ["mtr-api"];
    BelowPlainSegment(["mtr-api"], uuid, Unslashed(path));
  }

  /** A fragment behind the account's prefix is one behind it. */
  lemma BehindAccount(uuid: Uuid, rest: string)
    requires rest != "" && rest[0] == '/'
    ensures HasWriteFragment("/mtr-api/" + uuid + rest) <==> HasWriteFragment(rest)
  {
    hide Contains, Lower;
    UrlLowered(uuid, rest);
    LowerHead(rest);
    forall k | 0 <= k < |WRITE_PATH_FRAGMENTS|
      ensures Contains(Lower("/mtr-api/" + uuid + rest), WRITE_PATH_FRAGMENTS[k]) <==>
                Contains(Lower(rest), WRITE_PATH_FRAGMENTS[k])
    {
      FragmentsShape(k);
      OccursInUrl(uuid, Lower(rest), WRITE_PATH_FRAGMENTS[k]);
    }
  }

  lemma LowerHead(rest: string)
    requires rest != "" && rest[0] == '/'
    ensures Lower(rest) != "" && Lower(rest)[0] == '/'
  {
  }

  /** Whether a request reaches a write path does not depend on the account it is made under. */
  lemma AccountIrrelevant(path: string, u: Uuid, v: Uuid)
    ensures HasWriteFragment(Resolved(Url(path, u))) <==> HasWriteFragment(Resolved(Url(path, v)))
  {
    if !StartsWith(path, "/mtr-api/") && !StartsWith(path, "/market-data-api/") {
      hide Url, Resolved, Segments, EnterAll, Join, HasWriteFragment, PathEnd, DropTabs, StripEnd;
      RequestBelow(path, u);
      RequestBelow(path, v);
      var s := DropTabs(StripEnd(Unslashed(path)));
      var segments := Segments(s[..PathEnd(s)]);
      var kept, below := EnterBelow(["mtr-api"], u, v, [], segments);
      assert ["mtr-api"] + [u] + [] == ["mtr-api"] + [u] && ["mtr-api"] + [v] + [] == ["mtr-api"] + [v];
      if kept {
        JoinAccount(u, below);
        JoinAccount(v, below);
        var rest := "/" + Join(below) + s[PathEnd(s)..];
        RestBehind(u, below, s[PathEnd(s)..]);
        RestBehind(v, below, s[PathEnd(s)..]);
        BehindAccount(u, rest);
        BehindAccount(v, rest);
      }
    }
  }

  lemma {:induction false} JoinAccount(uuid: Uuid, below: seq<string>)
    requires below != []
    ensures Join(["mtr-api"] + [uuid] + below) == "mtr-api/" + uuid + "/" + Join(below)
  {
    JoinBelow(["mtr-api"] + [uuid], below);
    assert (["mtr-api"] + [uuid])[1..] == [uuid];
  }

  lemma {:induction false} RestBehind(uuid: Uuid, below: seq<string>, tail: string)
    ensures "/" + ("mtr-api/" + uuid + "/" + Join(below)) + tail == "/mtr-api/" + uuid + ("/" + Join(below) + tail)
  {
  }

  /** What the guard misses. Under every account a request reaches a write path exactly if it does under any, so
      the path alone decides; and a plain path the guard lets through does exactly if it lacks its slash. */
  lemma GuardMissesExactly(path: string, uuid: Uuid)
    ensures HasWriteFragment(Resolved(Url(path, uuid))) <==> ReachesWrite(path)
    ensures PlainPath(path) && !HasWriteFragment(path) ==> (ReachesWrite(path) <==> LacksItsSlash(path))
  {
    hide HasWriteFragment, PlainPath, LacksItsSlash;
    AccountIrrelevant(path, uuid, ANY_ACCOUNT);
    if PlainPath(path) && !HasWriteFragment(path) {
      PlainRequest(path, ANY_ACCOUNT);
      UrlCarriesExactly(path, ANY_ACCOUNT);
    }
  }

  // ---------------------------------------------------------------- two requests the guard is meant to refuse

  lemma OnePlainSegment(s: string)
    requires PlainSegment(s)
    ensures Plain(s)
  {
    PathEndBehind(s, "");
    assert s + "" == s;
    OneSegment(s);
  }

  lemma {:induction false} OneSegment(s: string)
    requires forall i :: 0 <= i < |s| ==> !IsSlash(s[i])
    ensures Segments(s) == [s]
  {
    if s != "" {
      OneSegment(s[1..]);
      assert [s[0]] + s[1..] == s;
    }
  }

  lemma NotAbsolute(path: string)
    requires |path| > 1 && path[1] != 'm'
    ensures !StartsWith(path, "/mtr-api/") && !StartsWith(path, "/market-data-api/")
  {
    assert "/mtr-api/"[1] == 'm' && "/market-data-api/"[1] == 'm';
  }

  lemma PlainNames()
    ensures PlainSegment("order") && PlainSegment("place") && PlainSegment("position") && PlainSegment("open")
  {
  }

  lemma TwoPlainSegments(a: string, b: string)
    requires PlainSegment(a) && PlainSegment(b)
    ensures Plain(a + "/" + b)
  {
    hide Plain, PlainSegment;
    OnePlainSegment(b);
    PlainBehind(a, b);
  }

  /** A plain path that lacks its slash. */
  lemma SlashlessOrder(uuid: Uuid)
    ensures !IsWriteRequest(None, "order/place") && HasWriteFragment(Resolved(Url("order/place", uuid)))
  {
    hide Plain, PlainSegment, Resolved, Url;
    SlashlessPasses();
    PlainNames();
    TwoPlainSegments("order", "place");
    assert "order" + "/" + "place" == "order/place";
    assert Unslashed("order/place") == "order/place" by { assert "order/place"[0] == 'o'; }
    PlainRequest("order/place", uuid);
    UrlCarriesExactly("order/place", uuid);
  }

  lemma SlashlessPasses()
    ensures !HasWriteFragment("order/place") && LacksItsSlash("order/place")
  {
    var path := "order/place";
    assert Lower(path) == path;
    forall k, i | 0 <= k < |WRITE_PATH_FRAGMENTS| && 0 <= i <= |path|
      ensures !OccursAt(path, WRITE_PATH_FRAGMENTS[k], i)
    {
      NotInOrderPlace(k, i);
    }
    assert path[0] != "/"[0];
    assert "/" + path == WRITE_PATH_FRAGMENTS[4] + "/place";
    assert StartsWith("/" + Lower(path), WRITE_PATH_FRAGMENTS[4]);
  }

  lemma NotInOrderPlace(k: nat, i: nat)
    requires k < |WRITE_PATH_FRAGMENTS|
    ensures !OccursAt("order/place", WRITE_PATH_FRAGMENTS[k], i)
  {
    var path, f := "order/place", WRITE_PATH_FRAGMENTS[k];
    if i + |f| <= |path| {
      var there := path[i..i + |f|];
      assert there[0] == path[i] && there[1] == path[i + 1] && there[2] == path[i + 2];
      assert (there[0], there[1], there[2]) != (f[0], f[1], f[2]);
    }
  }

  lemma {:induction false} EnterDot(base: seq<string>, segments: seq<string>)
    requires segments != []
    ensures EnterAll(base, ["."] + segments) == EnterAll(base, segments)
  {
    assert (["."] + segments)[1..] == segments;
    assert "." in DOTS && "." !in DOUBLE_DOTS && base + [] == base;
  }

  lemma BelowDot(base: seq<string>, rest: string)
    ensures ResolvedBelow(base, "./" + rest) == ResolvedBelow(base, rest)
  {
    hide StripEnd, DropTabs, PathEnd, Segments, Join, EnterAll;
    StripEndBehind("./", rest);
    DropTabsBehind("./", StripEnd(rest));
    var t := DropTabs(StripEnd(rest));
    PathEndBehind("./", t);
    assert ("./" + t)[..2 + PathEnd(t)] == "." + "/" + t[..PathEnd(t)];
    assert ("./" + t)[2 + PathEnd(t)..] == t[PathEnd(t)..];
    SegmentsBehind(".", t[..PathEnd(t)]);
    EnterDot(base, Segments(t[..PathEnd(t)]));
  }

  /** A dot segment between two others changes nothing in what is requested. */
  lemma DotSegmentDropped(path: string, straight: string, a: string, b: string, uuid: Uuid)
    requires PlainSegment(a) && a[0] != 'm' && path == "/" + (a + "/" + ("./" + b)) && straight == "/" + (a + "/" + b)
    ensures Resolved(Url(path, uuid)) == Resolved(Url(straight, uuid))
  {
    assert path[1] == a[0] == straight[1] && Unslashed(path) == path[1..] && Unslashed(straight) == straight[1..];
    NotAbsolute(path);
    NotAbsolute(straight);
    RequestBelow(path, uuid);
    RequestBelow(straight, uuid);
    assert path[1..] == a + "/" + ("./" + b) && straight[1..] == a + "/" + b;
    hide ResolvedBelow, Url, Resolved, PlainSegment;
    var account := ["mtr-api"] + [uuid];
    BelowPlainSegment(account, a, "./" + b);
    BelowDot(account + [a], b);
    BelowPlainSegment(account, a, b);
  }

  /** A plain path with a fragment reaches a write path. */
  lemma PlainWrite(path: string, uuid: Uuid)
    requires PlainPath(path) && StartsWith(path, "/") && HasWriteFragment(path)
    ensures HasWriteFragment(Resolved(Url(path, uuid)))
  {
    hide PlainPath, HasWriteFragment, Resolved;
    PlainRequest(path, uuid);
    if !StartsWith(path, "/mtr-api/") && !StartsWith(path, "/market-data-api/") {
      assert path[0] == '/';
      BehindAccount(uuid, path);
    }
  }

  /** A path that has its slash, and its fragment interrupted by a dot segment. */
  lemma DotSegmentOpen(uuid: Uuid)
    ensures !IsWriteRequest(None, "/position/./open") && !LacksItsSlash("/position/./open")
    ensures HasWriteFragment(Resolved(Url("/position/./open", uuid)))
  {
    hide HasWriteFragment, Plain, PlainSegment, Resolved, Url;
    DotSegmentPasses();
    PlainNames();
    assert "/position/./open" == "/" + ("position" + "/" + ("./" + "open"));
    assert "/position/open" == "/" + ("position" + "/" + "open");
    DotSegmentDropped("/position/./open", "/position/open", "position", "open", uuid);
    TwoPlainSegments("position", "open");
    StraightOpen();
    assert Unslashed("/position/open") == "position" + "/" + "open";
    PlainWrite("/position/open", uuid);
  }

  lemma StraightOpen()
    ensures StartsWith("/position/open", "/") && HasWriteFragment("/position/open")
  {
    var path := "/position/open";
    assert Lower(path) == path && path == WRITE_PATH_FRAGMENTS[0];
    assert OccursAt(Lower(path), WRITE_PATH_FRAGMENTS[0], 0);
  }

  lemma DotSegmentPasses()
    ensures !HasWriteFragment("/position/./open") && StartsWith("/position/./open", "/")
  {
    var path := "/position/./open";
    assert Lower(path) == path;
    forall k, i | 0 <= k < |WRITE_PATH_FRAGMENTS| && 0 <= i <= |path|
      ensures !OccursAt(path, WRITE_PATH_FRAGMENTS[k], i)
    {
      NotInDotOpen(k, i);
    }
  }

  lemma NotInDotOpen(k: nat, i: nat)
    requires k < |WRITE_PATH_FRAGMENTS|
    ensures !OccursAt("/position/./open", WRITE_PATH_FRAGMENTS[k], i)
  {
    var path, f := "/position/./open", WRITE_PATH_FRAGMENTS[k];
    if i + |f| <= |path| {
      var there := path[i..i + |f|];
      assert there[0] == path[i] && there[1] == path[i + 1];
      if |f| > 10 {
        assert there[9] == path[i + 9] && there[10] == path[i + 10];
        assert (there[0], there[1], there[9], there[10]) != (f[0], f[1], f[9], f[10]);
      } else {
        assert (there[0], there[1]) != (f[0], f[1]);
      }
    }
  }
}
