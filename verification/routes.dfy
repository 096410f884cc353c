/** The location strings of the history route plugin: reading the instance id
    out of the hash of the history route, the link to another instance's
    history, and the hash rewrite of the view-toggle button on the runtime
    diagram, which sends the browser from the runtime view to the history
    route. */
module Routes {
  import opened Optional
  import opened Strings

  /** What the route looks for in the hash; the id follows it. */
  const HistoryMarker: string := "/history/process-instance/"
  /** The hash prefix of the runtime instance view. */
  const RuntimePrefix: string := "#/process-instance"
  /** The hash prefix of the history route this plugin registers. */
  const HistoryPrefix: string := "#/history/process-instance"
  /** The path segment the toggle replaces by a single `/`. */
  const RuntimeSegment: string := "/runtime"

  /** The instance id in the location hash: the text after the first
      `/history/process-instance/` up to the next `/`, cut at the first `?`.
      No id, and so no fetch and no render, when the marker is missing or
      that text is empty. */
  function ExtractInstanceId(hash: string): (r: Option<string>)
    ensures (forall k: nat :: !OccursAt(hash, HistoryMarker, k)) ==> r.None?
    ensures forall k: nat :: FirstOccurrence(hash, HistoryMarker, k) ==>
              var rest := hash[k + |HistoryMarker|..];
              && (r.Some? <==> rest != [] && rest[0] != '/' && rest[0] != '?')
              && (r.Some? ==> r.value <= rest)
              && (r.Some? && |r.value| < |rest| ==> rest[|r.value|] == '/' || rest[|r.value|] == '?')
    ensures r.Some? ==> r.value != [] && '/' !in r.value && '?' !in r.value
  {
    match FindFirst(hash, HistoryMarker)
    case None => None
    case Some(k) =>
      var segment := TakeUntil(hash[k + |HistoryMarker|..], '/');
      var id := TakeUntil(segment, '?');
      if id == [] then None else Some(id)
  }

  /** The route reads `window?.location?.hash ?? ''`: a missing hash reads as
      the empty string, which holds no id. */
  function RouteInstanceId(hash: Option<string>): (r: Option<string>)
    ensures hash.None? ==> r.None?
    ensures hash.Some? ==> r == ExtractInstanceId(hash.value)
  {
    ExtractInstanceId(hash.GetOr(""))
  }

  /** The link the information panel renders for a super-process instance. */
  function HistoryLink(id: string): string {
    HistoryPrefix + "/" + id
  }

  /** Following a history link lands on the history route of the same
      instance, whatever path segment or query follows the id. */
  lemma HistoryLinkRoundTrip(id: string, tail: string)
    requires id != [] && '/' !in id && '?' !in id
    requires tail == [] || tail[0] == '/' || tail[0] == '?'
    ensures ExtractInstanceId(HistoryLink(id) + tail) == Some(id)
  {
    var h := HistoryLink(id) + tail;
    assert h == "#" + HistoryMarker + (id + tail);
    assert h[1..1 + |HistoryMarker|] == HistoryMarker;
    assert h[0] == '#';
    assert FirstOccurrence(h, HistoryMarker, 1);
    var rest := h[1 + |HistoryMarker|..];
    assert rest == id + tail;
    var r := ExtractInstanceId(h);
    DelimitedPrefix(rest, id, tail, r.value);
  }

  /** A history link for an id without `/` or `?` parses back to that id. */
  lemma HistoryLinkParses(id: string)
    ensures id != [] && '/' !in id && '?' !in id ==> ExtractInstanceId(HistoryLink(id)) == Some(id)
  {
    if id != [] && '/' !in id && '?' !in id {
      assert HistoryLink(id) + [] == HistoryLink(id);
      HistoryLinkRoundTrip(id, []);
    }
  }

  /** The longest prefix free of `/` and `?` is the id that a delimiter ends. */
  lemma DelimitedPrefix(rest: string, id: string, tail: string, v: string)
    requires rest == id + tail
    requires '/' !in id && '?' !in id
    requires tail == [] || tail[0] == '/' || tail[0] == '?'
    requires v <= rest && '/' !in v && '?' !in v
    requires |v| < |rest| ==> rest[|v|] == '/' || rest[|v|] == '?'
    ensures v == id
  {
    assert forall i :: 0 <= i < |id| ==> rest[i] == id[i];
    assert |id| < |rest| ==> rest[|id|] == tail[0];
  }

  /** The toggle's rewrite of the hash: cut at the first `?`, turn a leading
      `#/process-instance` into `#/history/process-instance`, then turn the
      first `/runtime` into `/`. No query survives, a runtime-view hash
      becomes a history-route hash, and a hash with neither a leading
      `#/process-instance` nor a `/runtime` keeps its path unchanged. */
  function RewriteHash(hash: string): (r: string)
    ensures '?' !in r
    ensures RuntimePrefix <= hash ==> HistoryPrefix <= r
    ensures !(RuntimePrefix <= hash) && (forall k: nat :: !OccursAt(TakeUntil(hash, '?'), RuntimeSegment, k)) ==>
              r == TakeUntil(hash, '?')
  {
    var path := TakeUntil(hash, '?');
    var routed := ReplacePrefix(path, RuntimePrefix, HistoryPrefix);
    ReplaceFirstKeepsOut(routed, RuntimeSegment, "/", '?');
    RewriteKeepsHistoryPrefix(hash);
    ReplaceFirstReplacesLeftmost(routed, RuntimeSegment, "/");
    ReplaceFirst(routed, RuntimeSegment, "/")
  }

  /** The leading rewrite survives the `/runtime` replacement, because no
      `/runtime` can start inside `#/history/process-instance`. */
  lemma RewriteKeepsHistoryPrefix(hash: string)
    ensures RuntimePrefix <= hash ==>
              HistoryPrefix <= ReplaceFirst(ReplacePrefix(TakeUntil(hash, '?'), RuntimePrefix, HistoryPrefix), RuntimeSegment, "/")
  {
    if !(RuntimePrefix <= hash) {
      return;
    }
    var path := TakeUntil(hash, '?');
    assert hash == RuntimePrefix + hash[|RuntimePrefix|..];
    TakeUntilAppend(RuntimePrefix, hash[|RuntimePrefix|..], '?');
    var routed := ReplacePrefix(path, RuntimePrefix, HistoryPrefix);
    var tail := path[|RuntimePrefix|..];
    assert routed == HistoryPrefix + tail;
    forall j: nat | j < |HistoryPrefix| ensures !OccursAt(routed, RuntimeSegment, j) {
      NoRuntimeSegmentInHistoryPrefix(tail, j);
    }
    ReplaceFirstAfter(routed, RuntimeSegment, "/", |HistoryPrefix|);
    assert routed[..|HistoryPrefix|] == HistoryPrefix;
  }

  /** `window.location.href` assignment of the toggle: nothing happens when
      the toggle turns off; turning it on navigates to the part of `href`
      before its first `#` followed by the rewritten hash. */
  function ToggleTarget(value: bool, href: string, hash: string): (r: Option<string>)
    ensures r.None? <==> !value
    ensures r.Some? ==>
              var cut := |TakeUntil(href, '#')|;
              && cut <= |r.value|
              && r.value[..cut] <= href
              && '#' !in r.value[..cut]
              && (cut < |href| ==> href[cut] == '#')
              && r.value[cut..] == RewriteHash(hash)
  {
    if value then Some(TakeUntil(href, '#') + RewriteHash(hash)) else None
  }

  /** `/runtime` cannot start inside `#/history/process-instance`: its only
      slashes are followed by `h` and `p`. */
  lemma NoRuntimeSegmentInHistoryPrefix(tail: string, j: nat)
    requires j < |HistoryPrefix|
    ensures !OccursAt(HistoryPrefix + tail, RuntimeSegment, j)
  {
    var s := HistoryPrefix + tail;
    if j + 1 < |HistoryPrefix| {
      assert s[j] == HistoryPrefix[j] && s[j + 1] == HistoryPrefix[j + 1];
    } else {
      assert s[j] == HistoryPrefix[j];
    }
  }

  /** Right after `#/history/process-instance`, a `/runtime` can only start
      in what follows the id, unless the id itself starts with `runtime`. */
  lemma NoRuntimeSegmentBeforeTail(id: string, tail: string, j: nat)
    requires '/' !in id && !("runtime" <= id)
    requires tail == [] || tail[0] == '/'
    requires j < 1 + |id|
    ensures !OccursAt("/" + id + tail, RuntimeSegment, j)
  {
    var s := "/" + id + tail;
    if j == 0 {
      if |id| >= 7 {
        assert s[1..8] == id[..7];
      } else {
        assert s[1 + |id|..] == tail;
        assert s[..1 + |id|] == "/" + id;
      }
    } else {
      assert s[j] == id[j - 1];
    }
  }

  /** Replacing `/runtime` by `/` in a path that is empty or starts with `/`
      gives a path that is empty or starts with `/`. */
  lemma ReplaceRuntimeKeepsLeadingSlash(path: string)
    requires path == [] || path[0] == '/'
    ensures var r := ReplaceFirst(path, RuntimeSegment, "/"); r == [] || r[0] == '/'
  {
  }

  /** On a history-route path, the `/runtime` replacement only touches what
      follows the id. */
  lemma ReplaceRuntimeAfterId(id: string, t1: string)
    requires '/' !in id && !("runtime" <= id)
    requires t1 == [] || t1[0] == '/'
    ensures ReplaceFirst(HistoryPrefix + "/" + id + t1, RuntimeSegment, "/") ==
            HistoryLink(id) + ReplaceFirst(t1, RuntimeSegment, "/")
  {
    var rest := "/" + id + t1;
    var routed := HistoryPrefix + rest;
    assert routed == HistoryPrefix + "/" + id + t1;
    var m := |HistoryPrefix| + 1 + |id|;
    forall j: nat | j < m ensures !OccursAt(routed, RuntimeSegment, j) {
      if j < |HistoryPrefix| {
        NoRuntimeSegmentInHistoryPrefix(rest, j);
      } else {
        assert routed[|HistoryPrefix|..] == rest;
        OccursInSuffix(routed, RuntimeSegment, |HistoryPrefix|, j - |HistoryPrefix|);
        NoRuntimeSegmentBeforeTail(id, t1, j - |HistoryPrefix|);
      }
    }
    ReplaceFirstAfter(routed, RuntimeSegment, "/", m);
    assert routed[..m] == HistoryLink(id);
    assert routed[m..] == t1;
  }

  /** The toggle on the runtime view of an instance: the hash becomes the
      history route of the same id, followed by the query-free rest of the
      hash with its first `/runtime` turned into `/`. */
  lemma RewriteRuntimeHash(id: string, tail: string)
    requires '/' !in id && '?' !in id && !("runtime" <= id)
    requires tail == [] || tail[0] == '/' || tail[0] == '?'
    ensures RewriteHash(RuntimePrefix + "/" + id + tail) ==
            HistoryLink(id) + ReplaceFirst(TakeUntil(tail, '?'), RuntimeSegment, "/")
  {
    var t1 := TakeUntil(tail, '?');
    RuntimeHashRouted(id, tail);
    QueryFreeTail(tail);
    ReplaceRuntimeAfterId(id, t1);
  }

  /** The first two steps of the toggle on a runtime-view hash. */
  lemma RuntimeHashRouted(id: string, tail: string)
    requires '?' !in id
    ensures ReplacePrefix(TakeUntil(RuntimePrefix + "/" + id + tail, '?'), RuntimePrefix, HistoryPrefix) ==
            HistoryPrefix + "/" + id + TakeUntil(tail, '?')
  {
    assert '?' !in RuntimePrefix;
    TakeUntilThenReplacePrefix(RuntimePrefix, HistoryPrefix, "/", id, tail, '?');
  }

  /** Cutting a tail that starts with `/` or `?` at its first `?` leaves a
      path that is empty or starts with `/`. */
  lemma QueryFreeTail(tail: string)
    requires tail == [] || tail[0] == '/' || tail[0] == '?'
    ensures var t1 := TakeUntil(tail, '?'); t1 == [] || t1[0] == '/'
  {
    var t1 := TakeUntil(tail, '?');
    if t1 != [] {
      assert t1[0] == tail[0] && t1[0] in t1;
    }
  }

  /** The toggle on a hash that is already the history route of an instance
      keeps the route, drops the query and only turns the first `/runtime`
      after the id into `/`. */
  lemma RewriteHistoryHash(id: string, tail: string)
    requires '/' !in id && '?' !in id && !("runtime" <= id)
    requires tail == [] || tail[0] == '/' || tail[0] == '?'
    ensures RewriteHash(HistoryLink(id) + tail) ==
            HistoryLink(id) + ReplaceFirst(TakeUntil(tail, '?'), RuntimeSegment, "/")
  {
    var t1 := TakeUntil(tail, '?');
    var path := HistoryLink(id) + t1;
    assert TakeUntil(HistoryLink(id) + tail, '?') == path by {
      assert '?' !in HistoryPrefix;
      TakeUntilAppend(HistoryLink(id), tail, '?');
    }
    assert ReplacePrefix(path, RuntimePrefix, HistoryPrefix) == path by {
      assert path[2] == HistoryPrefix[2] != RuntimePrefix[2];
    }
    assert path == HistoryPrefix + "/" + id + t1;
    QueryFreeTail(tail);
    ReplaceRuntimeAfterId(id, t1);
  }

  /** From the runtime view of an instance, `#/process-instance/<id>...`, the
      toggle lands on the history route of the same instance, provided the
      id does not itself start with `runtime` (the unanchored `/runtime`
      replacement would then cut into the id). */
  lemma ToggleLandsOnHistoryRoute(id: string, tail: string)
    requires id != [] && '/' !in id && '?' !in id
    requires !("runtime" <= id)
    requires tail == [] || tail[0] == '/' || tail[0] == '?'
    ensures ExtractInstanceId(RewriteHash(RuntimePrefix + "/" + id + tail)) == Some(id)
  {
    var t1 := TakeUntil(tail, '?');
    RewriteRuntimeHash(id, tail);
    ReplaceRuntimeKeepsLeadingSlash(t1);
    HistoryLinkRoundTrip(id, ReplaceFirst(t1, RuntimeSegment, "/"));
  }
}
