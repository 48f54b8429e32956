/**
 * The legacy dispatcher of router.js: `get_dir` picks the first non-empty
 * `/`-separated segment of the pathname (or `home`), and `route` calls the
 * handler looked up under that segment with the full pathname, answering 404
 * when there is no callable handler or when the handler returns a falsy value.
 */
module Router {
  import opened Splitting

  const HOME := "home"

  /** The parts that `get_dir`'s `forEach` pushes: those that are not empty. */
  function NonEmpty(parts: seq<string>): (kept: seq<string>)
    ensures |kept| <= |parts|
    ensures forall i :: 0 <= i < |kept| ==> kept[i] != "" && kept[i] in parts
  {
    if |parts| == 0 then []
    else
      var last := parts[|parts| - 1];
      NonEmpty(parts[..|parts| - 1]) + (if last != "" then [last] else [])
  }

  lemma {:induction false} NonEmptyConcat(a: seq<string>, b: seq<string>)
    ensures NonEmpty(a + b) == NonEmpty(a) + NonEmpty(b)
    decreases |b|
  {
    if |b| > 0 {
      assert (a + b)[..|a + b| - 1] == a + b[..|b| - 1];
      NonEmptyConcat(a, b[..|b| - 1]);
    } else {
      assert a + b == a;
    }
  }

  /** The segment `get_dir` returns. */
  function Dir(path: string): (dir: string)
    ensures dir != "" && '/' !in dir
  {
    var segments := NonEmpty(Split(path, '/'));
    if |segments| == 0 then HOME else segments[0]
  }

  /** `get_dir`: split on `/`, push the non-empty parts, fall back to `home`. */
  method GetDir(pathString: string) returns (dir: string)
    ensures dir == Dir(pathString)
  {
    var pathTmp := Split(pathString, '/');
    var pathArray: seq<string> := [];
    for i := 0 to |pathTmp|
      invariant pathArray == NonEmpty(pathTmp[..i])
    {
      assert pathTmp[..i + 1][..i] == pathTmp[..i];
      if pathTmp[i] != "" {
        pathArray := pathArray + [pathTmp[i]];
      }
    }
    assert pathTmp[..|pathTmp|] == pathTmp;
    if |pathArray| == 0 {
      pathArray := pathArray + [HOME];
    }
    dir := pathArray[0];
  }

  /** A leading slash is skipped, so any run of leading slashes is. */
  lemma DirSkipsLeadingSlash(path: string)
    ensures Dir("/" + path) == Dir(path)
  {
    SplitConcat("", path, '/');
    assert "" + ['/'] + path == "/" + path;
    NonEmptyConcat([""], Split(path, '/'));
    assert NonEmpty([""]) == [];
  }

  /** A path that starts with a segment selects that segment, whatever follows. */
  lemma DirFirstSegment(segment: string, rest: string)
    requires segment != "" && '/' !in segment
    ensures Dir(segment + "/" + rest) == segment
    ensures Dir(segment) == segment
  {
    SplitConcat(segment, rest, '/');
    SplitWithoutSep(segment, '/');
    NonEmptyConcat([segment], Split(rest, '/'));
    assert NonEmpty([segment]) == NonEmpty([]) + [segment];
  }

  /** Every character is a slash (the empty path included). */
  predicate AllSlashes(path: string)
  {
    forall k :: 0 <= k < |path| ==> path[k] == '/'
  }

  /** Dropping a leading slash keeps a path all-slashes or not. */
  lemma AllSlashesTail(path: string)
    requires |path| > 0 && path[0] == '/'
    ensures AllSlashes(path) <==> AllSlashes(path[1..])
  {
    assert forall k :: 1 <= k < |path| ==> path[k] == path[1..][k - 1];
  }

  /** A path that starts with another character has a first segment. */
  lemma LeadingCharGivesSegment(path: string)
    requires |path| > 0 && path[0] != '/'
    ensures NonEmpty(Split(path, '/')) != []
  {
    var rest := Split(path[1..], '/');
    var first := [path[0]] + rest[0];
    assert Split(path, '/') == [first] + rest[1..];
    NonEmptyConcat([first], rest[1..]);
    assert NonEmpty([first]) == NonEmpty([]) + [first];
  }

  /** `home` is the fallback exactly for paths made of slashes only, such as `""` and `"/"`. */
  lemma {:induction false} NoSegmentIffSlashes(path: string)
    ensures NonEmpty(Split(path, '/')) == [] <==> AllSlashes(path)
    decreases |path|
  {
    if |path| > 0 {
      if path[0] == '/' {
        var rest := Split(path[1..], '/');
        NoSegmentIffSlashes(path[1..]);
        assert Split(path, '/') == [""] + rest;
        NonEmptyConcat([""], rest);
        assert NonEmpty([""]) == [];
        AllSlashesTail(path);
      } else {
        LeadingCharGivesSegment(path);
      }
    }
  }

  /** So `get_dir` answers `home` for such paths. */
  lemma SlashesGoHome(path: string)
    requires AllSlashes(path)
    ensures Dir(path) == HOME
  {
    NoSegmentIffSlashes(path);
  }

  /** What the table lookup yields: nothing, a non-function value, or a function. */
  datatype Entry<H> = Missing | NotCallable | Callable(handler: H)

  /** The JavaScript truthiness of a handler's return value, or an exception. */
  datatype Returned = Falsy | Truthy | Threw

  /** One handler call: what it returned and whether it wrote a response. */
  datatype Call = Call(value: Returned, responded: bool)

  /** How `route` ends: a 404, the handler's own answer (if it wrote one), or an exception. */
  datatype Outcome = NotFound | Handled(responded: bool) | Thrown

  /** What `route` makes of a handler call. */
  function AfterCall(call: Call): (o: Outcome)
    ensures o.Handled? <==> call.value == Truthy
    ensures o.Handled? ==> o.responded == call.responded
  {
    match call.value
    case Threw => Thrown
    case Falsy => NotFound
    case Truthy => Handled(call.responded)
  }

  /** `route(handle, pathname, ...)`; `invoke(h, p)` is the call of handler `h` on pathname `p`. */
  function Route<H>(handle: string -> Entry<H>, invoke: (H, string) -> Call, pathname: string): (o: Outcome)
    ensures !handle(Dir(pathname)).Callable? ==> o == NotFound
    ensures o.Handled? ==>
      handle(Dir(pathname)).Callable? &&
      invoke(handle(Dir(pathname)).handler, pathname).value == Truthy &&
      o.responded == invoke(handle(Dir(pathname)).handler, pathname).responded
  {
    var entry := handle(Dir(pathname));
    if entry.Callable? then AfterCall(invoke(entry.handler, pathname)) else NotFound
  }

  /** The 404 answer: no callable handler, or a falsy handler result, and nothing else. */
  lemma RouteNotFoundMeaning<H>(handle: string -> Entry<H>, invoke: (H, string) -> Call, pathname: string)
    ensures Route(handle, invoke, pathname) == NotFound <==>
      !handle(Dir(pathname)).Callable? || invoke(handle(Dir(pathname)).handler, pathname).value == Falsy
    ensures Route(handle, invoke, pathname) == Thrown <==>
      handle(Dir(pathname)).Callable? && invoke(handle(Dir(pathname)).handler, pathname).value == Threw
  {
  }

  /**
   * The handler receives the full pathname, not the segment: the outcome is
   * the handler's call on the pathname itself, so two paths with the same
   * segment differ exactly as the handler's calls on them do.
   */
  lemma RouteCallsWithPathname<H>(handle: string -> Entry<H>, invoke: (H, string) -> Call, p: string, q: string)
    requires Dir(p) == Dir(q) && handle(Dir(p)).Callable?
    ensures Route(handle, invoke, p) == AfterCall(invoke(handle(Dir(p)).handler, p))
    ensures Route(handle, invoke, p) == Route(handle, invoke, q) <==>
      AfterCall(invoke(handle(Dir(p)).handler, p)) == AfterCall(invoke(handle(Dir(p)).handler, q))
  {
  }
}
