/** Route lookup: `App.handlers` is searched in registration order for the
    first pattern that matches the request's URI path, and `not_found`
    answers when none does. */
module Routing {
  import opened HttpTypes
  import opened Query
  import opened DefaultHandlers

  /** The regular-expression engine, kept abstract: which pattern texts
      `Regex::new` accepts, and whether a compiled pattern finds a match
      anywhere in a path (`Regex::is_match` searches without anchoring). */
  datatype PatternEngine = PatternEngine(
    compiles: string -> bool,
    isMatch: (string, string) -> bool)

  /** `text` occurs in `s` starting at `i`. */
  predicate OccursAt(s: string, i: nat, text: string)
  {
    i + |text| <= |s| && s[i..i + |text|] == text
  }

  /** `text` occurs somewhere in `s`. */
  predicate Contains(s: string, text: string)
  {
    exists i :: 0 <= i <= |s| && OccursAt(s, i, text)
  }

  predicate IsMetaChar(c: char)
  {
    c in "\\.+*?()|[]{}^$#&-~"
  }

  /** A pattern without metacharacters stands for itself. */
  predicate IsLiteral(p: string)
  {
    forall i :: 0 <= i < |p| ==> !IsMetaChar(p[i])
  }

  /** An instance of the engine for literal patterns: they compile, and an
      unanchored search for them is substring containment. */
  const LiteralEngine: PatternEngine :=
    PatternEngine(p => IsLiteral(p), (p, path) => Contains(path, p))

  /** The position of the first route whose pattern matches `path`. */
  function FirstMatch(engine: PatternEngine, routes: seq<Route>, path: string): (r: Option<nat>)
    ensures r.None? <==> forall j :: 0 <= j < |routes| ==> !engine.isMatch(routes[j].pattern, path)
    ensures r.Some? ==> r.value < |routes| && engine.isMatch(routes[r.value].pattern, path)
    ensures r.Some? ==> forall j :: 0 <= j < r.value ==> !engine.isMatch(routes[j].pattern, path)
  {
    if routes == [] then None
    else if engine.isMatch(routes[0].pattern, path) then Some(0)
    else match FirstMatch(engine, routes[1..], path)
      case None => None
      case Some(i) => Some(i + 1)
  }

  /** The response a request receives: from the first route whose pattern
      matches its path, else from `not_found`. */
  function Dispatch(engine: PatternEngine, routes: seq<Route>, req: Request): (r: Response)
    ensures FirstMatch(engine, routes, Path(req.target)).None? ==> r == NotFound(req) && r.status == 404
  {
    match FirstMatch(engine, routes, Path(req.target))
    case None => NotFound(req)
    case Some(i) => routes[i].handler(req)
  }

  /** The handler that answers is the first one registered whose pattern
      matches; later routes, overlapping or not, are not consulted. */
  lemma {:induction false} DispatchFirst(engine: PatternEngine, routes: seq<Route>, req: Request, i: nat)
    requires i < |routes| && engine.isMatch(routes[i].pattern, Path(req.target))
    requires forall j :: 0 <= j < i ==> !engine.isMatch(routes[j].pattern, Path(req.target))
    ensures Dispatch(engine, routes, req) == routes[i].handler(req)
  {
    var r := FirstMatch(engine, routes, Path(req.target));
    assert r.Some?;
    assert r.value == i by {
      if r.value < i {
      } else if r.value > i {
      }
    }
  }

  /** Registering one more route never changes which route a path that
      already matched is given to; a path that matched nothing now goes to
      the new route if its pattern matches. */
  lemma {:induction false} FirstMatchAppend(engine: PatternEngine, routes: seq<Route>, route: Route, path: string)
    ensures FirstMatch(engine, routes, path).Some? ==>
              FirstMatch(engine, routes + [route], path) == FirstMatch(engine, routes, path)
    ensures FirstMatch(engine, routes, path).None? ==>
              FirstMatch(engine, routes + [route], path) ==
              (if engine.isMatch(route.pattern, path) then Some(|routes|) else None)
  {
    var rs := routes + [route];
    var r := FirstMatch(engine, routes, path);
    var r' := FirstMatch(engine, rs, path);
    assert forall j :: 0 <= j < |routes| ==> rs[j] == routes[j];
    if r.Some? {
      assert r'.Some?;
      if r'.value < r.value {
      } else if r'.value > r.value {
      }
    } else if engine.isMatch(route.pattern, path) {
      assert rs[|routes|] == route;
      assert r'.Some?;
    }
  }

  /** A route whose pattern matches every path hides every route registered
      after it, which is why less specific patterns belong at the end. */
  lemma {:induction false} Shadowed(engine: PatternEngine, routes: seq<Route>, i: nat, req: Request)
    requires i < |routes|
    requires forall path :: engine.isMatch(routes[i].pattern, path)
    ensures FirstMatch(engine, routes, Path(req.target)).Some?
    ensures FirstMatch(engine, routes, Path(req.target)).value <= i
  {
    assert engine.isMatch(routes[i].pattern, Path(req.target));
  }

  /** With literal patterns, the empty pattern occurs in every path, and a
      pattern longer than the path never does. */
  lemma {:induction false} LiteralMatches(p: string, path: string)
    ensures p == "" ==> LiteralEngine.isMatch(p, path)
    ensures |p| > |path| ==> !LiteralEngine.isMatch(p, path)
  {
    if p == "" {
      assert OccursAt(path, 0, p);
    }
  }
}
