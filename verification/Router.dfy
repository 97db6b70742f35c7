/** Routing by the service part of a path, over a table whose order of iteration is arbitrary. */
module Router {
  import opened Wire

  function KeyOf(name: string): string {
    "/" + name
  }

  /** The test the search makes for one key. */
  predicate Matches(key: string, path: string) {
    key <= path && |key| < |path| && path[|key|] == '/'
  }

  class Router<S> {
    var routes: map<string, S>
    var fallback: Option<S>
    ghost var registered: seq<(string, S)>

    /** The table is what the registrations so far have made of it. */
    ghost predicate Valid()
      reads this
    {
      routes == RoutesOf(registered)
    }

    constructor ()
      ensures Valid() && registered == [] && fallback == None
    {
      routes := map[];
      fallback := None;
      registered := [];
    }

    method AddService(name: string, service: S)
      requires Valid()
      modifies this
      ensures Valid() && registered == old(registered) + [(name, service)] && fallback == old(fallback)
      ensures routes == old(routes)[KeyOf(name) := service]
    {
      routes := routes[KeyOf(name) := service];
      registered := registered + [(name, service)];
      assert registered[..|registered| - 1] == old(registered);
    }

    method SetFallback(service: S)
      modifies this
      ensures fallback == Some(service) && routes == old(routes) && registered == old(registered)
    {
      fallback := Some(service);
    }

    /** Some service whose key matches, keys tried in any order; none only if none does. */
    method Route(path: string) returns (found: Option<S>)
      ensures IsRoute(routes, path, found)
    {
      var keys := routes.Keys;
      while keys != {}
        invariant keys <= routes.Keys
        invariant forall key :: key in routes && key !in keys ==> !Matches(key, path)
      {
        var key :| key in keys;
        if Matches(key, path) {
          return Some(routes[key]);
        }
        keys := keys - {key};
      }
      found := None;
    }

    /**
     * The service that answers; none stands for the unimplemented status. With slash-free names it is the
     * one registered last under the service part of the path.
     */
    method Call(path: string) returns (answering: Option<S>)
      requires Valid()
      ensures exists found :: IsRoute(routes, path, found) && answering == if found.Some? then found else fallback
      ensures (forall i :: 0 <= i < |registered| ==> '/' !in registered[i].0) ==>
                var found := LastForPath(registered, path);
                answering == if found.Some? then found else fallback
    {
      answering := Route(path);
      if forall i :: 0 <= i < |registered| ==> '/' !in registered[i].0 {
        RouteIsLastRegistered(registered, path, answering);
      }
      if answering.None? {
        answering := fallback;
      }
    }
  }

  ghost predicate IsRoute<S>(routes: map<string, S>, path: string, found: Option<S>) {
    match found
    case Some(service) => exists key :: key in routes && Matches(key, path) && routes[key] == service
    case None => forall key :: key in routes ==> !Matches(key, path)
  }

  // ---- What the search amounts to --------------------------------------------------------------------

  /** The table after registering services one after the other. */
  function RoutesOf<S>(services: seq<(string, S)>): map<string, S> {
    if services == [] then map[]
    else RoutesOf(services[..|services| - 1])[KeyOf(services[|services| - 1].0) := services[|services| - 1].1]
  }

  /** The service registered last under a name. */
  function LastUnder<S>(services: seq<(string, S)>, name: string): Option<S> {
    if services == [] then None
    else if services[|services| - 1].0 == name then Some(services[|services| - 1].1)
    else LastUnder(services[..|services| - 1], name)
  }

  function LastForPath<S>(services: seq<(string, S)>, path: string): Option<S> {
    if ServiceOf(path).Some? then LastUnder(services, ServiceOf(path).value) else None
  }

  lemma {:induction false} RegisteredLast<S>(services: seq<(string, S)>, name: string)
    ensures var routes := RoutesOf(services);
            LastUnder(services, name) == if KeyOf(name) in routes then Some(routes[KeyOf(name)]) else None
    ensures forall key :: key in RoutesOf(services) ==> exists i :: 0 <= i < |services| && key == KeyOf(services[i].0)
  {
    if services != [] {
      var init, last := services[..|services| - 1], services[|services| - 1];
      RegisteredLast(init, name);
      SameKeySameName(last.0, name);
      forall key | key in RoutesOf(services)
        ensures exists i :: 0 <= i < |services| && key == KeyOf(services[i].0)
      {
        if key == KeyOf(last.0) {
          assert key == KeyOf(services[|services| - 1].0);
        } else {
          var i :| 0 <= i < |init| && key == KeyOf(init[i].0);
          assert key == KeyOf(services[i].0);
        }
      }
    }
  }

  lemma SameKeySameName(a: string, b: string)
    ensures KeyOf(a) == KeyOf(b) <==> a == b
  {
    assert KeyOf(a)[1..] == a && KeyOf(b)[1..] == b;
  }

  /** The text before the first slash, if there is a slash. */
  function UpToSlash(s: string): Option<string> {
    if s == "" then None
    else if s[0] == '/' then Some("")
    else match UpToSlash(s[1..])
      case None => None
      case Some(rest) => Some([s[0]] + rest)
  }

  /** The text between the first two slashes of a path that starts with one. */
  function ServiceOf(path: string): Option<string> {
    if path == "" || path[0] != '/' then None else UpToSlash(path[1..])
  }

  lemma {:induction false} UpToSlashIs(name: string, s: string)
    requires '/' !in name
    ensures UpToSlash(s) == Some(name) <==> Matches(name, s)
  {
    if name != "" && s != "" && s[0] == name[0] {
      assert name[0] in name;
      UpToSlashIs(name[1..], s[1..]);
      assert name == [name[0]] + name[1..];
      assert name <= s <==> name[1..] <= s[1..];
    } else if name != "" && s != "" && UpToSlash(s).Some? {
      assert name[0] in name;
      assert UpToSlash(s) == Some("") || UpToSlash(s).value[0] == s[0];
    }
  }

  lemma KeyMatchesService(name: string, path: string)
    requires '/' !in name
    ensures Matches(KeyOf(name), path) <==> ServiceOf(path) == Some(name)
  {
    var key := KeyOf(name);
    if path != "" && path[0] == '/' {
      UpToSlashIs(name, path[1..]);
      assert key[1..] == name;
      assert key <= path <==> name <= path[1..];
      assert |name| < |path[1..]| ==> path[1..][|name|] == path[|key|];
    } else if path != "" {
      assert key[0] == '/';
    }
  }

  /** With slash-free names a route is the service registered last under the service part of the path. */
  lemma RouteIsLastRegistered<S>(services: seq<(string, S)>, path: string, found: Option<S>)
    requires forall i :: 0 <= i < |services| ==> '/' !in services[i].0
    requires IsRoute(RoutesOf(services), path, found)
    ensures found == LastForPath(services, path)
  {
    var routes := RoutesOf(services);
    forall key | key in routes && Matches(key, path)
      ensures ServiceOf(path).Some? && key == KeyOf(ServiceOf(path).value)
    {
      RegisteredLast(services, "");
      var i :| 0 <= i < |services| && key == KeyOf(services[i].0);
      KeyMatchesService(services[i].0, path);
    }
    if ServiceOf(path).Some? {
      var name := ServiceOf(path).value;
      RegisteredLast(services, name);
      UpToSlashHasNone(path[1..]);
      KeyMatchesService(name, path);
    }
  }

  lemma {:induction false} UpToSlashHasNone(s: string)
    ensures UpToSlash(s).Some? ==> '/' !in UpToSlash(s).value
  {
    if s != "" {
      UpToSlashHasNone(s[1..]);
    }
  }

  // ---- When the order of iteration matters -------------------------------------------------------------

  ghost predicate OnePerPath(names: set<string>) {
    forall path, a, b :: a in names && b in names && Matches(KeyOf(a), path) && Matches(KeyOf(b), path) ==> a == b
  }

  /** No path matches two names exactly when no name goes on after another one and a slash. */
  lemma AtMostOneMatch(names: set<string>)
    ensures OnePerPath(names) <==> forall a, b :: a in names && b in names ==> !(a + "/" <= b)
  {
    if a, b :| a in names && b in names && a + "/" <= b {
      var path := KeyOf(b) + "/";
      assert Matches(KeyOf(b), path);
      assert path[|KeyOf(a)|] == (a + "/")[|a|];
      assert Matches(KeyOf(a), path);
      assert a != b;
    } else {
      forall path, a, b | a in names && b in names && Matches(KeyOf(a), path) && Matches(KeyOf(b), path)
        ensures a == b
      {
        SameKeySameName(a, b);
        if |a| <= |b| {
          BothMatch(a, b, path);
        } else {
          BothMatch(b, a, path);
        }
      }
    }
  }

  lemma BothMatch(a: string, b: string, path: string)
    requires Matches(KeyOf(a), path) && Matches(KeyOf(b), path) && |a| <= |b|
    ensures a == b || a + "/" <= b
  {
    assert path[1..][..|a|] == a && path[1..][..|b|] == b;
    if |a| < |b| {
      assert b[..|a|] == a && b[|a|] == '/';
      assert a + "/" == b[..|a| + 1];
    }
  }
}
