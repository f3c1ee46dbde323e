/** PathValidator of the container-info service: `checkPath` reads an
    annotation such as `@GET(/users.controller)` whose path and controller are
    separated by a dot, and returns `[verb, path, controller]`. */
module ContainerPathValidator {
  import opened Wrappers
  import opened Text
  import opened RoutePattern

  /** `checkPath(route)`. The verb is kept as written, no list of HTTP methods is
      consulted; the result is built by joining the three parts with dots and
      splitting that string again. */
  function CheckPath(route: string): (r: Result<seq<string>, string>)
    ensures r.Err? <==> Exec(route).None?
    ensures r.Ok? ==> |r.value| == 3 && r.value[0] == Exec(route).value.verb
  {
    match Exec(route)
    case None =>
      Err("Error route injection " + route + " is not correct route injection failed")
    case Some(c) =>
      var endpoints := Split(c.args, '.');
      var path := endpoints[0];
      var controller := if |endpoints| >= 2 then endpoints[1] else "";
      var result := c.verb + "." + path + "." + controller;
      // The verb is a run of capitals and split pieces hold no dot, so the
      // joined string splits back into exactly its three parts.
      ExecIsLeftmostOccurrence(route);
      VerbHasNoDot(c, route);
      SplitJoins(c.args, '.');
      SplitFields(c.args, '.');
      assert '.' !in path && '.' !in controller;
      SplitThree(c.verb, path, controller, '.');
      assert result == c.verb + ['.'] + path + ['.'] + controller;
      Ok(Split(result, '.'))
  }

  /** A run of capitals holds no dot. */
  lemma VerbHasNoDot(c: Captures, s: string)
    requires Occurs(s, c)
    ensures '.' !in c.verb
  {
    assert forall k :: 0 <= k < |c.verb| ==> c.verb[k] != '.';
  }

  /** `checkPath` fails, with the message naming the route, exactly when the
      pattern occurs nowhere; otherwise it returns exactly three strings: the
      verb of the leftmost occurrence unchanged, the text before the first dot
      inside the parentheses, and the text between the first and the second
      dot, or `""` when there is no dot. Further dot-separated parts are dropped. */
  lemma {:induction false} CheckPathMeaning(route: string)
    ensures CheckPath(route).Err? <==> forall c :: !Occurs(route, c)
    ensures CheckPath(route).Err? ==>
      CheckPath(route).error == "Error route injection " + route + " is not correct route injection failed"
    ensures CheckPath(route).Ok? ==>
      var c := Exec(route).value;
      var first := IndexOf(c.args, '.');
      var rest := if first < |c.args| then c.args[first + 1..] else "";
      && Occurs(route, c)
      && CheckPath(route).value == [c.verb, c.args[..first], rest[..IndexOf(rest, '.')]]
  {
    ExecIsLeftmostOccurrence(route);
    if Exec(route).Some? {
      var c := Exec(route).value;
      var endpoints := Split(c.args, '.');
      SplitFields(c.args, '.');
      SplitJoins(c.args, '.');
      VerbHasNoDot(c, route);
      var path := endpoints[0];
      var controller := if |endpoints| >= 2 then endpoints[1] else "";
      assert '.' !in path;
      assert '.' !in controller;
      SplitThree(c.verb, path, controller, '.');
      assert c.verb + "." + path + "." + controller == c.verb + ['.'] + path + ['.'] + controller;
    }
  }

  /** An annotation `@VERB(path.controller)` with a dot-free path and
      controller is read back into exactly those three parts. */
  lemma {:induction false} DottedRoute(v: string, path: string, controller: string)
    requires |v| > 0 && forall k :: 0 <= k < |v| ==> IsUpper(v[k])
    requires '.' !in path && ')' !in path && '.' !in controller && ')' !in controller
    ensures CheckPath("@" + v + "(" + path + "." + controller + ")") == Ok([v, path, controller])
  {
    var args := path + "." + controller;
    assert "@" + v + "(" + args + ")" == "@" + v + "(" + path + "." + controller + ")";
    DottedArgs(path, controller);
    WholeAnnotation(v, args);
    CheckPathMeaning("@" + v + "(" + args + ")");
  }

  /** The fields of `path.controller` when neither part holds a dot. */
  lemma DottedArgs(path: string, controller: string)
    requires '.' !in path && ')' !in path && '.' !in controller && ')' !in controller
    ensures var args := path + "." + controller;
      && ')' !in args
      && IndexOf(args, '.') == |path|
      && args[..|path|] == path
      && args[|path| + 1..] == controller
      && controller[..IndexOf(controller, '.')] == controller
  {
    var args := path + "." + controller;
    assert args == path + ("." + controller);
    IndexOfAbsentPrefix(path, "." + controller, '.');
  }

  /** The unit tests' route `@GET(/users.controller)` gives `GET`, `/users`
      and `controller`. */
  lemma UsersRoute()
    ensures CheckPath("@GET(/users.controller)") == Ok(["GET", "/users", "controller"])
  {
    var v, path, controller := "GET", "/users", "controller";
    assert "@GET(/users.controller)" == "@" + v + "(" + path + "." + controller + ")";
    DottedRoute(v, path, controller);
  }

  /** The unit tests' route `@GET(/mockroute.controller)` gives `GET` first
      and `/mockroute` second. */
  lemma MockRoute()
    ensures CheckPath("@GET(/mockroute.controller)") == Ok(["GET", "/mockroute", "controller"])
  {
    var v, path, controller := "GET", "/mockroute", "controller";
    assert "@GET(/mockroute.controller)" == "@" + v + "(" + path + "." + controller + ")";
    DottedRoute(v, path, controller);
  }

  /** `@INVALID(/invalid.route)` is accepted: `INVALID` is a run of capitals
      and no list of verbs is consulted, so nothing is thrown. */
  lemma InvalidVerbRoute()
    ensures CheckPath("@INVALID(/invalid.route)") == Ok(["INVALID", "/invalid", "route"])
  {
    var v, path, controller := "INVALID", "/invalid", "route";
    assert "@INVALID(/invalid.route)" == "@" + v + "(" + path + "." + controller + ")";
    DottedRoute(v, path, controller);
  }
}
