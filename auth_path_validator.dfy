/** PathValidator of the authentication service: the route-annotation parser
    `checkPath` (verb and endpoints separated by a comma), the e-mail shape test
    `checkEmail`, and `randomPassword`. */
module AuthPathValidator {
  import opened Wrappers
  import opened Text
  import opened RoutePattern

  /** The verbs `checkPath` accepts. */
  const ValidHttpMethods: seq<string> := ["GET", "POST", "PUT", "PATCH", "DELETE", "HEAD", "OPTIONS"]

  /** Why `checkPath` throws. */
  datatype PathError =
    | RouteRejected(message: string)  // one of the two `Error`s the parser raises itself
    | NoController                    // `endpoints[1]` is undefined and `.trim()` on it raises a TypeError

  /** `checkPath(route)`: `[verb in lower case, path, controller]` read from
      an annotation such as `@POST(/signin-grandline,authenticator)`. */
  function CheckPath(route: string): (r: Result<seq<string>, PathError>)
    ensures r.Ok? ==> |r.value| == 3
  {
    match Exec(route)
    case None =>
      Err(RouteRejected("Error route injection " + route + " is not a correct route injection."))
    case Some(c) =>
      if c.verb !in ValidHttpMethods then
        Err(RouteRejected("Error route injection " + route + " has an invalid HTTP method " + c.verb + "."))
      else
        var endpoints := Split(c.args, ',');
        if |endpoints| < 2 then Err(NoController)
        else Ok([Trim(Lower(c.verb)), Trim(endpoints[0]), Trim(endpoints[1])])
  }

  /** A string whose ends are not white space is its own trim. */
  lemma TrimKeeps(s: string)
    requires s != [] && !IsJsSpace(s[0]) && !IsJsSpace(s[|s| - 1])
    ensures Trim(s) == s
  {
    assert LeadingSpace(s) == 0;
    assert s[0..] == s;
  }

  /** `checkPath` fails with its own error exactly when the pattern occurs
      nowhere in the route, or when the verb of the leftmost occurrence is not an
      HTTP method; it fails with the TypeError when the parentheses hold no comma. */
  lemma {:induction false} CheckPathFailures(route: string)
    ensures (forall c :: !Occurs(route, c)) <==> Exec(route).None?
    ensures Exec(route).None? ==>
      CheckPath(route) == Err(RouteRejected("Error route injection " + route + " is not a correct route injection."))
    ensures Exec(route).Some? && Exec(route).value.verb !in ValidHttpMethods ==>
      CheckPath(route).Err? && CheckPath(route).error.RouteRejected?
    ensures Exec(route).Some? && Exec(route).value.verb in ValidHttpMethods ==>
      (CheckPath(route) == Err(NoController) <==> ',' !in Exec(route).value.args)
    ensures Exec(route).Some? && Exec(route).value.verb in ValidHttpMethods && ',' in Exec(route).value.args ==>
      CheckPath(route).Ok?
  {
    ExecIsLeftmostOccurrence(route);
    if Exec(route).Some? {
      SplitFields(Exec(route).value.args, ',');
    }
  }

  /** On success `checkPath` returns, for the leftmost occurrence of the
      pattern, the verb in lower case, the trimmed text before the first comma
      and the trimmed text between the first and the second comma. */
  lemma {:induction false} CheckPathFields(route: string)
    requires CheckPath(route).Ok?
    ensures Exec(route).Some? && Occurs(route, Exec(route).value)
    ensures
      var c := Exec(route).value;
      var first := IndexOf(c.args, ',');
      var rest := c.args[first + 1..];
      && c.verb in ValidHttpMethods
      && first < |c.args|
      && CheckPath(route).value == [Lower(c.verb), Trim(c.args[..first]), Trim(rest[..IndexOf(rest, ',')])]
  {
    ExecIsLeftmostOccurrence(route);
    CheckPathOk(route);
    var c := Exec(route).value;
    SplitFields(c.args, ',');
    LowerCapitals(c.verb);
  }

  /** The success branch of `checkPath`, read off its definition. */
  lemma CheckPathOk(route: string)
    requires CheckPath(route).Ok?
    ensures Exec(route).Some?
    ensures
      var c := Exec(route).value;
      var endpoints := Split(c.args, ',');
      && c.verb in ValidHttpMethods && |endpoints| >= 2
      && CheckPath(route).value == [Trim(Lower(c.verb)), Trim(endpoints[0]), Trim(endpoints[1])]
  {
  }

  /** The verb `checkPath` returns is one of the seven methods in lower case. */
  lemma CheckPathVerb(route: string)
    requires CheckPath(route).Ok?
    ensures CheckPath(route).value[0] in ["get", "post", "put", "patch", "delete", "head", "options"]
  {
    CheckPathFields(route);
    LowerVerb(Exec(route).value.verb);
  }

  /** Lower-casing a run of capitals leaves no blank at either end. */
  lemma LowerCapitals(v: string)
    requires v != [] && forall k :: 0 <= k < |v| ==> IsUpper(v[k])
    ensures Trim(Lower(v)) == Lower(v)
  {
    TrimKeeps(Lower(v));
  }

  /** The lower-case forms of the accepted verbs. */
  lemma LowerVerb(v: string)
    requires v in ValidHttpMethods
    ensures Lower(v) in ["get", "post", "put", "patch", "delete", "head", "options"]
  {
    if v == "GET" { assert Lower(v) == "get"; }
    else if v == "POST" { assert Lower(v) == "post"; }
    else if v == "PUT" { assert Lower(v) == "put"; }
    else if v == "PATCH" { assert Lower(v) == "patch"; }
    else if v == "DELETE" { assert Lower(v) == "delete"; }
    else if v == "HEAD" { assert Lower(v) == "head"; }
    else { assert Lower(v) == "options"; }
  }

  /** An annotation `@VERB(path,controller)` with an accepted verb and a
      comma-free path and controller without surrounding blanks gives the verb in
      lower case, the path and the controller. */
  lemma {:induction false} CommaRoute(route: string, v: string, path: string, controller: string)
    requires route == "@" + v + "(" + path + "," + controller + ")"
    requires v in ValidHttpMethods
    requires ',' !in path && ')' !in path && ',' !in controller && ')' !in controller
    requires path != [] && !IsJsSpace(path[0]) && !IsJsSpace(path[|path| - 1])
    requires controller != [] && !IsJsSpace(controller[0]) && !IsJsSpace(controller[|controller| - 1])
    ensures CheckPath(route) == Ok([Lower(v), path, controller])
  {
    var args := path + "," + controller;
    assert route == "@" + v + "(" + args + ")";
    CommaArgs(path, controller);
    assert forall k :: 0 <= k < |v| ==> IsUpper(v[k]);
    WholeAnnotation(v, args);
    CheckPathFailures(route);
    CheckPathFields(route);
    TrimKeeps(path);
    TrimKeeps(controller);
  }

  /** The fields of `path,controller` when neither part holds a comma. */
  lemma CommaArgs(path: string, controller: string)
    requires ',' !in path && ')' !in path && ',' !in controller && ')' !in controller
    ensures var args := path + "," + controller;
      && ')' !in args && ',' in args
      && IndexOf(args, ',') == |path|
      && args[..|path|] == path
      && args[|path| + 1..] == controller
      && controller[..IndexOf(controller, ',')] == controller
  {
    var args := path + "," + controller;
    assert args == path + ("," + controller);
    assert args[|path|] == ',';
    IndexOfAbsentPrefix(path, "," + controller, ',');
  }

  /** `CommaRoute` for the verb POST. */
  lemma PostRoute(route: string, path: string, controller: string)
    requires route == "@" + "POST" + "(" + path + "," + controller + ")"
    requires ',' !in path && ')' !in path && ',' !in controller && ')' !in controller
    requires path != [] && !IsJsSpace(path[0]) && !IsJsSpace(path[|path| - 1])
    requires controller != [] && !IsJsSpace(controller[0]) && !IsJsSpace(controller[|controller| - 1])
    ensures CheckPath(route) == Ok(["post", path, controller])
  {
    assert "POST" == ValidHttpMethods[1];
    assert Lower("POST") == "post";
    CommaRoute(route, "POST", path, controller);
  }

  predicate IsLetter(c: char) {
    'a' <= c <= 'z' || 'A' <= c <= 'Z'
  }

  predicate IsDigit(c: char) {
    '0' <= c <= '9'
  }

  /** `[a-zA-Z0-9._-]`, the characters before the `@`. */
  predicate IsLocalChar(c: char) {
    IsLetter(c) || IsDigit(c) || c == '.' || c == '_' || c == '-'
  }

  /** `[a-zA-Z0-9.-]`, the characters of the domain. */
  predicate IsDomainChar(c: char) {
    IsLetter(c) || IsDigit(c) || c == '.' || c == '-'
  }

  /** `t` ends in `.` followed by `n` letters, and what comes before that dot is
      a non-empty run of domain characters. */
  predicate TldSplit(t: string, n: nat) {
    && |t| >= n + 2
    && t[|t| - n - 1] == '.'
    && (forall k :: |t| - n <= k < |t| ==> IsLetter(t[k]))
    && (forall k :: 0 <= k < |t| - n - 1 ==> IsDomainChar(t[k]))
  }

  /** `checkEmail(s)`: the regular expression
      `^[a-zA-Z0-9._-]+@[a-zA-Z0-9.-]+\.[a-zA-Z]{2,4}$`, decided by splitting at
      the first `@` and trying the three lengths of the last label. */
  predicate CheckEmail(s: string)
    ensures CheckEmail(s) ==> |s| >= 6 && IsLocalChar(s[0]) && IsLetter(s[|s| - 1])
  {
    var at := IndexOf(s, '@');
    && 0 < at < |s|
    && (forall k :: 0 <= k < at ==> IsLocalChar(s[k]))
    && var t := s[at + 1..];
       TldSplit(t, 2) || TldSplit(t, 3) || TldSplit(t, 4)
  }

  /** Reference reading of the regular expression: `s` is local part, `@`,
      domain, `.`, and a last label of two to four letters, cut at `at` and `dot`. */
  ghost predicate EmailParts(s: string, at: nat, dot: nat) {
    && 0 < at && at + 1 < dot && dot < |s|
    && 2 <= |s| - dot - 1 <= 4
    && s[at] == '@' && s[dot] == '.'
    && (forall k :: 0 <= k < at ==> IsLocalChar(s[k]))
    && (forall k :: at < k < dot ==> IsDomainChar(s[k]))
    && (forall k :: dot < k < |s| ==> IsLetter(s[k]))
  }

  ghost predicate MatchesEmailPattern(s: string) {
    exists at: nat, dot: nat :: EmailParts(s, at, dot)
  }

  /** `checkEmail` accepts exactly the strings the regular expression describes. */
  lemma CheckEmailIsPattern(s: string)
    ensures CheckEmail(s) <==> MatchesEmailPattern(s)
  {
    if CheckEmail(s) {
      AcceptedHasParts(s);
    }
    if MatchesEmailPattern(s) {
      var at: nat, dot: nat :| EmailParts(s, at, dot);
      PartsAreAccepted(s, at, dot);
    }
  }

  /** An accepted address splits at its first `@` and at the dot before its last label. */
  lemma AcceptedHasParts(s: string)
    requires CheckEmail(s)
    ensures exists dot: nat :: EmailParts(s, IndexOf(s, '@'), dot)
  {
    var at := IndexOf(s, '@');
    var t := s[at + 1..];
    var n := if TldSplit(t, 2) then 2 else if TldSplit(t, 3) then 3 else 4;
    var dot := at + 1 + |t| - n - 1;
    assert forall k :: at < k < dot ==> s[k] == t[k - at - 1];
    assert forall k :: dot < k < |s| ==> s[k] == t[k - at - 1];
    assert EmailParts(s, at, dot);
  }

  /** A string the regular expression describes is accepted. */
  lemma PartsAreAccepted(s: string, at: nat, dot: nat)
    requires EmailParts(s, at, dot)
    ensures CheckEmail(s)
  {
    assert IndexOf(s, '@') == at by {
      assert forall k :: 0 <= k < at ==> s[k] != '@';
    }
    var t := s[at + 1..];
    var n := |s| - dot - 1;
    assert forall k :: 0 <= k < |t| ==> t[k] == s[at + 1 + k];
    assert TldSplit(t, n);
  }

  /** Every address `checkEmail` accepts holds exactly one `@`. */
  lemma CheckEmailOneAt(s: string)
    requires CheckEmail(s)
    ensures multiset(s)['@'] == 1
  {
    var at := IndexOf(s, '@');
    var t := s[at + 1..];
    assert '@' !in t by {
      var n :| 2 <= n <= 4 && TldSplit(t, n);
      assert forall k :: 0 <= k < |t| ==> t[k] != '@';
    }
    assert '@' !in s[..at];
    SingleAt(s[..at], t);
    assert s == s[..at] + "@" + t;
  }

  /** `@` occurs once in a string that has it between two `@`-free parts. */
  lemma SingleAt(a: string, b: string)
    requires '@' !in a && '@' !in b
    ensures multiset(a + "@" + b)['@'] == 1
  {
    assert multiset(a + "@" + b) == multiset(a) + multiset("@") + multiset(b);
  }

  /** The 76 characters `randomPassword` draws from. */
  const Charset: string := Lowercase + Uppercase + Digits + Symbols
  const Lowercase: string := "abcdefghijklmnopqrstuvwxyz"
  const Uppercase: string := "ABCDEFGHIJKLMNOPQRSTUVWXYZ"
  const Digits: string := "0123456789"
  const Symbols: string := "!@#$%^&*()-_=+"

  /** The password made from the random indices `draws`, one character each. */
  function Drawn(draws: seq<nat>): (p: string)
    requires forall i :: 0 <= i < |draws| ==> draws[i] < |Charset|
    ensures |p| == |draws|
    ensures forall c :: c in p ==> c in Charset
  {
    seq(|draws|, i requires 0 <= i < |draws| => Charset[draws[i]])
  }

  /** `randomPassword(length)`: the random source `Math.floor(Math.random() *
      charset.length)` is the sequence `draws` of indices into the charset. */
  method RandomPassword(length: nat, draws: seq<nat>) returns (password: string)
    requires |draws| == length
    requires forall i :: 0 <= i < |draws| ==> draws[i] < |Charset|
    ensures |password| == length
    ensures forall i :: 0 <= i < length ==> password[i] == Charset[draws[i]]
    ensures password == Drawn(draws)
  {
    password := "";
    for i := 0 to length
      invariant |password| == i
      invariant forall k :: 0 <= k < i ==> password[k] == Charset[draws[k]]
    {
      var randomIndex := draws[i];
      password := password + [Charset[randomIndex]];
    }
  }

  /** The charset holds printable ASCII only, from '!' to '~'. */
  lemma CharsetPrintable()
    ensures forall c :: c in Charset ==> '!' <= c <= '~'
  {
    LowercaseRange();
    UppercaseRange();
    DigitsRange();
    SymbolsRange();
  }

  lemma LowercaseRange() ensures forall c :: c in Lowercase ==> 'a' <= c <= 'z' {}
  lemma UppercaseRange() ensures forall c :: c in Uppercase ==> 'A' <= c <= 'Z' {}
  lemma DigitsRange() ensures forall c :: c in Digits ==> '0' <= c <= '9' {}
  lemma SymbolsRange() ensures forall c :: c in Symbols ==> '!' <= c <= '~' {}

  /** Every charset character is printable ASCII, so a drawn password is its
      own trim and its UTF-16 length is its number of characters. */
  lemma DrawnIsPlain(draws: seq<nat>)
    requires forall i :: 0 <= i < |draws| ==> draws[i] < |Charset|
    ensures Trim(Drawn(draws)) == Drawn(draws)
    ensures Utf16Length(Drawn(draws)) == |draws|
  {
    var p := Drawn(draws);
    CharsetPrintable();
    assert forall k :: 0 <= k < |p| ==> p[k] in Charset;
    if p != [] {
      TrimKeeps(p);
    }
  }

  /** A well-formed address is accepted. */
  lemma AcceptedEmail(s: string)
    requires s == "luffy@grandline.com"
    ensures CheckEmail(s)
  {
    assert EmailParts(s, 5, 15);
    CheckEmailIsPattern(s);
  }

  /** An address whose last five characters hold no dot is refused: the
      last label would be longer than four letters. */
  lemma NoDotNearEnd(s: string)
    requires |s| >= 5 && s[|s| - 3] != '.' && s[|s| - 4] != '.' && s[|s| - 5] != '.'
    ensures !CheckEmail(s)
  {
    var at := IndexOf(s, '@');
    if 0 < at < |s| {
      var t := s[at + 1..];
      assert |t| >= 4 ==> t[|t| - 3] == s[|s| - 3];
      assert |t| >= 5 ==> t[|t| - 4] == s[|s| - 4];
      assert |t| >= 6 ==> t[|t| - 5] == s[|s| - 5];
    }
  }

  /** The address `luffy@grandline.example` is refused. */
  lemma RefusedLongLabel(s: string)
    requires s == "luffy@grandline.example"
    ensures !CheckEmail(s)
  {
    NoDotNearEnd(s);
  }

}
