/** The route-annotation pattern `@([A-Z]+)\(([^)]+)\)` that both services'
    PathValidator.checkPath run with `RegExp.prototype.exec`, written out as a
    matcher, together with a reference definition of what a match is. */
module RoutePattern {
  import opened Wrappers

  /** One match: where it starts, the capitals after `@` (group 1, the HTTP verb) and the text
      inside the parentheses (group 2). */
  datatype Captures = Captures(at: nat, verb: string, args: string)

  predicate IsUpper(c: char) {
    'A' <= c <= 'Z'
  }

  /** Length of the run of capitals starting at index `i`. */
  function UpperRun(s: string, i: nat): (n: nat)
    requires i <= |s|
    ensures i + n <= |s|
    ensures forall k :: i <= k < i + n ==> IsUpper(s[k])
    ensures i + n < |s| ==> !IsUpper(s[i + n])
    decreases |s| - i
  {
    if i < |s| && IsUpper(s[i]) then 1 + UpperRun(s, i + 1) else 0
  }

  /** Index of the first `)` at or after `i`, or `|s|` when there is none. */
  function CloseFrom(s: string, i: nat): (k: nat)
    requires i <= |s|
    ensures i <= k <= |s|
    ensures forall j :: i <= j < k ==> s[j] != ')'
    ensures k < |s| ==> s[k] == ')'
    decreases |s| - i
  {
    if i == |s| || s[i] == ')' then i else CloseFrom(s, i + 1)
  }

  /** The pattern tried at index `i` alone. `[A-Z]+` is followed by `(`, which is
      no capital, so the backtracking matcher can only succeed with the whole run
      of capitals; likewise `[^)]+` can only end right before the first `)`. */
  function MatchAt(s: string, i: nat): Option<Captures>
    requires i <= |s|
  {
    if i < |s| && s[i] == '@' then
      var n := UpperRun(s, i + 1);
      var j := i + 1 + n;
      if n > 0 && j < |s| && s[j] == '(' then
        var k := CloseFrom(s, j + 1);
        if j + 1 < k < |s| then Some(Captures(i, s[i + 1..j], s[j + 1..k])) else None
      else None
    else None
  }

  /** Reference definition: `c` is an occurrence of the pattern in `s`, i.e. `s`
      reads `"@" + verb + "(" + args + ")"` from index `c.at` on, with a non-empty
      verb of capitals and non-empty args free of `)`. */
  ghost predicate Occurs(s: string, c: Captures) {
    var open, close := c.at + 1 + |c.verb|, c.at + 2 + |c.verb| + |c.args|;
    && |c.verb| > 0
    && (forall k :: 0 <= k < |c.verb| ==> IsUpper(c.verb[k]))
    && |c.args| > 0
    && ')' !in c.args
    && close < |s|
    && s[c.at] == '@'
    && s[c.at + 1..open] == c.verb
    && s[open] == '('
    && s[open + 1..close] == c.args
    && s[close] == ')'
  }

  /** At a fixed index the matcher answers exactly the occurrences there: it is
      sound, and no other choice of groups matches at that index. */
  lemma MatchAtIsOccurrence(s: string, c: Captures)
    requires c.at <= |s|
    ensures MatchAt(s, c.at) == Some(c) <==> Occurs(s, c)
  {
    if Occurs(s, c) {
      OccurrenceIsMatched(s, c);
    }
  }

  /** Completeness half of MatchAtIsOccurrence. */
  lemma OccurrenceIsMatched(s: string, c: Captures)
    requires Occurs(s, c)
    ensures MatchAt(s, c.at) == Some(c)
  {
    var i, m, a := c.at, |c.verb|, |c.args|;
    RunIsExact(s, i + 1, c.verb);
    CloseIsExact(s, i + 2 + m, c.args);
  }

  /** `v`, a run of capitals, sits at index `i` and is followed by a non-capital. */
  lemma RunIsExact(s: string, i: nat, v: string)
    requires i + |v| < |s| && !IsUpper(s[i + |v|])
    requires s[i..i + |v|] == v
    requires forall k :: 0 <= k < |v| ==> IsUpper(v[k])
    ensures UpperRun(s, i) == |v|
  {
    assert forall k :: i <= k < i + |v| ==> s[k] == v[k - i];
  }

  /** `a`, free of `)`, sits at index `i` and is followed by `)`. */
  lemma CloseIsExact(s: string, i: nat, a: string)
    requires i + |a| < |s| && s[i + |a|] == ')'
    requires s[i..i + |a|] == a && ')' !in a
    ensures CloseFrom(s, i) == i + |a|
  {
    assert forall k :: i <= k < i + |a| ==> s[k] == a[k - i];
  }

  /** `regex.exec(s)` searching from index `i` on: the first index that matches. */
  function SearchFrom(s: string, i: nat): (r: Option<Captures>)
    requires i <= |s|
    ensures r.Some? ==> i <= r.value.at <= |s| && MatchAt(s, r.value.at) == r
    ensures r.Some? ==> forall j :: i <= j < r.value.at ==> MatchAt(s, j).None?
    ensures r.None? ==> forall j :: i <= j <= |s| ==> MatchAt(s, j).None?
    decreases |s| - i
  {
    if i == |s| then None
    else match MatchAt(s, i)
      case Some(c) => Some(c)
      case None => SearchFrom(s, i + 1)
  }

  /** `regex.exec(s)`: the leftmost match, or none. */
  function Exec(s: string): (r: Option<Captures>)
    ensures r.Some? ==> r.value.at <= |s| && MatchAt(s, r.value.at) == r
    ensures r.Some? ==> forall j :: 0 <= j < r.value.at ==> MatchAt(s, j).None?
    ensures r.None? <==> forall j :: 0 <= j <= |s| ==> MatchAt(s, j).None?
  {
    SearchFrom(s, 0)
  }

  /** `exec` finds a match exactly when the pattern occurs, and then it reports
      the leftmost occurrence. */
  lemma ExecIsLeftmostOccurrence(s: string)
    ensures Exec(s).Some? ==> Occurs(s, Exec(s).value)
    ensures Exec(s).Some? ==> forall c :: Occurs(s, c) ==> Exec(s).value.at <= c.at
    ensures Exec(s).None? <==> forall c :: !Occurs(s, c)
  {
    forall c | Occurs(s, c)
      ensures MatchAt(s, c.at) == Some(c)
    {
      MatchAtIsOccurrence(s, c);
    }
    if Exec(s).Some? {
      MatchAtIsOccurrence(s, Exec(s).value);
    }
  }

  /** An occurrence at the very start of the string is the one `exec` reports. */
  lemma ExecAtStart(s: string, c: Captures)
    requires Occurs(s, c) && c.at == 0
    ensures Exec(s) == Some(c)
  {
    ExecIsLeftmostOccurrence(s);
    MatchAtIsOccurrence(s, c);
  }

  /** A route that is nothing but one annotation matches from its first character. */
  lemma WholeAnnotation(v: string, a: string)
    requires |v| > 0 && (forall k :: 0 <= k < |v| ==> IsUpper(v[k]))
    requires |a| > 0 && ')' !in a
    ensures Exec("@" + v + "(" + a + ")") == Some(Captures(0, v, a))
  {
    var s := "@" + v + "(" + a + ")";
    var c := Captures(0, v, a);
    assert s[1..1 + |v|] == v;
    assert s[2 + |v|..2 + |v| + |a|] == a;
    ExecAtStart(s, c);
  }
}
