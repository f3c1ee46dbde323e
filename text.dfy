/** The JavaScript string primitives the validators and the service rely on:
    `String.prototype.trim`, `.length` (UTF-16 code units), `split` on one
    character and `toLowerCase` on ASCII capitals. */
module Text {

  /** The characters `trim` removes: ECMAScript WhiteSpace and LineTerminator. */
  predicate IsJsSpace(c: char) {
    c == '\t' || c == '\n' || c == '\U{000B}' || c == '\U{000C}' || c == '\r' || c == ' '
    || c == '\U{00A0}' || c == '\U{1680}' || ('\U{2000}' <= c <= '\U{200A}')
    || c == '\U{2028}' || c == '\U{2029}' || c == '\U{202F}' || c == '\U{205F}'
    || c == '\U{3000}' || c == '\U{FEFF}'
  }

  /** Number of leading characters of `s` that `trim` removes. */
  function LeadingSpace(s: string): (n: nat)
    ensures n <= |s|
    ensures forall k :: 0 <= k < n ==> IsJsSpace(s[k])
    ensures n < |s| ==> !IsJsSpace(s[n])
  {
    if s == [] || !IsJsSpace(s[0]) then 0 else 1 + LeadingSpace(s[1..])
  }

  /** Number of trailing characters of `s` that `trim` removes. */
  function TrailingSpace(s: string): (n: nat)
    ensures n <= |s|
    ensures forall k :: |s| - n <= k < |s| ==> IsJsSpace(s[k])
    ensures n < |s| ==> !IsJsSpace(s[|s| - n - 1])
  {
    if s == [] || !IsJsSpace(s[|s| - 1]) then 0 else 1 + TrailingSpace(s[..|s| - 1])
  }

  /** `s.trim()`: the slice of `s` left once leading and trailing white space is gone. */
  function Trim(s: string): (r: string)
    ensures |r| <= |s|
    ensures r == [] || (!IsJsSpace(r[0]) && !IsJsSpace(r[|r| - 1]))
    ensures r == [] ==> forall k :: 0 <= k < |s| ==> IsJsSpace(s[k])
    ensures exists a, b ::
      && 0 <= a <= b <= |s| && r == s[a..b]
      && (forall k :: 0 <= k < a ==> IsJsSpace(s[k]))
      && (forall k :: b <= k < |s| ==> IsJsSpace(s[k]))
  {
    var lead := LeadingSpace(s);
    var rest := s[lead..];
    TrimIsSlice(s, lead, rest);
    rest[..|rest| - TrailingSpace(rest)]
  }

  /** What Trim keeps is a slice of `s` with only white space around it. */
  lemma TrimIsSlice(s: string, lead: nat, rest: string)
    requires lead == LeadingSpace(s) && rest == s[lead..]
    ensures exists a, b ::
      && 0 <= a <= b <= |s| && rest[..|rest| - TrailingSpace(rest)] == s[a..b]
      && (forall k :: 0 <= k < a ==> IsJsSpace(s[k]))
      && (forall k :: b <= k < |s| ==> IsJsSpace(s[k]))
  {
    var t := TrailingSpace(rest);
    var b := lead + |rest| - t;
    assert rest[..|rest| - t] == s[lead..b];
    forall k | b <= k < |s|
      ensures IsJsSpace(s[k])
    {
      assert s[k] == rest[k - lead];
    }
    assert forall k :: 0 <= k < lead ==> IsJsSpace(s[k]);
    assert 0 <= lead <= b <= |s| && rest[..|rest| - t] == s[lead..b];
  }

  /** The number of UTF-16 code units of one character. */
  function Utf16Units(c: char): nat {
    if c as int > 0xFFFF then 2 else 1
  }

  /** `s.length` in JavaScript: UTF-16 code units, not characters. */
  function Utf16Length(s: string): (n: nat)
    ensures |s| <= n <= 2 * |s|
    ensures (forall k :: 0 <= k < |s| ==> s[k] as int <= 0xFFFF) ==> n == |s|
  {
    if s == [] then 0 else Utf16Units(s[0]) + Utf16Length(s[1..])
  }

  /** Index of the first `c` in `s`, or `|s|` when there is none. */
  function IndexOf(s: string, c: char): (i: nat)
    ensures i <= |s|
    ensures forall k :: 0 <= k < i ==> s[k] != c
    ensures i < |s| ==> s[i] == c
  {
    if s == [] then 0 else if s[0] == c then 0 else 1 + IndexOf(s[1..], c)
  }

  /** `s.split(sep)` for a one-character separator: the maximal `sep`-free pieces. */
  function Split(s: string, sep: char): (r: seq<string>)
    decreases |s|
  {
    var i := IndexOf(s, sep);
    if i == |s| then [s] else [s[..i]] + Split(s[i + 1..], sep)
  }

  /** What `split` promises: the pieces contain no separator, and joining them
      back with the separator gives the input. */
  lemma {:induction false} SplitJoins(s: string, sep: char)
    ensures |Split(s, sep)| >= 1
    ensures forall k :: 0 <= k < |Split(s, sep)| ==> sep !in Split(s, sep)[k]
    ensures Join(Split(s, sep), sep) == s
    decreases |s|
  {
    var i := IndexOf(s, sep);
    if i < |s| {
      var tail := Split(s[i + 1..], sep);
      SplitJoins(s[i + 1..], sep);
      assert Split(s, sep) == [s[..i]] + tail;
      assert Join(Split(s, sep), sep) == s[..i] + [sep] + Join(tail, sep);
      assert s == s[..i] + [sep] + s[i + 1..];
    }
  }

  /** The inverse of `Split`: the pieces joined with the separator. */
  function Join(parts: seq<string>, sep: char): string
    requires |parts| >= 1
  {
    if |parts| == 1 then parts[0] else parts[0] + [sep] + Join(parts[1..], sep)
  }

  /** The first piece of `s.split(sep)` is the text before the first separator;
      a second piece exists exactly when `s` holds the separator, and it is the
      text between the first and the second separator (or the end). */
  lemma {:induction false} SplitFields(s: string, sep: char)
    ensures Split(s, sep)[0] == s[..IndexOf(s, sep)]
    ensures |Split(s, sep)| >= 2 <==> sep in s
    ensures sep in s ==>
      var rest := s[IndexOf(s, sep) + 1..];
      Split(s, sep)[1] == rest[..IndexOf(rest, sep)]
  {
    var i := IndexOf(s, sep);
    if i < |s| {
      var rest := s[i + 1..];
      var j := IndexOf(rest, sep);
      if j < |rest| {
        assert Split(rest, sep)[0] == rest[..j];
      }
    } else {
      assert sep !in s;
    }
  }

  /** Splitting three separator-free strings joined by the separator gives
      them back, so the result has exactly three pieces. */
  lemma {:induction false} SplitThree(a: string, b: string, c: string, sep: char)
    requires sep !in a && sep !in b && sep !in c
    ensures Split(a + [sep] + b + [sep] + c, sep) == [a, b, c]
  {
    var s := a + [sep] + b + [sep] + c;
    IndexOfAbsentPrefix(a, [sep] + b + [sep] + c, sep);
    assert s == a + ([sep] + b + [sep] + c);
    assert IndexOf(s, sep) == |a|;
    var t := s[|a| + 1..];
    assert t == b + ([sep] + c);
    IndexOfAbsentPrefix(b, [sep] + c, sep);
    var u := t[|b| + 1..];
    assert u == c;
    assert IndexOf(c, sep) == |c|;
    assert Split(u, sep) == [c];
    assert Split(t, sep) == [b] + [c];
  }

  /** A separator-free prefix is skipped by `IndexOf`. */
  lemma {:induction false} IndexOfAbsentPrefix(a: string, t: string, c: char)
    requires c !in a && t != [] && t[0] == c
    ensures IndexOf(a + t, c) == |a|
  {
    var s := a + t;
    assert s[|a|] == c;
    assert forall k :: 0 <= k < |a| ==> s[k] == a[k];
  }

  /** `toLowerCase` on one character, for the ASCII capitals the route
      annotations use; every other character is left as it is. */
  function LowerAscii(c: char): (r: char)
    ensures 'A' <= c <= 'Z' ==> 'a' <= r <= 'z' && r as int == c as int + 32
    ensures !('A' <= c <= 'Z') ==> r == c
  {
    if 'A' <= c <= 'Z' then (c as int + 32) as char else c
  }

  /** `s.toLowerCase()` restricted to ASCII capitals. */
  function Lower(s: string): (r: string)
    ensures |r| == |s|
    ensures forall k :: 0 <= k < |s| ==> r[k] == LowerAscii(s[k])
  {
    seq(|s|, k requires 0 <= k < |s| => LowerAscii(s[k]))
  }
}
