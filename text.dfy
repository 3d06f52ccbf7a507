/**
 * The pieces of Rust's string library that the APT source-list code relies on:
 * `starts_with`, `trim_start_matches`, `trim`, `lines`, `replace("\n", ...)`,
 * plus the join that `map(|x| x + " ").collect()` performs.
 * Strings are sequences of Unicode scalar values, as Rust's `char` is.
 */
module Text {

  /** `char::is_whitespace`: the Unicode White_Space property. */
  predicate IsWhitespace(c: char) {
    || c == ' '
    || ('\t' <= c <= '\r')
    || c == '\U{85}' || c == '\U{A0}' || c == '\U{1680}'
    || ('\U{2000}' <= c <= '\U{200A}')
    || c == '\U{2028}' || c == '\U{2029}' || c == '\U{202F}' || c == '\U{205F}'
    || c == '\U{3000}'
  }

  /** `str::starts_with` for a string pattern. */
  predicate StartsWith(s: string, p: string) {
    |p| <= |s| && s[..|p|] == p
  }

  /** `str::ends_with` for a string pattern. */
  predicate EndsWith(s: string, p: string) {
    |p| <= |s| && s[|s| - |p|..] == p
  }

  /** `str::trim_start_matches` with a one-character pattern: drops every leading `c`. */
  function TrimStartMatches(s: string, c: char): (r: string)
    ensures |r| <= |s| && r == s[|s| - |r|..]
    ensures forall i :: 0 <= i < |s| - |r| ==> s[i] == c
    ensures r == [] || r[0] != c
  {
    if s != [] && s[0] == c then TrimStartMatches(s[1..], c) else s
  }

  /** A prefix of `a` is a prefix of `a + b`. */
  lemma StartsWithAppend(a: string, b: string, p: string)
    requires StartsWith(a, p)
    ensures StartsWith(a + b, p)
  {
    assert (a + b)[..|p|] == a[..|p|];
  }

  /** One `c` in front of a string that does not start with `c` is all that is trimmed. */
  lemma TrimStartMatchesOne(c: char, x: string)
    requires x == [] || x[0] != c
    ensures TrimStartMatches([c] + x, c) == x
  {
    assert ([c] + x)[1..] == x;
  }

  /** Leading whitespace removed. */
  function TrimStart(s: string): (r: string)
    ensures |r| <= |s| && r == s[|s| - |r|..]
    ensures forall i :: 0 <= i < |s| - |r| ==> IsWhitespace(s[i])
    ensures r == [] || !IsWhitespace(r[0])
  {
    if s != [] && IsWhitespace(s[0]) then
      var r := TrimStart(s[1..]);
      assert forall i :: 1 <= i < |s| - |r| ==> s[i] == s[1..][i - 1];
      r
    else s
  }

  /** Trailing whitespace removed. */
  function TrimEnd(s: string): (r: string)
    ensures |r| <= |s| && r == s[..|r|]
    ensures forall i :: |r| <= i < |s| ==> IsWhitespace(s[i])
    ensures r == [] || !IsWhitespace(r[|r| - 1])
  {
    if s != [] && IsWhitespace(s[|s| - 1]) then
      var r := TrimEnd(s[..|s| - 1]);
      assert forall i :: |r| <= i < |s| - 1 ==> s[i] == s[..|s| - 1][i];
      r
    else s
  }

  /** `str::trim`: whitespace removed from both ends. */
  function Trim(s: string): (r: string)
    ensures |r| <= |s|
    ensures r == [] || (!IsWhitespace(r[0]) && !IsWhitespace(r[|r| - 1]))
  {
    var t := TrimStart(s);
    var r := TrimEnd(t);
    if r != [] then
      assert r[0] == t[0];
      r
    else r
  }

  /**
   * Trim removes exactly the whitespace padding around a string that has no
   * whitespace at its ends, so its result is determined by that condition.
   */
  lemma TrimPadded(a: string, t: string, b: string)
    requires forall k :: 0 <= k < |a| ==> IsWhitespace(a[k])
    requires forall k :: 0 <= k < |b| ==> IsWhitespace(b[k])
    requires t == [] || (!IsWhitespace(t[0]) && !IsWhitespace(t[|t| - 1]))
    ensures Trim(a + t + b) == t
  {
    AppendAssoc(a, t, b);
    if t == [] {
      assert a + t + b == a + b + [];
      TrimStartPadded(a + b, []);
      assert a + b + [] == a + b;
    } else {
      TrimStartPadded(a, t + b);
      TrimEndPadded(t, b);
    }
  }

  /** Leading whitespace before a string that does not start with whitespace is dropped. */
  lemma {:induction false} TrimStartPadded(a: string, u: string)
    requires forall k :: 0 <= k < |a| ==> IsWhitespace(a[k])
    requires u == [] || !IsWhitespace(u[0])
    ensures TrimStart(a + u) == u
    decreases |a|
  {
    if a == [] {
      assert a + u == u;
    } else {
      assert (a + u)[0] == a[0];
      assert (a + u)[1..] == a[1..] + u;
      TrimStartPadded(a[1..], u);
    }
  }

  /** Trailing whitespace after a string that does not end with whitespace is dropped. */
  lemma {:induction false} TrimEndPadded(u: string, b: string)
    requires forall k :: 0 <= k < |b| ==> IsWhitespace(b[k])
    requires u == [] || !IsWhitespace(u[|u| - 1])
    ensures TrimEnd(u + b) == u
    decreases |b|
  {
    if b == [] {
      assert u + b == u;
    } else {
      assert (u + b)[|u + b| - 1] == b[|b| - 1];
      assert (u + b)[..|u + b| - 1] == u + b[..|b| - 1];
      TrimEndPadded(u, b[..|b| - 1]);
    }
  }

  /** Concatenation is associative. */
  lemma AppendAssoc<T>(a: seq<T>, b: seq<T>, c: seq<T>)
    ensures (a + b) + c == a + (b + c)
  {
  }

  /** `cs.iter().map(|x| x.to_string() + " ").collect::<String>()`. */
  function ConcatSpaced(cs: seq<string>): string {
    if cs == [] then [] else ConcatSpaced(cs[..|cs| - 1]) + cs[|cs| - 1] + " "
  }

  /** The elements of `cs` separated by `sep`, as `slice::join` gives them. */
  function Join(cs: seq<string>, sep: string): string {
    if cs == [] then []
    else if |cs| == 1 then cs[0]
    else Join(cs[..|cs| - 1], sep) + sep + cs[|cs| - 1]
  }

  /** A non-empty join starts with the first element and ends with the last. */
  lemma {:induction false} JoinEnds(cs: seq<string>, sep: string)
    requires |cs| > 0 && forall k :: 0 <= k < |cs| ==> cs[k] != []
    ensures var j := Join(cs, sep);
            |j| >= |cs[0]| && j[..|cs[0]|] == cs[0] && |j| >= |cs[|cs| - 1]|
            && j[|j| - |cs[|cs| - 1]|..] == cs[|cs| - 1]
  {
    if |cs| > 1 {
      var init := cs[..|cs| - 1];
      if |init| == 1 {
        assert Join(init, sep) == cs[0];
      } else {
        JoinEnds(init, sep);
      }
      assert init[0] == cs[0];
    }
  }

  /** Collecting with a trailing space gives the join plus one trailing space. */
  lemma {:induction false} ConcatSpacedIsJoin(cs: seq<string>)
    requires |cs| > 0
    ensures ConcatSpaced(cs) == Join(cs, " ") + " "
  {
    if |cs| > 1 {
      ConcatSpacedIsJoin(cs[..|cs| - 1]);
    } else {
      assert cs[..0] == [];
    }
  }

  /**
   * `components.iter().map(|x| x.to_string() + " ").collect::<String>().trim()`:
   * the flattened components string; it never has whitespace at either end.
   */
  function FlattenComponents(cs: seq<string>): (r: string)
    ensures r == [] || (!IsWhitespace(r[0]) && !IsWhitespace(r[|r| - 1]))
  {
    Trim(ConcatSpaced(cs))
  }

  /**
   * For a non-empty list of non-empty components with no whitespace at their
   * ends, the flattened string is the components joined by single spaces.
   */
  lemma FlattenIsSpaceJoin(cs: seq<string>)
    requires |cs| > 0
    requires forall k :: 0 <= k < |cs| ==>
               cs[k] != [] && !IsWhitespace(cs[k][0]) && !IsWhitespace(cs[k][|cs[k]| - 1])
    ensures FlattenComponents(cs) == Join(cs, " ")
  {
    var j := Join(cs, " ");
    ConcatSpacedIsJoin(cs);
    JoinEnds(cs, " ");
    var last := cs[|cs| - 1];
    assert j[0] == cs[0][0];
    assert j[|j| - 1] == last[|last| - 1];
    TrimPadded([], j, " ");
    assert [] + j + " " == j + " ";
  }

  /** Index of the first `c` in `s`, or `|s|` when there is none. */
  function IndexOf(s: string, c: char): (k: nat)
    ensures k <= |s|
    ensures k < |s| ==> s[k] == c
    ensures forall i :: 0 <= i < k ==> s[i] != c
  {
    if s == [] then 0
    else if s[0] == c then 0
    else 1 + IndexOf(s[1..], c)
  }

  /** Drops one trailing `c`, as `str::strip_suffix` followed by `unwrap_or` does. */
  function StripSuffix(s: string, c: char): (r: string)
    ensures r == s || (s == r + [c])
    ensures |s| > 0 && s[|s| - 1] == c ==> r == s[..|s| - 1]
  {
    if s != [] && s[|s| - 1] == c then s[..|s| - 1] else s
  }

  /**
   * `str::lines`: pieces split after each `\n`; a piece that ended in `\n` loses
   * it and then one `\r` before it; a final empty piece does not count.
   */
  function Lines(s: string): (r: seq<string>)
    ensures forall i :: 0 <= i < |r| ==> '\n' !in r[i]
    decreases |s|
  {
    if s == [] then []
    else
      var k := IndexOf(s, '\n');
      if k == |s| then [s]
      else [StripSuffix(s[..k], '\r')] + Lines(s[k + 1..])
  }

  /** A line ending in `\n`, with no other line break, is one line. */
  lemma LinesOfTerminated(body: string)
    requires '\n' !in body && '\r' !in body
    ensures Lines(body + "\n") == [body]
  {
    var s := body + "\n";
    assert IndexOf(s, '\n') == |body| by {
      assert forall i :: 0 <= i < |body| ==> s[i] == body[i] && body[i] in body;
      assert s[|body|] == '\n';
    }
    assert s[..|body|] == body;
    assert s[|body| + 1..] == [];
  }

  /** A single line with no line break is one line. */
  lemma LinesOfUnterminated(body: string)
    requires body != [] && '\n' !in body
    ensures Lines(body) == [body]
  {
    assert IndexOf(body, '\n') == |body|;
  }

  /** Splitting text that ends with `\n` is compatible with concatenation. */
  lemma {:induction false} LinesAppend(x: string, y: string)
    requires x == [] || x[|x| - 1] == '\n'
    ensures Lines(x + y) == Lines(x) + Lines(y)
    decreases |x|
  {
    if x != [] {
      var k := IndexOf(x, '\n');
      assert k < |x|;
      var s := x + y;
      assert IndexOf(s, '\n') == k by {
        IndexOfPrefix(x, y, '\n');
      }
      assert s[..k] == x[..k];
      assert s[k + 1..] == x[k + 1..] + y;
      var rest := x[k + 1..];
      assert rest == [] || rest[|rest| - 1] == x[|x| - 1];
      LinesAppend(rest, y);
      var head := [StripSuffix(x[..k], '\r')];
      assert Lines(x) == head + Lines(rest);
      assert k < |s| && Lines(s) == head + Lines(rest + y);
      AppendAssoc(head, Lines(rest), Lines(y));
    } else {
      assert x + y == y;
    }
  }

  /** The first `c` of `x + y` is the first `c` of `x` when `x` has one. */
  lemma {:induction false} IndexOfPrefix(x: string, y: string, c: char)
    requires IndexOf(x, c) < |x|
    ensures IndexOf(x + y, c) == IndexOf(x, c)
    decreases |x|
  {
    if x[0] != c {
      assert (x + y)[1..] == x[1..] + y;
      IndexOfPrefix(x[1..], y, c);
    }
  }

  /** Number of occurrences of `c` in `s`. */
  function Count(s: string, c: char): nat {
    if s == [] then 0 else (if s[0] == c then 1 else 0) + Count(s[1..], c)
  }

  /** What each newline becomes: the Rust literal `"\\\\n"`, three characters. */
  const EscapedNewline: string := ['\\', '\\', 'n']

  /**
   * `s.replace("\n", "\\\\n")`: every newline replaced by backslash, backslash, `n`.
   */
  function EscapeNewlines(s: string): (r: string)
    ensures '\n' !in r
    ensures |r| == |s| + 2 * Count(s, '\n')
    ensures '\n' !in s ==> r == s
  {
    if s == [] then []
    else (if s[0] == '\n' then EscapedNewline else [s[0]]) + EscapeNewlines(s[1..])
  }

  /** Reads escaped text back: each backslash, backslash, `n` becomes a newline again. */
  function UnescapeNewlines(s: string): string {
    if s == [] then []
    else if StartsWith(s, EscapedNewline) then "\n" + UnescapeNewlines(s[3..])
    else [s[0]] + UnescapeNewlines(s[1..])
  }

  /** For text without backslashes the escape is undone exactly. */
  lemma {:induction false} EscapeRoundTrip(s: string)
    requires '\\' !in s
    ensures UnescapeNewlines(EscapeNewlines(s)) == s
  {
    if s != [] {
      var rest := EscapeNewlines(s[1..]);
      EscapeRoundTrip(s[1..]);
      if s[0] == '\n' {
        var e := EscapedNewline + rest;
        assert StartsWith(e, EscapedNewline);
        assert e[3..] == rest;
      } else {
        var e := [s[0]] + rest;
        assert s[0] in s;
        assert e[0] == s[0] != '\\';
        if |e| >= 3 {
          assert e[..3][0] == e[0];
        }
        assert !StartsWith(e, EscapedNewline);
        assert e[1..] == rest;
      }
    }
  }

  /** `str::split` on one character: the pieces between the separators, at least one. */
  function Split(s: string, c: char): (r: seq<string>)
    ensures |r| > 0
    ensures forall i :: 0 <= i < |r| ==> c !in r[i]
    decreases |s|
  {
    var k := IndexOf(s, c);
    if k == |s| then [s] else [s[..k]] + Split(s[k + 1..], c)
  }

  /** Splitting at the first separator: a piece without `c`, then the rest. */
  lemma SplitAtFirst(a: string, c: char, b: string)
    requires c !in a
    ensures Split(a + ([c] + b), c) == [a] + Split(b, c)
  {
    var s := a + ([c] + b);
    assert IndexOf(s, c) == |a| by {
      assert forall i :: 0 <= i < |a| ==> s[i] == a[i] && a[i] in a;
      assert s[|a|] == c;
    }
    assert s[..|a|] == a;
    assert s[|a| + 1..] == b;
  }
}
