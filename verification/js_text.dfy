/**
 * The JavaScript string operations the compiler script relies on, with the
 * semantics ECMAScript gives them: `includes`, `indexOf`, `replace` with a
 * non-global pattern, `split` on a one-character separator, `join`, `trim`,
 * and the character classes `\s` and `\w` of regular expressions.
 * Strings are sequences of Unicode scalar values; case mapping is ASCII only.
 */
module JsText {
  import opened Prelude

  /** LineTerminator: LF, CR, LINE SEPARATOR, PARAGRAPH SEPARATOR. */
  predicate IsLineTerminator(c: char) {
    c == '\n' || c == '\r' || c as int == 0x2028 || c as int == 0x2029
  }

  /** The class `\s`, which is also what `String.prototype.trim` removes. */
  predicate IsSpace(c: char) {
    || IsLineTerminator(c)
    || c == '\t' || c == ' ' || c as int == 0x0B || c as int == 0x0C
    || c as int == 0xA0 || c as int == 0x1680 || (0x2000 <= c as int <= 0x200A)
    || c as int == 0x202F || c as int == 0x205F || c as int == 0x3000 || c as int == 0xFEFF
  }

  /** The class `\w`. */
  predicate IsWordChar(c: char) {
    ('a' <= c <= 'z') || ('A' <= c <= 'Z') || ('0' <= c <= '9') || c == '_'
  }

  predicate AllSpace(s: string) {
    forall k :: 0 <= k < |s| ==> IsSpace(s[k])
  }

  predicate AllWordChars(s: string) {
    forall k :: 0 <= k < |s| ==> IsWordChar(s[k])
  }

  predicate NoLineTerminator(s: string) {
    forall k :: 0 <= k < |s| ==> !IsLineTerminator(s[k])
  }

  /** `t` occurs in `s` starting at index `i`. */
  predicate OccursAt(s: string, t: string, i: nat) {
    i + |t| <= |s| && s[i..i + |t|] == t
  }

  /** `s.includes(t)`. */
  predicate Contains(s: string, t: string) {
    exists i: nat :: i <= |s| && OccursAt(s, t, i)
  }

  predicate EndsWith(s: string, t: string) {
    |t| <= |s| && s[|s| - |t|..] == t
  }

  /** The first occurrence of `t` in `s` at or after `from`. */
  function IndexOfFrom(s: string, t: string, from: nat): (r: Option<nat>)
    ensures r.Some? ==> from <= r.value && OccursAt(s, t, r.value)
    ensures r.Some? ==> forall j: nat :: from <= j < r.value ==> !OccursAt(s, t, j)
    ensures r.None? ==> forall j: nat :: from <= j ==> !OccursAt(s, t, j)
    decreases |s| - from
  {
    if from + |t| > |s| then None
    else if s[from..from + |t|] == t then Some(from)
    else IndexOfFrom(s, t, from + 1)
  }

  /** `s.indexOf(t)`, with `None` for JavaScript's -1. */
  function IndexOf(s: string, t: string): (r: Option<nat>)
    ensures r.None? <==> !Contains(s, t)
    ensures r.Some? ==> OccursAt(s, t, r.value) && forall j: nat :: j < r.value ==> !OccursAt(s, t, j)
  {
    IndexOfFrom(s, t, 0)
  }

  /**
   * `s.replace(pat, rep)` where `pat` is a plain string or a regular
   * expression without flags matching exactly `pat`: only the leftmost
   * occurrence is replaced.
   */
  function ReplaceFirst(s: string, pat: string, rep: string): (r: string)
    ensures !Contains(s, pat) ==> r == s
    ensures Contains(s, pat) ==>
      exists i: nat :: && OccursAt(s, pat, i)
                       && (forall j: nat :: j < i ==> !OccursAt(s, pat, j))
                       && r == s[..i] + rep + s[i + |pat|..]
  {
    match IndexOf(s, pat)
    case None => s
    case Some(i) => s[..i] + rep + s[i + |pat|..]
  }

  /** `parts.join(sep)`. */
  function Join(parts: seq<string>, sep: string): string
    decreases |parts|
  {
    if |parts| == 0 then ""
    else if |parts| == 1 then parts[0]
    else parts[0] + sep + Join(parts[1..], sep)
  }

  /** The first index of `c` in `s`. */
  function FirstIndexOfChar(s: string, c: char): (i: nat)
    requires c in s
    ensures i < |s| && s[i] == c && c !in s[..i]
  {
    if s[0] == c then 0 else 1 + FirstIndexOfChar(s[1..], c)
  }

  /**
   * `s.split(sep)` for a one-character separator: the pieces between
   * separators, at least one, none holding the separator, which joined
   * with it give back `s`.
   */
  function Split(s: string, sep: char): (parts: seq<string>)
    ensures |parts| >= 1
    ensures forall k :: 0 <= k < |parts| ==> sep !in parts[k]
    ensures Join(parts, [sep]) == s
    decreases |s|
  {
    if sep !in s then [s]
    else
      var i := FirstIndexOfChar(s, sep);
      var rest := Split(s[i + 1..], sep);
      assert s == s[..i] + [sep] + s[i + 1..];
      [s[..i]] + rest
  }

  /** Splitting undoes joining when no piece holds the separator. */
  lemma {:induction false} SplitJoin(parts: seq<string>, sep: char)
    requires |parts| >= 1
    requires forall k :: 0 <= k < |parts| ==> sep !in parts[k]
    ensures Split(Join(parts, [sep]), sep) == parts
    decreases |parts|
  {
    if |parts| > 1 {
      var s := Join(parts, [sep]);
      var rest := Join(parts[1..], [sep]);
      assert s == parts[0] + [sep] + rest;
      assert s[..|parts[0]|] == parts[0];
      assert sep in s by { assert s[|parts[0]|] == sep; }
      var i := FirstIndexOfChar(s, sep);
      assert i == |parts[0]|;
      assert s[i + 1..] == rest;
      SplitJoin(parts[1..], sep);
    }
  }

  /** A first piece without the separator is split off as it is. */
  lemma SplitCons(a: string, b: string, sep: char)
    requires sep !in a
    ensures Split(a, sep) == [a]
    ensures Split(a + [sep] + b, sep) == [a] + Split(b, sep)
  {
    var s := a + [sep] + b;
    assert s[|a|] == sep;
    var i := FirstIndexOfChar(s, sep);
    assert s[..|a|] == a;
    assert i == |a|;
    assert s[i + 1..] == b;
  }

  /** `xs.map(f)` for a function that cannot throw. */
  function MapAll(xs: seq<string>, f: string -> string): seq<string> {
    seq(|xs|, i requires 0 <= i < |xs| => f(xs[i]))
  }

  /** Mapping over a list with a first element maps that element first. */
  lemma MapCons(f: string -> string, a: string, rest: seq<string>)
    ensures MapAll([a] + rest, f) == [f(a)] + MapAll(rest, f)
  {
  }

  /** `xs.filter(p)`: the elements satisfying `p`, in order. */
  function Filter(xs: seq<string>, p: string -> bool): (r: seq<string>)
    ensures forall x :: x in r <==> x in xs && p(x)
    decreases |xs|
  {
    if |xs| == 0 then []
    else (if p(xs[0]) then [xs[0]] else []) + Filter(xs[1..], p)
  }

  /** Filtering works element by element, so it distributes over concatenation. */
  lemma {:induction false} FilterAppend(a: seq<string>, b: seq<string>, p: string -> bool)
    ensures Filter(a + b, p) == Filter(a, p) + Filter(b, p)
    decreases |a|
  {
    if |a| > 0 {
      assert (a + b)[0] == a[0] && (a + b)[1..] == a[1..] + b;
      FilterAppend(a[1..], b, p);
    } else {
      assert a + b == b;
    }
  }

  /** When every element satisfies the predicate, all are kept. */
  lemma {:induction false} FilterAll(xs: seq<string>, p: string -> bool)
    requires forall i :: 0 <= i < |xs| ==> p(xs[i])
    ensures Filter(xs, p) == xs
    decreases |xs|
  {
    if |xs| > 0 {
      FilterAll(xs[1..], p);
    }
  }

  /** A single element is kept exactly when it satisfies the predicate. */
  lemma FilterOne(x: string, p: string -> bool)
    ensures Filter([x], p) == if p(x) then [x] else []
  {
    assert [x][1..] == [];
  }

  /** Joining distributes over concatenation of non-empty lists. */
  lemma {:induction false} JoinAppend(a: seq<string>, b: seq<string>, sep: string)
    requires |a| >= 1 && |b| >= 1
    ensures Join(a + b, sep) == Join(a, sep) + sep + Join(b, sep)
    decreases |a|
  {
    if |a| == 1 {
      assert a + b == [a[0]] + b;
      assert (a + b)[1..] == b;
    } else {
      assert (a + b)[1..] == a[1..] + b;
      JoinAppend(a[1..], b, sep);
    }
  }

  /** Joining a list with a head is the head, then the separator and the join of the tail when there is one. */
  lemma JoinCons(x: string, xs: seq<string>, sep: string)
    ensures Join([x] + xs, sep) == x + (if |xs| == 0 then "" else sep + Join(xs, sep))
  {
    if |xs| > 0 {
      assert ([x] + xs)[1..] == xs;
    }
  }

  /** The join of three pieces, grouped to the right. */
  lemma JoinThree(a: string, b: string, c: string, sep: string)
    ensures Join([a, b, c], sep) == a + sep + (b + sep + c)
  {
    assert [a, b, c][1..] == [b, c];
    assert [b, c][1..] == [c];
    assert Join([b, c], sep) == b + sep + c;
    assert Join([a, b, c], sep) == a + sep + Join([b, c], sep);
  }

  /** A character in neither the pieces nor the separator is not in their join. */
  lemma {:induction false} JoinExcludes(parts: seq<string>, sep: string, c: char)
    requires c !in sep
    requires forall k :: 0 <= k < |parts| ==> c !in parts[k]
    ensures c !in Join(parts, sep)
    decreases |parts|
  {
    if |parts| > 1 {
      JoinExcludes(parts[1..], sep, c);
    }
  }

  lemma NoLineTerminatorConcat(a: string, b: string)
    requires NoLineTerminator(a) && NoLineTerminator(b)
    ensures NoLineTerminator(a + b)
  {
    forall k | 0 <= k < |a + b| ensures !IsLineTerminator((a + b)[k]) {
      if k >= |a| {
        assert (a + b)[k] == b[k - |a|];
      }
    }
  }

  /** Pieces and a separator on one line join into one line. */
  lemma {:induction false} JoinNoLineTerminator(parts: seq<string>, sep: string)
    requires NoLineTerminator(sep)
    requires forall k :: 0 <= k < |parts| ==> NoLineTerminator(parts[k])
    ensures NoLineTerminator(Join(parts, sep))
    decreases |parts|
  {
    if |parts| > 1 {
      JoinNoLineTerminator(parts[1..], sep);
      NoLineTerminatorConcat(parts[0], sep);
      NoLineTerminatorConcat(parts[0] + sep, Join(parts[1..], sep));
    }
  }

  /** Length of the longest prefix of `t` whose characters all satisfy `p`. */
  function RunLength(t: string, p: char -> bool): (n: nat)
    ensures n <= |t|
    ensures forall k :: 0 <= k < n ==> p(t[k])
    ensures n == |t| || !p(t[n])
  {
    if |t| == 0 || !p(t[0]) then 0 else 1 + RunLength(t[1..], p)
  }

  /** A run that stops inside `a` is not affected by what follows `a`. */
  lemma RunLengthAppend(a: string, b: string, p: char -> bool)
    requires RunLength(a, p) < |a|
    ensures RunLength(a + b, p) == RunLength(a, p)
  {
    var n := RunLength(a, p);
    var m := RunLength(a + b, p);
    assert (a + b)[n] == a[n];
  }

  /** A character in the class extends the run by one. */
  lemma RunLengthCons(c: char, t: string, p: char -> bool)
    requires p(c)
    ensures RunLength([c] + t, p) == 1 + RunLength(t, p)
  {
    assert ([c] + t)[1..] == t;
  }

  /** A run is determined by where the class first fails. */
  lemma {:induction false} RunLengthExact(t: string, n: nat, p: char -> bool)
    requires n <= |t|
    requires forall k :: 0 <= k < n ==> p(t[k])
    requires n == |t| || !p(t[n])
    ensures RunLength(t, p) == n
    decreases n
  {
    if n > 0 {
      assert p(t[0]);
      RunLengthExact(t[1..], n - 1, p);
    }
  }

  /** Length of the longest run of characters satisfying `p` that starts at index `i` of `t`. */
  function RunFrom(t: string, i: nat, p: char -> bool): (n: nat)
    requires i <= |t|
    ensures i + n <= |t|
    decreases |t| - i
  {
    if i == |t| || !p(t[i]) then 0 else 1 + RunFrom(t, i + 1, p)
  }

  /** The run holds characters of the class only, and stops at the end or at a character outside it. */
  lemma {:induction false} RunFromSpec(t: string, i: nat, p: char -> bool)
    requires i <= |t|
    ensures forall k :: i <= k < i + RunFrom(t, i, p) ==> p(t[k])
    ensures i + RunFrom(t, i, p) == |t| || !p(t[i + RunFrom(t, i, p)])
    decreases |t| - i
  {
    if i < |t| && p(t[i]) {
      RunFromSpec(t, i + 1, p);
    }
  }

  /** A run from `i` is determined by where the class first fails. */
  lemma {:induction false} RunFromExact(t: string, i: nat, n: nat, p: char -> bool)
    requires i + n <= |t|
    requires forall k :: i <= k < i + n ==> p(t[k])
    requires i + n == |t| || !p(t[i + n])
    ensures RunFrom(t, i, p) == n
    decreases n
  {
    if n > 0 {
      RunFromExact(t, i + 1, n - 1, p);
    }
  }

  /** Length of the longest suffix of `t` whose characters all satisfy `p`. */
  function TrailingRunLength(t: string, p: char -> bool): (n: nat)
    ensures n <= |t|
    ensures forall k :: |t| - n <= k < |t| ==> p(t[k])
    ensures n == |t| || !p(t[|t| - n - 1])
  {
    if |t| == 0 || !p(t[|t| - 1]) then 0 else 1 + TrailingRunLength(t[..|t| - 1], p)
  }

  /** A suffix run that starts after a character outside the class is exactly the appended part. */
  lemma TrailingRunLengthAppend(a: string, b: string, p: char -> bool)
    requires |a| > 0 && !p(a[|a| - 1])
    requires forall k :: 0 <= k < |b| ==> p(b[k])
    ensures TrailingRunLength(a + b, p) == |b|
  {
    var t := a + b;
    var n := TrailingRunLength(t, p);
    assert t[|t| - |b| - 1] == a[|a| - 1];
  }

  /** `b` occurs in `a + b + c`. */
  lemma ContainsMiddle(a: string, b: string, c: string)
    ensures Contains(a + b + c, b)
  {
    assert OccursAt(a + b + c, b, |a|) by { assert (a + b + c)[|a|..|a| + |b|] == b; }
  }

  /** Removes trailing white space. */
  function TrimEnd(s: string): (r: string)
    ensures r <= s && AllSpace(s[|r|..])
    ensures |r| == 0 || !IsSpace(r[|r| - 1])
  {
    if |s| > 0 && IsSpace(s[|s| - 1]) then
      var r := TrimEnd(s[..|s| - 1]);
      assert s[|r|..] == s[..|s| - 1][|r|..] + [s[|s| - 1]];
      r
    else s
  }

  /** `s.trim()`: the slice of `s` left after removing white space at both ends. */
  function Trim(s: string): (r: string)
    ensures |r| > 0 ==> !IsSpace(r[0]) && !IsSpace(r[|r| - 1])
    ensures exists i: nat :: && OccursAt(s, r, i)
                             && AllSpace(s[..i]) && AllSpace(s[i + |r|..])
  {
    var n := RunLength(s, IsSpace);
    var r := TrimEnd(s[n..]);
    TrimmedAt(s, n, r);
    r
  }

  /** A prefix of what follows the leading white space sits right after it, with the rest of the text after it. */
  lemma TrimmedAt(s: string, n: nat, r: string)
    requires n <= |s| && r <= s[n..]
    requires forall k :: 0 <= k < n ==> IsSpace(s[k])
    requires AllSpace(s[n..][|r|..])
    requires n < |s| ==> !IsSpace(s[n])
    ensures OccursAt(s, r, n) && AllSpace(s[..n]) && AllSpace(s[n + |r|..])
    ensures |r| > 0 ==> !IsSpace(r[0])
  {
    assert s[n..n + |r|] == s[n..][..|r|];
    assert s[n + |r|..] == s[n..][|r|..];
  }

  /** Trimming removes exactly the white-space padding around a core without edge spaces. */
  lemma TrimPadded(a: string, m: string, b: string)
    requires AllSpace(a) && AllSpace(b)
    requires |m| > 0 ==> !IsSpace(m[0]) && !IsSpace(m[|m| - 1])
    ensures Trim(a + m + b) == m
  {
    var s := a + m + b;
    var n := RunLength(s, IsSpace);
    if |m| > 0 {
      assert s[|a|] == m[0];
      assert n == |a|;
      assert s[n..] == m + b;
      TrimEndPadded(m, b);
    } else {
      assert s == a + b;
      assert AllSpace(s);
      assert n == |s|;
      assert s[n..] == [];
    }
  }

  lemma {:induction false} TrimEndPadded(m: string, b: string)
    requires AllSpace(b)
    requires |m| > 0 && !IsSpace(m[|m| - 1])
    ensures TrimEnd(m + b) == m
    decreases |b|
  {
    if |b| > 0 {
      var s := m + b;
      assert s[..|s| - 1] == m + b[..|b| - 1];
      TrimEndPadded(m, b[..|b| - 1]);
    } else {
      assert m + b == m;
    }
  }

  /** ASCII `toUpperCase` of one character. */
  function UpperChar(c: char): char {
    if 'a' <= c <= 'z' then (c as int - 'a' as int + 'A' as int) as char else c
  }

  /** ASCII `toLowerCase` of one character. */
  function LowerChar(c: char): char {
    if 'A' <= c <= 'Z' then (c as int - 'A' as int + 'a' as int) as char else c
  }

  /** `s.toLowerCase()`, ASCII letters only. */
  function Lower(s: string): (r: string)
    ensures |r| == |s|
    ensures forall k :: 0 <= k < |s| ==> r[k] == LowerChar(s[k])
  {
    seq(|s|, k requires 0 <= k < |s| => LowerChar(s[k]))
  }
}
