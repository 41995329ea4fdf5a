/**
 * The error translation of `execute`: when running a request file throws,
 * the thrown message is turned into a hint naming the request file, or
 * rethrown unchanged. The sandbox itself is not modelled; its outcome is an
 * input (the descriptor, or the message of what it threw).
 */
module Diagnostics {
  import opened Prelude
  import opened JsText
  import Packing

  /** What `execute` throws. */
  datatype Diagnosis =
    | MissingExport(requestName: string, original: string)
      // "is not a function": no default export, or not a `Request`
    | MissingImport(requestName: string, symbol: string, original: string)
      // "<symbol> is not defined" for a symbol the requests library exports
    | Unchanged(original: string)
      // anything else is rethrown as it came
    | CaptureFailed(original: string)
      // "is not defined" is present but never after a space, so the capturing
      // regex finds nothing and indexing its `null` result throws a TypeError

  const NotAFunction: string := "is not a function"
  const NotDefined: string := "is not defined"
  const SpaceNotDefined: string := " is not defined"

  /**
   * `(.*) is not defined` matches with capture `s[p..q]`: the match starts at
   * `p`, the leftmost start that works (so no occurrence of the suffix before
   * it, and `p` begins a line because `.` stops at line terminators), and
   * the greedy `.*` runs to the last occurrence `q` still on that line.
   */
  ghost predicate CaptureAt(s: string, p: nat, q: nat) {
    && p <= q
    && OccursAt(s, SpaceNotDefined, q)
    && NoLineTerminator(s[p..q])
    && (p == 0 || IsLineTerminator(s[p - 1]))
    && (forall j: nat :: j < p ==> !OccursAt(s, SpaceNotDefined, j))
    && (forall j: nat :: q < j <= |s| && NoLineTerminator(s[p..j]) ==> !OccursAt(s, SpaceNotDefined, j))
  }

  /** Start of the line holding index `i`. */
  function LineStart(s: string, i: nat): (p: nat)
    requires i <= |s|
    ensures p <= i
    ensures p == 0 || IsLineTerminator(s[p - 1])
    ensures NoLineTerminator(s[p..i])
  {
    if i == 0 || IsLineTerminator(s[i - 1]) then i
    else
      var p := LineStart(s, i - 1);
      assert s[p..i] == s[p..i - 1] + [s[i - 1]];
      p
  }

  /** The last occurrence of the suffix starting in `[low, high]`, given that one starts at `low`. */
  function LastOccurrence(s: string, low: nat, high: nat): (q: nat)
    requires low <= high && OccursAt(s, SpaceNotDefined, low)
    ensures low <= q <= high && OccursAt(s, SpaceNotDefined, q)
    ensures forall j: nat :: q < j <= high ==> !OccursAt(s, SpaceNotDefined, j)
    decreases high - low
  {
    if OccursAt(s, SpaceNotDefined, high) then high else LastOccurrence(s, low, high - 1)
  }

  /** `message.match(/(.*) is not defined/)`, giving the capture. */
  function Capture(s: string): (r: Option<string>)
    ensures r.None? <==> !Contains(s, SpaceNotDefined)
    ensures r.Some? ==> exists p: nat, q: nat :: CaptureAt(s, p, q) && r.value == s[p..q]
  {
    match IndexOf(s, SpaceNotDefined)
    case None => None
    case Some(first) =>
      var p := LineStart(s, first);
      var e := LineEnd(s, p);
      LineExtends(s, p, first, e);
      var q := LastOccurrence(s, first, e - |SpaceNotDefined|);
      CaptureFound(s, first, p, e, q);
      Some(s[p..q])
  }

  /** End of the line that starts at `p`. */
  function LineEnd(s: string, p: nat): (e: nat)
    requires p <= |s|
    ensures p <= e <= |s|
    ensures NoLineTerminator(s[p..e])
    ensures e == |s| || IsLineTerminator(s[e])
  {
    var e := p + RunLength(s[p..], c => !IsLineTerminator(c));
    assert s[p..e] == s[p..][..e - p];
    e
  }

  /** An occurrence reached without crossing a line terminator ends before the line does. */
  lemma LineExtends(s: string, p: nat, j: nat, e: nat)
    requires p <= j && OccursAt(s, SpaceNotDefined, j) && NoLineTerminator(s[p..j])
    requires p <= |s| && e == LineEnd(s, p)
    ensures j + |SpaceNotDefined| <= e
  {
    forall k | p <= k < j
      ensures !IsLineTerminator(s[k])
    {
      assert s[p..j][k - p] == s[k];
    }
    forall k | j <= k < j + |SpaceNotDefined|
      ensures !IsLineTerminator(s[k])
    {
      assert s[k] == SpaceNotDefined[k - j];
    }
  }

  lemma CaptureFound(s: string, first: nat, p: nat, e: nat, q: nat)
    requires OccursAt(s, SpaceNotDefined, first)
    requires forall j: nat :: j < first ==> !OccursAt(s, SpaceNotDefined, j)
    requires p == LineStart(s, first) && e == LineEnd(s, p)
    requires first + |SpaceNotDefined| <= e
    requires q == LastOccurrence(s, first, e - |SpaceNotDefined|)
    ensures CaptureAt(s, p, q)
  {
    LinePrefix(s, p, q, e);
    forall j: nat | q < j <= |s| && NoLineTerminator(s[p..j]) && OccursAt(s, SpaceNotDefined, j)
      ensures false
    {
      LineExtends(s, p, j, e);
    }
  }

  lemma LinePrefix(s: string, p: nat, q: nat, e: nat)
    requires p <= q <= e <= |s| && NoLineTerminator(s[p..e])
    ensures NoLineTerminator(s[p..q])
  {
    forall k | 0 <= k < q - p ensures !IsLineTerminator(s[p..q][k]) {
      assert s[p..q][k] == s[p..e][k];
    }
  }

  /** The capture of a match is determined: there is only one start and one end. */
  lemma CaptureUnique(s: string, p1: nat, q1: nat, p2: nat, q2: nat)
    requires CaptureAt(s, p1, q1) && CaptureAt(s, p2, q2)
    ensures p1 == p2 && q1 == q2
  {
    if p1 < p2 && p2 <= q1 {
      InsideLine(s, p1, q1, p2 - 1);
    }
    if p2 < p1 && p1 <= q2 {
      InsideLine(s, p2, q2, p1 - 1);
    }
  }

  lemma InsideLine(s: string, p: nat, q: nat, r: nat)
    requires p <= r < q <= |s| && NoLineTerminator(s[p..q])
    ensures !IsLineTerminator(s[r])
  {
    assert s[p..q][r - p] == s[r];
  }

  /** The error translation of `execute`, applied to what running the request threw. */
  function Diagnose(message: string, requestName: string, exports: set<string>): Diagnosis {
    if Contains(message, NotAFunction) then MissingExport(requestName, message)
    else if Contains(message, NotDefined) then
      match Capture(message)
      case None => CaptureFailed(message)
      case Some(missing) =>
        if missing in exports then MissingImport(requestName, missing, message) else Unchanged(message)
    else Unchanged(message)
  }

  /** `execute`: the descriptor, or the translated error. */
  function Execute(outcome: Result<Packing.Value, string>, requestName: string, exports: set<string>): (r: Result<Packing.Value, Diagnosis>)
    ensures outcome.Ok? ==> r == Ok(outcome.value)
    ensures outcome.Err? ==> r.Err? && r.error.original == outcome.error
    ensures outcome.Err? ==> r == Err(Diagnose(outcome.error, requestName, exports))
  {
    match outcome
    case Ok(descriptor) => Ok(descriptor)
    case Err(message) => Err(Diagnose(message, requestName, exports))
  }

  /**
   * The classification in both directions: the export hint exactly for
   * "is not a function"; otherwise the import hint exactly when the captured
   * name is a library export; the TypeError exactly when no occurrence
   * follows a space; the original message otherwise.
   */
  lemma DiagnoseSpec(message: string, requestName: string, exports: set<string>)
    ensures var d := Diagnose(message, requestName, exports);
      && d.original == message
      && (d.MissingExport? <==> Contains(message, NotAFunction))
      && (d.MissingImport? <==>
            && !Contains(message, NotAFunction)
            && exists p: nat, q: nat :: CaptureAt(message, p, q) && message[p..q] in exports)
      && (d.MissingImport? ==> exists p: nat, q: nat :: CaptureAt(message, p, q) && d.symbol == message[p..q])
      && (d.CaptureFailed? <==>
            !Contains(message, NotAFunction) && Contains(message, NotDefined) && !Contains(message, SpaceNotDefined))
      && (d.MissingExport? || d.MissingImport? ==> d.requestName == requestName)
  {
    if Contains(message, SpaceNotDefined) {
      SuffixContainsNotDefined(message);
    }
    if !Contains(message, NotAFunction) && exists p: nat, q: nat :: CaptureAt(message, p, q) && message[p..q] in exports {
      var p: nat, q: nat :| CaptureAt(message, p, q) && message[p..q] in exports;
      CaptureIsAt(message, p, q);
    }
  }

  lemma SuffixContainsNotDefined(message: string)
    requires Contains(message, SpaceNotDefined)
    ensures Contains(message, NotDefined)
  {
    var i: nat :| i <= |message| && OccursAt(message, SpaceNotDefined, i);
    assert OccursAt(message, NotDefined, i + 1) by {
      assert message[i + 1..i + 1 + |NotDefined|] == message[i..i + |SpaceNotDefined|][1..];
    }
  }

  /** Whatever capture there is, `Capture` gives it. */
  lemma CaptureIsAt(message: string, p: nat, q: nat)
    requires CaptureAt(message, p, q)
    ensures Capture(message) == Some(message[p..q])
  {
    assert Contains(message, SpaceNotDefined) by { assert OccursAt(message, SpaceNotDefined, q); }
    var x := Capture(message).value;
    var p': nat, q': nat :| CaptureAt(message, p', q') && x == message[p'..q'];
    CaptureUnique(message, p, q, p', q');
  }
}
