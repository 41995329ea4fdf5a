/**
 * A text made of lines, each followed by a line feed, where every line is
 * either free of deployment statements or is one whole statement: the scan
 * of `readMigrationArgs` over such a text finds exactly the statements, in
 * order.
 */
module ScriptLines {
  import opened Prelude
  import opened JsText
  import opened Migrations

  // ---------------------------------------------------------------------------
  // Reading a script back, line by line

  /**
   * A script seen as lines, each followed by a line feed: a line where no
   * statement starts, or a whole statement deploying `name` (which may
   * itself span several lines).
   */
  datatype Line = Quiet(text: string) | Deployment(name: string, text: string)

  /**
   * No statement starts in `t`: after its leading white space (which may
   * hold blank lines) comes a character, no line terminator follows, and
   * the call does not start there.
   */
  predicate QuietLine(t: string, call: string) {
    var a := RunFrom(t, 0, IsSpace);
    && a < |t|
    && (forall k :: a <= k < |t| ==> !IsLineTerminator(t[k]))
    && !OccursAt(t, call, a)
  }

  /** White space, then a body on one line that does not start with the call, is a quiet line. */
  lemma QuietOf(lead: string, body: string, call: string)
    requires AllSpace(lead) && |body| > 0 && !IsSpace(body[0])
    requires NoLineTerminator(body) && !OccursAt(body, call, 0)
    ensures QuietLine(lead + body, call)
  {
    var t := lead + body;
    forall k | 0 <= k < |lead| ensures IsSpace(t[k]) {
      assert t[k] == lead[k];
    }
    assert t[|lead|] == body[0];
    RunFromExact(t, 0, |lead|, IsSpace);
    forall k | |lead| <= k < |t| ensures !IsLineTerminator(t[k]) {
      assert t[k] == body[k - |lead|];
    }
    if |lead| + |call| <= |t| {
      assert t[|lead|..|lead| + |call|] == body[0..|call|];
    }
  }

  /** A text that differs from the call at some index does not start with it. */
  lemma DiffersFrom(body: string, call: string, k: nat)
    requires k < |body| && k < |call| && body[k] != call[k]
    ensures !OccursAt(body, call, 0)
  {
    if |call| <= |body| {
      assert body[0..|call|][k] == body[k];
    }
  }

  ghost predicate ValidLine(l: Line, call: string) {
    match l
    case Quiet(t) => QuietLine(t, call)
    case Deployment(name, t) => StatementAt(t, call, 0, |t|, name)
  }

  ghost predicate AllValid(ls: seq<Line>, call: string)
    decreases |ls|
  {
    |ls| == 0 || (ValidLine(ls[0], call) && AllValid(ls[1..], call))
  }

  lemma {:induction false} AllValidAppend(a: seq<Line>, b: seq<Line>, call: string)
    requires AllValid(a, call) && AllValid(b, call)
    ensures AllValid(a + b, call)
    decreases |a|
  {
    if |a| > 0 {
      assert (a + b)[1..] == a[1..] + b;
      AllValidAppend(a[1..], b, call);
    } else {
      assert a + b == b;
    }
  }

  /** Lines each valid on its own are valid together. */
  lemma {:induction false} AllValidEach(ls: seq<Line>, call: string)
    requires forall i :: 0 <= i < |ls| ==> ValidLine(ls[i], call)
    ensures AllValid(ls, call)
    decreases |ls|
  {
    if |ls| > 0 {
      assert forall i :: 0 <= i < |ls| - 1 ==> ls[1..][i] == ls[i + 1];
      AllValidEach(ls[1..], call);
    }
  }

  /** The calls the pattern can be instantiated with: not starting with white space, within one line. */
  predicate CallShape(call: string) {
    |call| > 0 && !IsSpace(call[0]) && '\n' !in call
  }
  function LinesText(ls: seq<Line>): string
    decreases |ls|
  {
    if |ls| == 0 then "" else ls[0].text + "\n" + LinesText(ls[1..])
  }

  /** The statements among the lines, each with the name it deploys. */
  function Found(ls: seq<Line>): seq<(string, string)>
    decreases |ls|
  {
    if |ls| == 0 then []
    else (if ls[0].Deployment? then [(ls[0].name, ls[0].text)] else []) + Found(ls[1..])
  }

  /** Pairs each artifact with its entry. */
  function Zip(names: seq<string>, texts: seq<string>): (r: seq<(string, string)>)
    requires |names| == |texts|
    ensures |r| == |names| && forall i :: 0 <= i < |r| ==> r[i] == (names[i], texts[i])
  {
    seq(|names|, i requires 0 <= i < |names| => (names[i], texts[i]))
  }

  lemma {:induction false} LinesTextAppend(a: seq<Line>, b: seq<Line>)
    ensures LinesText(a + b) == LinesText(a) + LinesText(b)
    decreases |a|
  {
    if |a| > 0 {
      assert (a + b)[1..] == a[1..] + b;
      LinesTextAppend(a[1..], b);
    } else {
      assert a + b == b;
    }
  }

  lemma {:induction false} FoundAppend(a: seq<Line>, b: seq<Line>)
    ensures Found(a + b) == Found(a) + Found(b)
    decreases |a|
  {
    if |a| > 0 {
      assert (a + b)[1..] == a[1..] + b;
      FoundAppend(a[1..], b);
    } else {
      assert a + b == b;
    }
  }

  function Quiets(xs: seq<string>): (r: seq<Line>)
    ensures |r| == |xs| && forall i :: 0 <= i < |r| ==> r[i] == Quiet(xs[i])
  {
    seq(|xs|, i requires 0 <= i < |xs| => Quiet(xs[i]))
  }

  function Deployments(names: seq<string>, texts: seq<string>): (r: seq<Line>)
    requires |names| == |texts|
    ensures |r| == |names| && forall i :: 0 <= i < |r| ==> r[i] == Deployment(names[i], texts[i])
  {
    seq(|names|, i requires 0 <= i < |names| => Deployment(names[i], texts[i]))
  }

  lemma {:induction false} QuietsValid(xs: seq<string>, call: string)
    requires forall i :: 0 <= i < |xs| ==> QuietLine(xs[i], call)
    ensures AllValid(Quiets(xs), call)
    decreases |xs|
  {
    if |xs| > 0 {
      assert Quiets(xs)[1..] == Quiets(xs[1..]);
      QuietsValid(xs[1..], call);
    }
  }

  lemma {:induction false} DeploymentsValid(names: seq<string>, texts: seq<string>, call: string)
    requires |names| == |texts|
    requires forall i :: 0 <= i < |texts| ==> StatementAt(texts[i], call, 0, |texts[i]|, names[i])
    ensures AllValid(Deployments(names, texts), call)
    decreases |names|
  {
    if |names| > 0 {
      assert Deployments(names, texts)[1..] == Deployments(names[1..], texts[1..]);
      DeploymentsValid(names[1..], texts[1..], call);
    }
  }

  /** The text of four runs of lines is their texts in order. */
  lemma LinesTextFour(a: seq<Line>, b: seq<Line>, c: seq<Line>, d: seq<Line>)
    ensures LinesText(a + b + c + d) == LinesText(a) + LinesText(b) + LinesText(c) + LinesText(d)
  {
    LinesTextAppend(a + b + c, d);
    LinesTextAppend(a + b, c);
    LinesTextAppend(a, b);
  }

  /** The statements found in four runs of lines are theirs in order. */
  lemma FoundFour(a: seq<Line>, b: seq<Line>, c: seq<Line>, d: seq<Line>)
    ensures Found(a + b + c + d) == Found(a) + Found(b) + Found(c) + Found(d)
  {
    FoundAppend(a + b + c, d);
    FoundAppend(a + b, c);
    FoundAppend(a, b);
  }

  /** Lines of the same texts, in whatever role, give the lines joined by line feeds. */
  lemma {:induction false} LinesTextJoin(ls: seq<Line>, xs: seq<string>)
    requires |ls| == |xs| >= 1 && forall i :: 0 <= i < |ls| ==> ls[i].text == xs[i]
    ensures LinesText(ls) == Join(xs, "\n") + "\n"
    decreases |ls|
  {
    if |ls| > 1 {
      LinesTextJoin(ls[1..], xs[1..]);
    } else {
      assert LinesText(ls[1..]) == "";
    }
  }

  lemma {:induction false} FoundQuiets(xs: seq<string>)
    ensures Found(Quiets(xs)) == []
    decreases |xs|
  {
    if |xs| > 0 {
      assert Quiets(xs)[1..] == Quiets(xs[1..]);
      FoundQuiets(xs[1..]);
    }
  }

  lemma {:induction false} FoundDeployments(names: seq<string>, texts: seq<string>)
    requires |names| == |texts|
    ensures Found(Deployments(names, texts)) == Zip(names, texts)
    decreases |names|
  {
    if |names| > 0 {
      assert Deployments(names, texts)[1..] == Deployments(names[1..], texts[1..]);
      FoundDeployments(names[1..], texts[1..]);
      assert Zip(names, texts) == [(names[0], texts[0])] + Zip(names[1..], texts[1..]);
    }
  }

  // ---------------------------------------------------------------------------
  // What the scan finds in a text made of such lines

  lemma DeployCallShape()
    ensures CallShape(DeployCall)
  {
  }

  /** Failed attempts leave the next match as it is. */
  lemma {:induction false} NextMatchSkip(attempts: seq<Option<(string, nat)>>, n: nat, i: nat, j: nat)
    requires Attempted(n, attempts) && i <= j <= n
    requires forall p: nat :: i <= p < j ==> attempts[p].None?
    ensures NextMatch(attempts, n, i) == NextMatch(attempts, n, j)
    decreases j - i
  {
    if i < j {
      NextMatchSkip(attempts, n, i + 1, j);
    }
  }

  lemma ScanSkip(s: string, attempts: seq<Option<(string, nat)>>, i: nat, j: nat)
    requires Attempted(|s|, attempts) && i <= j <= |s|
    requires forall p: nat :: i <= p < j ==> attempts[p].None?
    ensures Scan(s, attempts, i) == Scan(s, attempts, j)
  {
    NextMatchSkip(attempts, |s|, i, j);
  }

  /** A match at the index the scan resumes from is collected first. */
  lemma ScanAtMatch(s: string, attempts: seq<Option<(string, nat)>>, from: nat, name: string, e: nat)
    requires Attempted(|s|, attempts) && from <= |s| && attempts[from] == Some((name, e))
    ensures Scan(s, attempts, from) == [(name, s[from..e])] + Scan(s, attempts, e)
  {
    assert NextMatch(attempts, |s|, from) == Some((from, name, e));
  }

  /** A match followed by an index where no line starts is collected, and the scan resumes one further. */
  lemma ScanMatchThenSkip(s: string, attempts: seq<Option<(string, nat)>>, from: nat, name: string, e: nat)
    requires Attempted(|s|, attempts) && from <= |s| && e < |s|
    requires attempts[from] == Some((name, e)) && attempts[e].None?
    ensures Scan(s, attempts, from) == [(name, s[from..e])] + Scan(s, attempts, e + 1)
  {
    ScanAtMatch(s, attempts, from, name, e);
    ScanSkip(s, attempts, e, e + 1);
  }

  lemma ScanEnd(s: string, call: string)
    requires CallShape(call)
    ensures Scan(s, Attempts(s, call), |s|) == []
  {
    AttemptAt(s, call, |s|);
  }

  /** The attempt fails where white space leads to something other than the call. */
  lemma MatchFromNone(s: string, call: string, p: nat, a: nat)
    requires p <= a < |s| && SpaceBetween(s, p, a) && !IsSpace(s[a])
    requires !OccursAt(s, call, a)
    ensures MatchFrom(s, call, p).None?
  {
    SpaceRun(s, p, a);
  }

  /** The text of a line followed by a line feed, at index `from` of `s`. */
  predicate LineAt(s: string, t: string, from: nat) {
    from + |t| < |s| && s[from..from + |t| + 1] == t + "\n"
  }

  lemma LineChar(s: string, t: string, from: nat, k: nat)
    requires LineAt(s, t, from) && k <= |t|
    ensures s[from + k] == (t + "\n")[k]
  {
    assert s[from..from + |t| + 1][k] == s[from + k];
  }

  /** A call found at index `a` of a line in the text lies within the line, or holds a line feed. */
  lemma CallInLine(s: string, from: nat, t: string, a: nat, call: string)
    requires LineAt(s, t, from) && a < |t|
    ensures OccursAt(s, call, from + a) ==> OccursAt(t, call, a) || '\n' in call
  {
    if OccursAt(s, call, from + a) {
      if a + |call| <= |t| {
        forall k | 0 <= k < |call| ensures t[a + k] == call[k] {
          LineChar(s, t, from, a + k);
          assert s[from + a..from + a + |call|][k] == s[from + a + k];
        }
        assert t[a..a + |call|] == call;
      } else {
        var k := |t| - a;
        LineChar(s, t, from, |t|);
        assert s[from + a..from + a + |call|][k] == s[from + |t|];
      }
    }
  }

  /** No attempt inside a quiet line, nor at the line feed ending it, matches. */
  lemma QuietPosition(s: string, call: string, from: nat, t: string, p: nat)
    requires CallShape(call)
    requires LineAt(s, t, from) && QuietLine(t, call)
    requires from <= p <= from + |t|
    ensures MatchAt(s, call, p).None?
  {
    var a := RunFrom(t, 0, IsSpace);
    RunFromSpec(t, 0, IsSpace);
    if p - from <= a {
      if LineStart(s, p) {
        forall q | p <= q < from + a ensures IsSpace(s[q]) {
          LineChar(s, t, from, q - from);
        }
        LineChar(s, t, from, a);
        CallInLine(s, from, t, a, call);
        MatchFromNone(s, call, p, from + a);
      }
    } else {
      LineChar(s, t, from, p - 1 - from);
    }
  }

  lemma QuietNoMatch(s: string, call: string, from: nat, t: string)
    requires CallShape(call)
    requires LineAt(s, t, from) && QuietLine(t, call)
    ensures forall p: nat :: from <= p < from + |t| + 1 ==> MatchAt(s, call, p).None?
  {
    forall p: nat | from <= p < from + |t| + 1 ensures MatchAt(s, call, p).None? {
      QuietPosition(s, call, from, t, p);
    }
  }

  lemma StatementEnd(t: string, call: string, name: string)
    requires StatementAt(t, call, 0, |t|, name)
    ensures |t| > 0 && t[|t| - 1] == ')'
  {
    var a: nat, g: nat :| StatementWith(t, call, 0, |t|, name, a, g);
  }

  lemma LineText(s: string, t: string, from: nat)
    requires LineAt(s, t, from)
    ensures s[from..from + |t|] == t
  {
    assert s[from..from + |t|] == s[from..from + |t| + 1][..|t|];
  }

  /** The pattern tried at the start of a statement's line matches the statement whole. */
  lemma DeploymentMatches(s: string, call: string, from: nat, name: string, t: string)
    requires CallShape(call)
    requires LineAt(s, t, from)
    requires StatementAt(t, call, 0, |t|, name)
    ensures MatchFrom(s, call, from) == Some((name, from + |t|))
  {
    LineText(s, t, from);
    StatementShift(t, call, 0, |t|, s, from, name);
    MatchFromComplete(s, call, from, from + |t|, name);
  }

  /** Right after a statement, which ends with a closing parenthesis, no line starts. */
  lemma AfterDeployment(s: string, call: string, from: nat, name: string, t: string)
    requires LineAt(s, t, from)
    requires StatementAt(t, call, 0, |t|, name)
    ensures MatchAt(s, call, from + |t|).None?
  {
    StatementEnd(t, call, name);
    LineChar(s, t, from, |t| - 1);
  }

  /** What the attempts give on a line at index `from`. */
  predicate LineMatches(s: string, attempts: seq<Option<(string, nat)>>, from: nat, l: Line)
    requires Attempted(|s|, attempts) && from + |l.text| < |s|
  {
    match l
    case Quiet(t) =>
      forall p: nat :: from <= p < from + |t| + 1 ==> attempts[p].None?
    case Deployment(name, t) =>
      && attempts[from] == Some((name, from + |t|))
      && attempts[from + |t|].None?
      && s[from..from + |t|] == t
  }

  lemma QuietFacts(s: string, call: string, from: nat, t: string)
    requires CallShape(call)
    requires LineAt(s, t, from) && QuietLine(t, call)
    ensures forall p: nat :: from <= p < from + |t| + 1 ==> Attempts(s, call)[p].None?
  {
    QuietNoMatch(s, call, from, t);
    forall p: nat | from <= p < from + |t| + 1 ensures Attempts(s, call)[p].None? {
      AttemptAt(s, call, p);
    }
  }

  lemma DeploymentFacts(s: string, call: string, from: nat, name: string, t: string)
    requires CallShape(call)
    requires LineAt(s, t, from) && LineStart(s, from) && StatementAt(t, call, 0, |t|, name)
    ensures Attempts(s, call)[from] == Some((name, from + |t|))
    ensures Attempts(s, call)[from + |t|].None?
    ensures s[from..from + |t|] == t
  {
    DeploymentMatches(s, call, from, name, t);
    AfterDeployment(s, call, from, name, t);
    LineText(s, t, from);
    AttemptAt(s, call, from);
    AttemptAt(s, call, from + |t|);
  }

  /** A valid line at the start of a line gives those attempts. */
  lemma LineFacts(s: string, call: string, from: nat, l: Line)
    requires CallShape(call)
    requires LineAt(s, l.text, from) && LineStart(s, from) && ValidLine(l, call)
    ensures LineMatches(s, Attempts(s, call), from, l)
  {
    match l
    case Quiet(t) => QuietFacts(s, call, from, t);
    case Deployment(name, t) => DeploymentFacts(s, call, from, name, t);
  }

  lemma ScanLine(s: string, attempts: seq<Option<(string, nat)>>, from: nat, l: Line)
    requires Attempted(|s|, attempts) && from + |l.text| < |s|
    requires LineMatches(s, attempts, from, l)
    ensures Scan(s, attempts, from) == Found([l]) + Scan(s, attempts, from + |l.text| + 1)
  {
    if l.Quiet? {
      ScanSkip(s, attempts, from, from + |l.text| + 1);
    } else {
      ScanMatchThenSkip(s, attempts, from, l.name, from + |l.text|);
    }
  }

  /** The attempts on every line of a text made of lines, from index `from`. */
  predicate AllMatch(s: string, attempts: seq<Option<(string, nat)>>, from: nat, ls: seq<Line>)
    requires Attempted(|s|, attempts)
    decreases |ls|
  {
    |ls| == 0 ||
    (from + |ls[0].text| < |s| && LineMatches(s, attempts, from, ls[0])
     && AllMatch(s, attempts, from + |ls[0].text| + 1, ls[1..]))
  }

  /** A line, a line feed and more text: the line is there, and the rest starts a line. */
  lemma SplitAtLineFeed(s: string, from: nat, x: string, rest: string)
    requires OccursAt(s, x + "\n" + rest, from)
    ensures LineAt(s, x, from)
    ensures OccursAt(s, rest, from + |x| + 1)
    ensures LineStart(s, from + |x| + 1)
  {
    var next := from + |x| + 1;
    var whole := x + "\n" + rest;
    assert s[from..next] == s[from..from + |whole|][..|x| + 1];
    assert s[next..next + |rest|] == s[from..from + |whole|][|x| + 1..];
    assert s[next - 1] == s[from..from + |whole|][|x|];
  }

  lemma AllMatchIntro(s: string, attempts: seq<Option<(string, nat)>>, from: nat, ls: seq<Line>)
    requires Attempted(|s|, attempts) && |ls| > 0
    requires from + |ls[0].text| < |s| && LineMatches(s, attempts, from, ls[0])
    requires AllMatch(s, attempts, from + |ls[0].text| + 1, ls[1..])
    ensures AllMatch(s, attempts, from, ls)
  {
  }

  lemma LinesTextCons(ls: seq<Line>)
    requires |ls| > 0
    ensures LinesText(ls) == ls[0].text + "\n" + LinesText(ls[1..])
  {
  }

  lemma AllValidCons(ls: seq<Line>, call: string)
    requires |ls| > 0 && AllValid(ls, call)
    ensures ValidLine(ls[0], call) && AllValid(ls[1..], call)
  {
  }

  /** The first of valid lines in a text gives its attempts, and the rest are valid lines at the start of the next line. */
  lemma LinesMatchFirst(s: string, call: string, from: nat, ls: seq<Line>)
    requires CallShape(call)
    requires |ls| > 0 && from <= |s| && LineStart(s, from)
    requires OccursAt(s, LinesText(ls), from)
    requires AllValid(ls, call)
    ensures from + |ls[0].text| < |s| && LineMatches(s, Attempts(s, call), from, ls[0])
    ensures OccursAt(s, LinesText(ls[1..]), from + |ls[0].text| + 1)
    ensures LineStart(s, from + |ls[0].text| + 1)
    ensures AllValid(ls[1..], call)
  {
    OccursCons(s, from, ls);
    AllValidCons(ls, call);
    LineThenRest(s, call, from, ls[0], LinesText(ls[1..]));
  }

  /** Where lines occur, their first line and a line feed occur, then the rest. */
  lemma OccursCons(s: string, from: nat, ls: seq<Line>)
    requires |ls| > 0 && OccursAt(s, LinesText(ls), from)
    ensures OccursAt(s, ls[0].text + "\n" + LinesText(ls[1..]), from)
  {
    LinesTextCons(ls);
  }

  /** A valid line followed by a line feed gives its attempts, and what follows starts a line. */
  lemma LineThenRest(s: string, call: string, from: nat, l: Line, rest: string)
    requires CallShape(call)
    requires from <= |s| && LineStart(s, from) && OccursAt(s, l.text + "\n" + rest, from)
    requires ValidLine(l, call)
    ensures from + |l.text| < |s| && LineMatches(s, Attempts(s, call), from, l)
    ensures OccursAt(s, rest, from + |l.text| + 1)
    ensures LineStart(s, from + |l.text| + 1)
  {
    SplitAtLineFeed(s, from, l.text, rest);
    LineFacts(s, call, from, l);
  }

  lemma {:induction false} LinesMatch(s: string, call: string, from: nat, ls: seq<Line>)
    requires CallShape(call)
    requires from <= |s| && LineStart(s, from)
    requires OccursAt(s, LinesText(ls), from)
    requires AllValid(ls, call)
    ensures AllMatch(s, Attempts(s, call), from, ls)
    decreases |ls|
  {
    if |ls| > 0 {
      LinesMatchFirst(s, call, from, ls);
      LinesMatch(s, call, from + |ls[0].text| + 1, ls[1..]);
      AllMatchIntro(s, Attempts(s, call), from, ls);
    }
  }

  lemma Chain(x: seq<(string, string)>, y: seq<(string, string)>, z: seq<(string, string)>, f0: seq<(string, string)>, f1: seq<(string, string)>)
    requires x == f0 + y && y == f1 + z
    ensures x == (f0 + f1) + z
  {
  }

  /** The first line of a text made of lines, and what follows it. */
  lemma LinesCons(s: string, attempts: seq<Option<(string, nat)>>, from: nat, ls: seq<Line>)
    requires Attempted(|s|, attempts) && |ls| > 0 && AllMatch(s, attempts, from, ls)
    ensures from + |ls[0].text| < |s| && LineMatches(s, attempts, from, ls[0])
    ensures AllMatch(s, attempts, from + |ls[0].text| + 1, ls[1..])
    ensures |LinesText(ls)| == |ls[0].text| + 1 + |LinesText(ls[1..])|
    ensures Found(ls) == Found([ls[0]]) + Found(ls[1..])
  {
  }

  lemma {:induction false} ScanLines(s: string, attempts: seq<Option<(string, nat)>>, from: nat, ls: seq<Line>)
    requires Attempted(|s|, attempts) && from + |LinesText(ls)| <= |s|
    requires AllMatch(s, attempts, from, ls)
    ensures Scan(s, attempts, from) == Found(ls) + Scan(s, attempts, from + |LinesText(ls)|)
    decreases |ls|
  {
    if |ls| > 0 {
      var next := from + |ls[0].text| + 1;
      LinesCons(s, attempts, from, ls);
      ScanLine(s, attempts, from, ls[0]);
      ScanLines(s, attempts, next, ls[1..]);
      Chain(Scan(s, attempts, from), Scan(s, attempts, next), Scan(s, attempts, next + |LinesText(ls[1..])|),
            Found([ls[0]]), Found(ls[1..]));
    }
  }

  /** The scan of a text made of valid lines finds exactly their statements, in order. */
  lemma ScanOfLines(ls: seq<Line>, call: string)
    requires CallShape(call)
    requires AllValid(ls, call)
    ensures MatchAll(LinesText(ls), call) == Found(ls)
  {
    var s := LinesText(ls);
    OccursWhole(s);
    LinesMatch(s, call, 0, ls);
    ScanWhole(s, Attempts(s, call), ls, Found(ls));
    ScanEnd(s, call);
  }

  /** A text occurs in itself at its start, which starts a line. */
  lemma OccursWhole(s: string)
    ensures OccursAt(s, s, 0) && LineStart(s, 0)
  {
    assert s[0..|s|] == s;
  }

  /** Lines matched over the whole text are all a scan from its start finds before its end. */
  lemma ScanWhole(s: string, attempts: seq<Option<(string, nat)>>, ls: seq<Line>, found: seq<(string, string)>)
    requires Attempted(|s|, attempts) && s == LinesText(ls) && found == Found(ls)
    requires AllMatch(s, attempts, 0, ls)
    ensures Scan(s, attempts, 0) == found + Scan(s, attempts, |s|)
  {
    ScanLines(s, attempts, 0, ls);
  }
}
