/**
 * The deployment scripts the compiler writes for the user's contracts:
 * the artifact list taken from the contracts directory, the scan of the
 * previous `3_user_contracts.js` for `deployer.deploy(...)` statements,
 * and the text of the new script, which reuses every statement it found
 * and synthesizes the others from the constructor signature.
 */
module Migrations {
  import opened Prelude
  import opened JsText
  import opened Objects
  import opened ConstructorArgs

  // ---------------------------------------------------------------------------
  // File lists

  /** A request file: a name matching `/.*\.js$/`. */
  predicate IsRequestFile(f: string) {
    EndsWith(f, ".js")
  }

  /** A contract source that gets a deployment: a name matching `/.*\.sol$/` other than `Migrations.sol`. */
  predicate IsDeployable(f: string) {
    EndsWith(f, ".sol") && f != "Migrations.sol"
  }

  /** The request files, in listing order. */
  function RequestFiles(listing: seq<string>): (r: seq<string>)
    ensures forall f :: f in r <==> f in listing && EndsWith(f, ".js")
    ensures (forall i :: 0 <= i < |listing| ==> EndsWith(listing[i], ".js")) ==> r == listing
  {
    var r := Filter(listing, IsRequestFile);
    if forall i :: 0 <= i < |listing| ==> EndsWith(listing[i], ".js") then
      FilterAll(listing, IsRequestFile);
      r
    else r
  }

  /** The contract sources that get a deployment, in listing order. */
  function DeployableSources(listing: seq<string>): (r: seq<string>)
    ensures forall f :: f in r <==> f in listing && EndsWith(f, ".sol") && f != "Migrations.sol"
    ensures forall i :: 0 <= i < |r| ==> |r[i]| >= 4
  {
    var r := Filter(listing, IsDeployable);
    assert forall i :: 0 <= i < |r| ==> r[i] in r && IsDeployable(r[i]);
    r
  }

  /** `${fileName[0].toUpperCase()}${fileName.slice(1).replace(".sol", "")}`. */
  function ArtifactName(fileName: string): string
    requires |fileName| > 0
  {
    [UpperChar(fileName[0])] + ReplaceFirst(fileName[1..], ".sol", "")
  }

  /** The artifact names of the contracts directory, in listing order. */
  function Artifacts(listing: seq<string>): (r: seq<string>)
    ensures |r| == |DeployableSources(listing)|
    ensures forall i :: 0 <= i < |r| ==> r[i] == ArtifactName(DeployableSources(listing)[i])
  {
    var sources := DeployableSources(listing);
    seq(|sources|, i requires 0 <= i < |sources| => ArtifactName(sources[i]))
  }

  /**
   * The request filter works file by file: the files of a longer listing are
   * those of its first part followed by those of the rest, so listing order
   * and repetitions are kept.
   */
  lemma RequestFilesAppend(a: seq<string>, b: seq<string>)
    ensures RequestFiles(a + b) == RequestFiles(a) + RequestFiles(b)
  {
    FilterAppend(a, b, IsRequestFile);
  }

  /** A single name is a request file exactly when it ends in `.js`, and is kept as it is. */
  lemma RequestFilesOfOne(f: string)
    ensures RequestFiles([f]) == if EndsWith(f, ".js") then [f] else []
  {
    FilterOne(f, IsRequestFile);
  }

  /** The source filter works file by file, like the request filter. */
  lemma DeployableSourcesAppend(a: seq<string>, b: seq<string>)
    ensures DeployableSources(a + b) == DeployableSources(a) + DeployableSources(b)
  {
    FilterAppend(a, b, IsDeployable);
  }

  /** A single name is a deployable source exactly when it is a `.sol` file other than `Migrations.sol`. */
  lemma DeployableSourcesOfOne(f: string)
    ensures DeployableSources([f]) == if EndsWith(f, ".sol") && f != "Migrations.sol" then [f] else []
  {
    FilterOne(f, IsDeployable);
  }

  /** The artifacts of a longer listing are those of its first part followed by those of the rest. */
  lemma ArtifactsAppend(a: seq<string>, b: seq<string>)
    ensures Artifacts(a + b) == Artifacts(a) + Artifacts(b)
  {
    DeployableSourcesAppend(a, b);
    var l, r := Artifacts(a), Artifacts(b);
    assert |Artifacts(a + b)| == |l + r|;
    forall i | 0 <= i < |l + r|
      ensures Artifacts(a + b)[i] == (l + r)[i]
    {
      if i >= |l| {
        assert DeployableSources(a + b)[i] == DeployableSources(b)[i - |l|];
      }
    }
  }

  /**
   * A source called `<base>.sol`, where `.sol` appears nowhere else after
   * the first character, gives the artifact `<base>` with its first letter
   * upper-cased.
   */
  lemma ArtifactOfSource(base: string)
    requires |base| > 0
    requires !Contains(base[1..] + ".so", ".sol")
    ensures ArtifactName(base + ".sol") == [UpperChar(base[0])] + base[1..]
  {
    var tail := base[1..] + ".sol";
    assert (base + ".sol")[1..] == tail;
    assert OccursAt(tail, ".sol", |base| - 1);
    var i := IndexOf(tail, ".sol").value;
    if i < |base| - 1 {
      assert OccursAt(base[1..] + ".so", ".sol", i) by {
        assert tail[i..i + 4] == (base[1..] + ".so")[i..i + 4];
      }
    }
    assert tail[..i] == base[1..];
  }

  /** The listing filter keeps `<base>.sol` unless it is `Migrations.sol`. */
  lemma ArtifactsOfOne(f: string)
    requires EndsWith(f, ".sol")
    ensures f == "Migrations.sol" ==> Artifacts([f]) == []
    ensures f != "Migrations.sol" ==> Artifacts([f]) == [ArtifactName(f)]
  {
    DeployableSourcesOfOne(f);
  }

  // ---------------------------------------------------------------------------
  // The statement pattern /^\s*deployer\.deploy\([\s\n]*(\w+)[^)]*\)/mg

  const DeployCall: string := "deployer.deploy("

  predicate NotCloseParen(c: char) {
    c != ')'
  }

  /** Every character of `s[i..j]` is white space. */
  predicate SpaceBetween(s: string, i: nat, j: nat)
    requires i <= j <= |s|
  {
    forall k :: i <= k < j ==> IsSpace(s[k])
  }

  /** No character of `s[i..j]` is a closing parenthesis. */
  predicate NoCloseBetween(s: string, i: nat, j: nat)
    requires i <= j <= |s|
  {
    forall k :: i <= k < j ==> s[k] != ')'
  }

  /**
   * `s[p..e]` is one statement naming `name`, with the call at index `a`
   * and the name at index `g`: white space, the call, white space, the name
   * as a maximal run of word characters, then anything but a closing
   * parenthesis up to the first one, which ends the statement.
   */
  predicate StatementWith(s: string, call: string, p: nat, e: nat, name: string, a: nat, g: nat) {
    && p <= a && a + |call| <= g && g + |name| < e <= |s|
    && SpaceBetween(s, p, a) && OccursAt(s, call, a) && SpaceBetween(s, a + |call|, g)
    && IsIdentifier(name) && s[g..g + |name|] == name
    && NoCloseBetween(s, g + |name|, e - 1) && s[e - 1] == ')'
    && (g + |name| == e - 1 || !IsWordChar(s[g + |name|]))
  }

  ghost predicate StatementAt(s: string, call: string, p: nat, e: nat, name: string) {
    exists a: nat, g: nat :: StatementWith(s, call, p, e, name, a, g)
  }

  /** `m` as a whole is one statement naming `name`. */
  ghost predicate IsStatement(m: string, name: string) {
    StatementAt(m, DeployCall, 0, |m|, name)
  }

  /**
   * The pattern tried at index `p` once `^` holds there: the captured name
   * and the index just after the match. The greedy runs never need to give
   * back characters, so the first failing step fails the attempt.
   */
  function MatchFrom(s: string, call: string, p: nat): (r: Option<(string, nat)>)
    requires p <= |s|
    ensures r.Some? ==> p < r.value.1 <= |s|
  {
    var a := p + RunFrom(s, p, IsSpace);
    if !OccursAt(s, call, a) then None
    else
      var g := a + |call| + RunFrom(s, a + |call|, IsSpace);
      var w := RunFrom(s, g, IsWordChar);
      if w == 0 then None
      else
        var c := g + w + RunFrom(s, g + w, NotCloseParen);
        if c < |s| then Some((s[g..g + w], c + 1)) else None
  }

  /** What the pattern matches is a statement, naming what it captured. */
  lemma MatchFromSound(s: string, call: string, p: nat, name: string, e: nat)
    requires p <= |s| && MatchFrom(s, call, p) == Some((name, e))
    ensures StatementAt(s, call, p, e, name)
  {
    var a := p + RunFrom(s, p, IsSpace);
    var g := a + |call| + RunFrom(s, a + |call|, IsSpace);
    MatchFromParts(s, call, p, name, e);
    RunsStatement(s, call, p, e, name, a, g);
  }

  /** What a successful attempt says about its runs. */
  lemma MatchFromParts(s: string, call: string, p: nat, name: string, e: nat)
    requires p <= |s| && MatchFrom(s, call, p) == Some((name, e))
    ensures OccursAt(s, call, p + RunFrom(s, p, IsSpace))
    ensures var g := p + RunFrom(s, p, IsSpace) + |call| + RunFrom(s, p + RunFrom(s, p, IsSpace) + |call|, IsSpace);
      && g + |name| < e <= |s|
      && RunFrom(s, g, IsWordChar) == |name| > 0 && s[g..g + |name|] == name
      && g + |name| + RunFrom(s, g + |name|, NotCloseParen) == e - 1
  {
  }

  /** Runs of white space, a word and anything but a closing parenthesis, in a row, form a statement. */
  lemma RunsStatement(s: string, call: string, p: nat, e: nat, name: string, a: nat, g: nat)
    requires p <= |s| && a == p + RunFrom(s, p, IsSpace) && OccursAt(s, call, a)
    requires g == a + |call| + RunFrom(s, a + |call|, IsSpace)
    requires g + |name| < e <= |s|
    requires RunFrom(s, g, IsWordChar) == |name| > 0 && s[g..g + |name|] == name
    requires g + |name| + RunFrom(s, g + |name|, NotCloseParen) == e - 1
    ensures StatementAt(s, call, p, e, name)
  {
    RunFromSpec(s, p, IsSpace);
    RunFromSpec(s, a + |call|, IsSpace);
    NameRun(s, g, name);
    RunFromSpec(s, g + |name|, NotCloseParen);
    assert StatementWith(s, call, p, e, name, a, g);
  }

  /** A maximal non-empty run of word characters is an identifier followed by something else. */
  lemma NameRun(s: string, g: nat, name: string)
    requires g + |name| < |s| && RunFrom(s, g, IsWordChar) == |name| > 0 && s[g..g + |name|] == name
    ensures IsIdentifier(name) && !IsWordChar(s[g + |name|])
  {
    RunFromSpec(s, g, IsWordChar);
    forall k | 0 <= k < |name| ensures IsWordChar(name[k]) {
      assert name[k] == s[g + k];
    }
  }

  /** A statement is matched exactly: the pattern at its start captures its name and ends where it ends. */
  lemma MatchFromComplete(s: string, call: string, p: nat, e: nat, name: string)
    requires |call| > 0 && !IsSpace(call[0])
    requires p <= |s| && StatementAt(s, call, p, e, name)
    ensures MatchFrom(s, call, p) == Some((name, e))
  {
    var a: nat, g: nat :| StatementWith(s, call, p, e, name, a, g);
    StatementRuns(s, call, p, e, name, a, g);
    MatchFromRuns(s, call, p, e, name, a, g);
  }

  /** The runs the pattern takes over a statement end exactly at its parts. */
  lemma StatementRuns(s: string, call: string, p: nat, e: nat, name: string, a: nat, g: nat)
    requires |call| > 0 && !IsSpace(call[0])
    requires StatementWith(s, call, p, e, name, a, g)
    ensures p + RunFrom(s, p, IsSpace) == a
    ensures a + |call| + RunFrom(s, a + |call|, IsSpace) == g
    ensures RunFrom(s, g, IsWordChar) == |name|
    ensures g + |name| + RunFrom(s, g + |name|, NotCloseParen) == e - 1
  {
    var i := a + |call|;
    assert s[a] == call[0] by { assert s[a..i][0] == s[a]; }
    SpaceRun(s, p, a);
    assert s[g] == name[0] by { assert s[g..g + |name|][0] == s[g]; }
    SpaceRun(s, i, g);
    WordRun(s, g, name);
    CloseRun(s, g + |name|, e - 1);
  }

  lemma SpaceRun(s: string, i: nat, j: nat)
    requires i <= j < |s| && SpaceBetween(s, i, j) && !IsSpace(s[j])
    ensures i + RunFrom(s, i, IsSpace) == j
  {
    RunFromExact(s, i, j - i, IsSpace);
  }

  lemma CloseRun(s: string, i: nat, j: nat)
    requires i <= j < |s| && NoCloseBetween(s, i, j) && s[j] == ')'
    ensures i + RunFrom(s, i, NotCloseParen) == j
  {
    RunFromExact(s, i, j - i, NotCloseParen);
  }

  /** The pattern follows the runs. */
  lemma MatchFromRuns(s: string, call: string, p: nat, e: nat, name: string, a: nat, g: nat)
    requires p <= |s|
    requires p + RunFrom(s, p, IsSpace) == a
    requires OccursAt(s, call, a)
    requires a + |call| + RunFrom(s, a + |call|, IsSpace) == g
    requires RunFrom(s, g, IsWordChar) == |name| > 0
    requires g + |name| + RunFrom(s, g + |name|, NotCloseParen) == e - 1
    requires e - 1 < |s|
    requires s[g..g + |name|] == name
    ensures MatchFrom(s, call, p) == Some((name, e))
  {
  }

  /** The run of word characters at a name followed by a non-word character is the name. */
  lemma WordRun(s: string, g: nat, name: string)
    requires g + |name| < |s| && s[g..g + |name|] == name && AllWordChars(name)
    requires !IsWordChar(s[g + |name|])
    ensures RunFrom(s, g, IsWordChar) == |name|
  {
    forall k | g <= k < g + |name| ensures IsWordChar(s[k]) {
      assert s[g..g + |name|][k - g] == s[k];
    }
    RunFromExact(s, g, |name|, IsWordChar);
  }

  /** Whether a statement holds depends only on its own characters. */
  lemma StatementShift(s: string, call: string, p: nat, e: nat, s': string, q: nat, name: string)
    requires p <= e <= |s| && q + (e - p) <= |s'| && s[p..e] == s'[q..q + (e - p)]
    requires StatementAt(s, call, p, e, name)
    ensures StatementAt(s', call, q, q + (e - p), name)
  {
    var a: nat, g: nat :| StatementWith(s, call, p, e, name, a, g);
    ShiftHead(s, call, p, e, s', q, a, g);
    ShiftTail(s, p, e, s', q, name, g);
    assert StatementWith(s', call, q, q + (e - p), name, q + (a - p), q + (g - p));
  }

  lemma ShiftHead(s: string, call: string, p: nat, e: nat, s': string, q: nat, a: nat, g: nat)
    requires p <= e <= |s| && q + (e - p) <= |s'| && s[p..e] == s'[q..q + (e - p)]
    requires p <= a && a + |call| <= g <= e
    requires SpaceBetween(s, p, a) && OccursAt(s, call, a) && SpaceBetween(s, a + |call|, g)
    ensures SpaceBetween(s', q, q + (a - p))
    ensures OccursAt(s', call, q + (a - p))
    ensures SpaceBetween(s', q + (a + |call| - p), q + (g - p))
  {
    var i := a + |call|;
    SliceShift(s, p, e, s', q, p, a);
    SpaceSame(s, p, a, s', q);
    SliceShift(s, p, e, s', q, a, i);
    SliceShift(s, p, e, s', q, i, g);
    SpaceSame(s, i, g, s', q + (i - p));
  }

  lemma ShiftTail(s: string, p: nat, e: nat, s': string, q: nat, name: string, g: nat)
    requires p <= e <= |s| && q + (e - p) <= |s'| && s[p..e] == s'[q..q + (e - p)]
    requires p <= g && g + |name| < e
    requires s[g..g + |name|] == name && NoCloseBetween(s, g + |name|, e - 1) && s[e - 1] == ')'
    requires g + |name| == e - 1 || !IsWordChar(s[g + |name|])
    ensures s'[q + (g - p)..q + (g - p) + |name|] == name
    ensures NoCloseBetween(s', q + (g - p) + |name|, q + (e - p) - 1) && s'[q + (e - p) - 1] == ')'
    ensures g + |name| == e - 1 || !IsWordChar(s'[q + (g - p) + |name|])
  {
    var n := g + |name|;
    SliceShift(s, p, e, s', q, g, n);
    SliceShift(s, p, e, s', q, n, e - 1);
    CloseSame(s, n, e - 1, s', q + (n - p));
    CharShift(s, p, e, s', q, e - 1);
    if n < e - 1 {
      CharShift(s, p, e, s', q, n);
    }
  }

  lemma CharShift(s: string, p: nat, e: nat, s': string, q: nat, i: nat)
    requires p <= i < e <= |s| && q + (e - p) <= |s'| && s[p..e] == s'[q..q + (e - p)]
    ensures s'[q + (i - p)] == s[i]
  {
    assert s[p..e][i - p] == s'[q..q + (e - p)][i - p];
  }

  /** Equal stretches of two texts agree on every sub-stretch. */
  lemma SliceShift(s: string, p: nat, e: nat, s': string, q: nat, i: nat, j: nat)
    requires p <= i <= j <= e <= |s| && q + (e - p) <= |s'| && s[p..e] == s'[q..q + (e - p)]
    ensures s'[q + (i - p)..q + (j - p)] == s[i..j]
  {
    forall k | 0 <= k < j - i ensures s'[q + (i - p)..q + (j - p)][k] == s[i..j][k] {
      assert s[p..e][i - p + k] == s'[q..q + (e - p)][i - p + k];
    }
  }

  lemma SpaceSame(s: string, i: nat, j: nat, s': string, x: nat)
    requires i <= j <= |s| && x + (j - i) <= |s'| && s'[x..x + (j - i)] == s[i..j]
    requires SpaceBetween(s, i, j)
    ensures SpaceBetween(s', x, x + (j - i))
  {
    forall k | x <= k < x + (j - i) ensures IsSpace(s'[k]) {
      assert s'[x..x + (j - i)][k - x] == s[i..j][k - x];
    }
  }

  lemma CloseSame(s: string, i: nat, j: nat, s': string, x: nat)
    requires i <= j <= |s| && x + (j - i) <= |s'| && s'[x..x + (j - i)] == s[i..j]
    requires NoCloseBetween(s, i, j)
    ensures NoCloseBetween(s', x, x + (j - i))
  {
    forall k | x <= k < x + (j - i) ensures s'[k] != ')' {
      assert s'[x..x + (j - i)][k - x] == s[i..j][k - x];
    }
  }

  // ---------------------------------------------------------------------------
  // `matchAll` with the flags m and g

  /** `^` under the flag m: the start of the text or just after a line terminator. */
  predicate LineStart(s: string, p: nat)
    requires p <= |s|
  {
    p == 0 || IsLineTerminator(s[p - 1])
  }

  /** The attempt at index `p`, for the pattern with the literal call `call`. */
  function MatchAt(s: string, call: string, p: nat): Option<(string, nat)>
    requires p <= |s|
    ensures MatchAt(s, call, p).Some? ==> p < MatchAt(s, call, p).value.1 <= |s|
  {
    if LineStart(s, p) then MatchFrom(s, call, p) else None
  }

  /** Outcomes of the attempt at each index of a text of length `n`, the end included: a match ends after its start and within the text. */
  predicate Attempted(n: nat, attempts: seq<Option<(string, nat)>>) {
    && |attempts| == n + 1
    && forall p :: 0 <= p < |attempts| && attempts[p].Some? ==> p < attempts[p].value.1 <= n
  }

  /** The outcomes of the attempts at indexes `i` to `|s|` of `s`. */
  function AttemptsFrom(s: string, call: string, i: nat): (r: seq<Option<(string, nat)>>)
    requires i <= |s| + 1
    ensures |r| == |s| + 1 - i
    decreases |s| + 1 - i
  {
    if i == |s| + 1 then [] else [MatchAt(s, call, i)] + AttemptsFrom(s, call, i + 1)
  }

  lemma {:induction false} AttemptsFromIndex(s: string, call: string, i: nat, p: nat)
    requires i <= p <= |s|
    ensures AttemptsFrom(s, call, i)[p - i] == MatchAt(s, call, p)
    decreases p - i
  {
    if i < p {
      AttemptsFromIndex(s, call, i + 1, p);
    }
  }

  /** The outcome of the attempt at every index of `s`, the end included. */
  function Attempts(s: string, call: string): (r: seq<Option<(string, nat)>>)
    ensures Attempted(|s|, r)
  {
    var r := AttemptsFrom(s, call, 0);
    forall p | 0 <= p < |r| ensures r[p].Some? ==> p < r[p].value.1 <= |s| {
      AttemptsFromIndex(s, call, 0, p);
    }
    r
  }

  lemma AttemptAt(s: string, call: string, p: nat)
    requires p <= |s|
    ensures Attempts(s, call)[p] == MatchAt(s, call, p)
  {
    AttemptsFromIndex(s, call, 0, p);
  }

  /** `regex.exec(s)` with `lastIndex == from`: the leftmost index with a match, the name and the end of the match. */
  function NextMatch(attempts: seq<Option<(string, nat)>>, n: nat, from: nat): (r: Option<(nat, string, nat)>)
    requires Attempted(n, attempts) && from <= n
    ensures r.Some? ==> from <= r.value.0 < r.value.2 <= n
    decreases n - from
  {
    match attempts[from]
    case Some(m) => Some((from, m.0, m.1))
    case None => if from == n then None else NextMatch(attempts, n, from + 1)
  }

  /** The match found is the one at the leftmost index where the pattern matches. */
  lemma {:induction false} NextMatchLeftmost(attempts: seq<Option<(string, nat)>>, n: nat, from: nat, q: nat, name: string, e: nat)
    requires Attempted(n, attempts) && from <= n && NextMatch(attempts, n, from) == Some((q, name, e))
    ensures attempts[q] == Some((name, e))
    ensures forall p: nat :: from <= p < q ==> attempts[p].None?
    decreases n - from
  {
    if attempts[from].None? {
      NextMatchLeftmost(attempts, n, from + 1, q, name, e);
    }
  }

  /** No match is found only when the pattern matches at no index. */
  lemma {:induction false} NextMatchNone(attempts: seq<Option<(string, nat)>>, n: nat, from: nat)
    requires Attempted(n, attempts) && from <= n && NextMatch(attempts, n, from).None?
    ensures forall p: nat :: from <= p <= n ==> attempts[p].None?
    decreases n - from
  {
    if from < n {
      NextMatchNone(attempts, n, from + 1);
    }
  }

  /** `matchAll(regex, s)` from `lastIndex == from`: each match's name and text, in order. */
  function Scan(s: string, attempts: seq<Option<(string, nat)>>, from: nat): seq<(string, string)>
    requires Attempted(|s|, attempts) && from <= |s|
    decreases |s| - from
  {
    match NextMatch(attempts, |s|, from)
    case None => []
    case Some((p, name, e)) => [(name, s[p..e])] + Scan(s, attempts, e)
  }

  /** `matchAll` of the statement pattern over a whole text. */
  function MatchAll(s: string, call: string): seq<(string, string)> {
    Scan(s, Attempts(s, call), 0)
  }

  /** Each text paired with a name is a whole statement naming it. */
  ghost predicate AllStatements(pairs: seq<(string, string)>, call: string) {
    forall i :: 0 <= i < |pairs| ==> StatementAt(pairs[i].1, call, 0, |pairs[i].1|, pairs[i].0)
  }

  /** Every successful attempt spans a statement naming what it captured. */
  ghost predicate SoundAttempts(s: string, call: string, attempts: seq<Option<(string, nat)>>)
    requires Attempted(|s|, attempts)
  {
    forall p :: 0 <= p <= |s| && attempts[p].Some? ==> StatementAt(s, call, p, attempts[p].value.1, attempts[p].value.0)
  }

  lemma AttemptsSound(s: string, call: string)
    ensures SoundAttempts(s, call, Attempts(s, call))
  {
    var attempts := Attempts(s, call);
    forall p | 0 <= p <= |s| && attempts[p].Some?
      ensures StatementAt(s, call, p, attempts[p].value.1, attempts[p].value.0)
    {
      AttemptAt(s, call, p);
      MatchFromSound(s, call, p, attempts[p].value.0, attempts[p].value.1);
    }
  }

  lemma AllStatementsCons(x: (string, string), rest: seq<(string, string)>, call: string)
    requires StatementAt(x.1, call, 0, |x.1|, x.0) && AllStatements(rest, call)
    ensures AllStatements([x] + rest, call)
  {
  }

  /** Every text the scan collects is a whole statement naming the name collected with it. */
  lemma {:induction false} ScanStatements(s: string, call: string, attempts: seq<Option<(string, nat)>>, from: nat)
    requires Attempted(|s|, attempts) && SoundAttempts(s, call, attempts) && from <= |s|
    ensures AllStatements(Scan(s, attempts, from), call)
    decreases |s| - from
  {
    match NextMatch(attempts, |s|, from)
    case None =>
    case Some((p, name, e)) =>
      NextMatchLeftmost(attempts, |s|, from, p, name, e);
      StatementShift(s, call, p, e, s[p..e], 0, name);
      ScanStatements(s, call, attempts, e);
      AllStatementsCons((name, s[p..e]), Scan(s, attempts, e), call);
  }

  /** Every value of an object built from statements paired with their names is a statement naming its key. */
  lemma ObjectOfStatements(pairs: seq<(string, string)>, call: string)
    requires AllStatements(pairs, call)
    ensures forall name :: name in FromPairs(pairs) ==>
              StatementAt(FromPairs(pairs)[name], call, 0, |FromPairs(pairs)[name]|, name)
  {
    forall name | name in FromPairs(pairs)
      ensures StatementAt(FromPairs(pairs)[name], call, 0, |FromPairs(pairs)[name]|, name)
    {
      FromPairsValue(pairs, name);
    }
  }

  /** `readMigrationArgs()`: each statement of the previous script under the name it deploys; the last one wins. */
  function ReadMigrationArgs(content: string): (r: map<string, string>)
    ensures forall name :: name in r ==> IsStatement(r[name], name)
  {
    AttemptsSound(content, DeployCall);
    ScanStatements(content, DeployCall, Attempts(content, DeployCall), 0);
    ObjectOfStatements(MatchAll(content, DeployCall), DeployCall);
    FromPairs(MatchAll(content, DeployCall))
  }
}
