/**
 * The third migration, `3_user_contracts.js`, as `writeMigrations` writes
 * it: a fixed header, one `artifacts.require` line per user contract, the
 * `deployer.link` line, then one `deployer.deploy(...)` entry per contract.
 * An entry found in the previous version of the script is kept verbatim;
 * any other is synthesized from the contract's constructor.
 */
module MigrationScript {
  import opened Prelude
  import opened JsText
  import opened Objects
  import opened ConstructorArgs
  import opened Migrations
  import opened ScriptLines

  // ---------------------------------------------------------------------------
  // Entries

  /** `  deployer.deploy(${[artifact, ...mocks].join(", ")})`. */
  function SynthesizedEntry(artifact: string, mocks: seq<string>): string {
    "  " + DeployCall + Join([artifact] + mocks, ", ") + ")"
  }

  /**
   * The entry of one artifact: the statement the previous script held for
   * it, or else one synthesized from the parameter list of its constructor,
   * failing as `readSolidityArgs` fails.
   */
  function Entry(artifact: string, existing: map<string, string>, sources: map<string, string>): (r: Result<string, SynthesisError>)
    ensures artifact in existing ==> r == Ok(existing[artifact])
    ensures artifact !in existing ==> (r.Ok? <==> ReadSolidityArgs(sources, artifact).Ok?)
    ensures artifact !in existing && r.Err? ==> r.error == ReadSolidityArgs(sources, artifact).error
    ensures artifact !in existing && r.Ok? ==>
              r.value == SynthesizedEntry(artifact, MockSolidityArgs(ReadSolidityArgs(sources, artifact).value))
  {
    if artifact in existing then Ok(existing[artifact])
    else
      var args :- ReadSolidityArgs(sources, artifact);
      Ok(SynthesizedEntry(artifact, MockSolidityArgs(args)))
  }

  /**
   * `xs.map(f)` where `f` may throw: all results in order, or what the first
   * failing element throws.
   */
  function MapResults<T, E>(xs: seq<string>, f: string -> Result<T, E>): (r: Result<seq<T>, E>)
    ensures r.Ok? <==> forall i :: 0 <= i < |xs| ==> f(xs[i]).Ok?
    ensures r.Ok? ==> |r.value| == |xs| && forall i :: 0 <= i < |xs| ==> f(xs[i]) == Ok(r.value[i])
    ensures r.Err? ==> exists i :: 0 <= i < |xs| && f(xs[i]) == Err(r.error)
                         && forall j :: 0 <= j < i ==> f(xs[j]).Ok?
    decreases |xs|
  {
    if |xs| == 0 then Ok([])
    else
      match f(xs[0])
      case Err(e) => Err(e)
      case Ok(first) =>
        var tail := MapResults(xs[1..], f);
        assert forall j :: 1 <= j < |xs| ==> xs[1..][j - 1] == xs[j];
        match tail
        case Err(e) =>
          ghost var i :| 0 <= i < |xs| - 1 && f(xs[1..][i]) == Err(e)
                         && forall j :: 0 <= j < i ==> f(xs[1..][j]).Ok?;
          assert f(xs[i + 1]) == Err(e);
          Err(e)
        case Ok(rest) => Ok([first] + rest)
  }

  /** The entries of all artifacts in order; the first artifact that cannot be synthesized aborts the whole script. */
  function Entries(artifacts: seq<string>, existing: map<string, string>, sources: map<string, string>): (r: Result<seq<string>, SynthesisError>)
    ensures r.Ok? <==> forall i :: 0 <= i < |artifacts| ==> Entry(artifacts[i], existing, sources).Ok?
    ensures r.Ok? ==> |r.value| == |artifacts|
    ensures r.Ok? ==> forall i :: 0 <= i < |artifacts| ==> Entry(artifacts[i], existing, sources) == Ok(r.value[i])
    ensures r.Err? ==> exists i :: 0 <= i < |artifacts| && Entry(artifacts[i], existing, sources) == Err(r.error)
                         && forall j :: 0 <= j < i ==> Entry(artifacts[j], existing, sources).Ok?
  {
    MapResults(artifacts, a => Entry(a, existing, sources))
  }

  // ---------------------------------------------------------------------------
  // Synthesized entries are statements

  /** No mock holds a closing parenthesis, so none cuts a synthesized statement short. */
  lemma MockValuesHaveNoParen()
    ensures ')' !in ZeroMock && ')' !in StringMock && ')' !in BytesMock && ')' !in BoolMock
    ensures ')' !in BridgeReference
  {
  }

  lemma AddressMockHasNoParen()
    ensures ')' !in AddressMock
  {
    assert AddressMock == "\"0x00000000000000000000" + "00000000000000000000\"";
  }

  lemma MockHasNoParen(typeName: string, name: Option<string>)
    ensures ')' !in MockFor(typeName, name)
  {
    MockValuesHaveNoParen();
    AddressMockHasNoParen();
    var t := TableMock(typeName);
    assert t.Some? ==> t.value in {ZeroMock, StringMock, BytesMock, AddressMock, BoolMock};
  }

  lemma MocksHaveNoParen(args: string)
    ensures ')' !in Join(MockSolidityArgs(args), ", ")
  {
    var mocks := MockSolidityArgs(args);
    var pieces := Split(args, ',');
    forall k | 0 <= k < |mocks| ensures ')' !in mocks[k] {
      var words := Split(Trim(pieces[k]), ' ');
      MockHasNoParen(words[0], if |words| > 1 then Some(words[1]) else None);
    }
    JoinExcludes(mocks, ", ", ')');
  }

  /** White space, the call, a name, then text up to a single closing parenthesis form a statement of that name. */
  lemma StatementOfParts(lead: string, call: string, body: string, name: string, rest: string)
    requires AllSpace(lead) && IsIdentifier(name) && body == name + rest
    requires ')' !in rest && (|rest| == 0 || !IsWordChar(rest[0]))
    ensures StatementAt(lead + call + body + ")", call, 0, |lead + call + body + ")"|, name)
  {
    var m := lead + call + body + ")";
    var a := |lead|;
    var g := a + |call|;
    var n := g + |name|;
    assert m[a..g] == call;
    assert m[g..n] == name;
    forall k | n <= k < |m| - 1 ensures m[k] != ')' {
      assert m[k] == rest[k - n];
    }
    if |rest| > 0 {
      assert m[n] == rest[0];
    }
    assert StatementWith(m, call, 0, |m|, name, a, g);
  }

  /** What follows the artifact in a synthesized entry: nothing, or a comma and the mocks. */
  lemma MocksTail(mocks: seq<string>, rest: string)
    requires ')' !in Join(mocks, ", ")
    requires rest == if |mocks| == 0 then "" else ", " + Join(mocks, ", ")
    ensures ')' !in rest && (|rest| == 0 || rest[0] == ',')
  {
    if |mocks| > 0 {
      assert rest == ", " + Join(mocks, ", ");
      assert ')' !in ", ";
    }
  }

  /** The call, the artifact and mocks free of closing parentheses form a statement deploying the artifact. */
  lemma SynthesizedStatement(lead: string, call: string, artifact: string, mocks: seq<string>)
    requires AllSpace(lead) && IsIdentifier(artifact)
    requires ')' !in Join(mocks, ", ")
    ensures StatementAt(lead + call + Join([artifact] + mocks, ", ") + ")", call, 0,
                        |lead + call + Join([artifact] + mocks, ", ") + ")"|, artifact)
  {
    var rest := if |mocks| == 0 then "" else ", " + Join(mocks, ", ");
    JoinCons(artifact, mocks, ", ");
    MocksTail(mocks, rest);
    StatementOfParts(lead, call, Join([artifact] + mocks, ", "), artifact, rest);
  }

  /** A synthesized entry is read back as the statement deploying its artifact. */
  lemma SynthesizedEntryIsStatement(artifact: string, args: string)
    requires IsIdentifier(artifact)
    ensures IsStatement(SynthesizedEntry(artifact, MockSolidityArgs(args)), artifact)
  {
    MocksHaveNoParen(args);
    SynthesizedStatement("  ", DeployCall, artifact, MockSolidityArgs(args));
  }

  /** Every entry of a script is the statement deploying its artifact, given that the reused ones were. */
  lemma EntryIsStatement(artifact: string, existing: map<string, string>, sources: map<string, string>)
    requires IsIdentifier(artifact)
    requires forall name :: name in existing ==> IsStatement(existing[name], name)
    requires Entry(artifact, existing, sources).Ok?
    ensures IsStatement(Entry(artifact, existing, sources).value, artifact)
  {
    if artifact !in existing {
      SynthesizedEntryIsStatement(artifact, ReadSolidityArgs(sources, artifact).value);
    }
  }

  // ---------------------------------------------------------------------------
  // The text of the script

  // The notice at the top of the script, kept in fragments of a few dozen characters.
  const Notice1a: string := "// This file was auto-generated by the "
  const Notice1b: string := "Witnet compiler, any manual changes "
  const Notice1c: string := "will be overwritten except"
  const Notice2a: string := "// each contracts' constructor arguments "
  const Notice2b: string := "(you can freely edit those and the "
  const Notice2c: string := "compiler will respect them)."
  const NoticeLine1: string := Notice1a + Notice1b + Notice1c
  const NoticeLine2: string := Notice2a + Notice2b + Notice2c
  const ExportsLine: string := "module.exports = " + "function (deployer) {"

  /** `const ${artifact} = artifacts.require("${artifact}")`. */
  function RequireLine(artifact: string): string {
    "const " + artifact + " = artifacts.require(\"" + artifact + "\")"
  }

  function RequireLines(artifacts: seq<string>): (r: seq<string>)
    ensures |r| == |artifacts| && forall i :: 0 <= i < |r| ==> r[i] == RequireLine(artifacts[i])
  {
    seq(|artifacts|, i requires 0 <= i < |artifacts| => RequireLine(artifacts[i]))
  }

  /** `  deployer.link(Witnet, [${artifacts.join(", ")}])`. */
  function LinkLine(artifacts: seq<string>): string {
    "  " + "deployer.link(Witnet, [" + Join(artifacts, ", ") + "])"
  }

  /** The template literal `stage3`, given the artifacts and their entries. */
  function UserMigrationText(artifacts: seq<string>, entries: seq<string>): string {
    NoticeLine1 + "\n" + NoticeLine2 + "\n"
    + RequireLine("Witnet") + "\n" + RequireLine("WitnetBridgeInterface") + "\n"
    + Join(RequireLines(artifacts), "\n") + "\n"
    + "\n"
    + ExportsLine + "\n"
    + LinkLine(artifacts) + "\n"
    + Join(entries, "\n") + "\n"
    + "}\n"
  }

  /** The script for the artifacts, or what the first entry that cannot be synthesized throws. */
  function RenderUserMigration(artifacts: seq<string>, existing: map<string, string>, sources: map<string, string>): (r: Result<string, SynthesisError>)
    ensures r.Ok? <==> forall i :: 0 <= i < |artifacts| ==> Entry(artifacts[i], existing, sources).Ok?
    ensures r.Err? ==> exists i :: 0 <= i < |artifacts| && Entry(artifacts[i], existing, sources) == Err(r.error)
                         && forall j :: 0 <= j < i ==> Entry(artifacts[j], existing, sources).Ok?
  {
    var entries :- Entries(artifacts, existing, sources);
    Ok(UserMigrationText(artifacts, entries))
  }

  /**
   * The user half of `writeMigrations`: the artifacts of the contracts
   * directory, with entries reused from `previous`, the content of the old
   * script (empty when there was none, as the script is created empty first).
   */
  function WriteUserMigration(listing: seq<string>, previous: string, sources: map<string, string>): (r: Result<string, SynthesisError>)
  {
    RenderUserMigration(Artifacts(listing), ReadMigrationArgs(previous), sources)
  }

  // ---------------------------------------------------------------------------
  // Reading the script back

  lemma Notice1aOnOneLine() ensures NoLineTerminator(Notice1a) {}
  lemma Notice1bOnOneLine() ensures NoLineTerminator(Notice1b) {}
  lemma Notice1cOnOneLine() ensures NoLineTerminator(Notice1c) {}
  lemma Notice2aOnOneLine() ensures NoLineTerminator(Notice2a) {}
  lemma Notice2bOnOneLine() ensures NoLineTerminator(Notice2b) {}
  lemma Notice2cOnOneLine() ensures NoLineTerminator(Notice2c) {}

  lemma Notice1Quiet()
    ensures QuietLine(NoticeLine1, DeployCall)
  {
    Notice1aOnOneLine();
    Notice1bOnOneLine();
    Notice1cOnOneLine();
    NoLineTerminatorConcat(Notice1a, Notice1b);
    NoLineTerminatorConcat(Notice1a + Notice1b, Notice1c);
    DiffersFrom(NoticeLine1, DeployCall, 0);
    assert "" + NoticeLine1 == NoticeLine1;
    QuietOf("", NoticeLine1, DeployCall);
  }

  lemma Notice2Quiet()
    ensures QuietLine(NoticeLine2, DeployCall)
  {
    Notice2aOnOneLine();
    Notice2bOnOneLine();
    Notice2cOnOneLine();
    NoLineTerminatorConcat(Notice2a, Notice2b);
    NoLineTerminatorConcat(Notice2a + Notice2b, Notice2c);
    DiffersFrom(NoticeLine2, DeployCall, 0);
    assert "" + NoticeLine2 == NoticeLine2;
    QuietOf("", NoticeLine2, DeployCall);
  }

  lemma IdentifierOnOneLine(name: string)
    requires IsIdentifier(name)
    ensures NoLineTerminator(name)
  {
  }

  lemma RequireLineQuiet(artifact: string)
    requires IsIdentifier(artifact)
    ensures QuietLine(RequireLine(artifact), DeployCall)
  {
    var t := RequireLine(artifact);
    IdentifierOnOneLine(artifact);
    NoLineTerminatorConcat("const ", artifact);
    NoLineTerminatorConcat("const " + artifact, " = artifacts.require(\"");
    NoLineTerminatorConcat("const " + artifact + " = artifacts.require(\"", artifact);
    NoLineTerminatorConcat("const " + artifact + " = artifacts.require(\"" + artifact, "\")");
    DiffersFrom(t, DeployCall, 0);
    assert "" + t == t;
    QuietOf("", t, DeployCall);
  }

  lemma ExportsQuiet(lead: string)
    requires AllSpace(lead)
    ensures QuietLine(lead + ExportsLine, DeployCall)
  {
    DiffersFrom(ExportsLine, DeployCall, 0);
    QuietOf(lead, ExportsLine, DeployCall);
  }

  lemma LinkLineQuiet(artifacts: seq<string>)
    requires forall i :: 0 <= i < |artifacts| ==> IsIdentifier(artifacts[i])
    ensures QuietLine(LinkLine(artifacts), DeployCall)
  {
    var joined := Join(artifacts, ", ");
    var body := "deployer.link(Witnet, [" + joined + "])";
    forall i | 0 <= i < |artifacts| ensures NoLineTerminator(artifacts[i]) {
      IdentifierOnOneLine(artifacts[i]);
    }
    JoinNoLineTerminator(artifacts, ", ");
    NoLineTerminatorConcat("deployer.link(Witnet, [", joined);
    NoLineTerminatorConcat("deployer.link(Witnet, [" + joined, "])");
    DiffersFrom(body, DeployCall, 9);
    assert LinkLine(artifacts) == "  " + body;
    QuietOf("  ", body, DeployCall);
  }

  lemma CloseQuiet(lead: string)
    requires AllSpace(lead)
    ensures QuietLine(lead + "}", DeployCall)
  {
    DiffersFrom("}", DeployCall, 0);
    QuietOf(lead, "}", DeployCall);
  }

  /** The header: the notice and the two core contracts. */
  function HeaderLines(): seq<Line> {
    Quiets([NoticeLine1, NoticeLine2, RequireLine("Witnet"), RequireLine("WitnetBridgeInterface")])
  }

  /**
   * The script seen as lines. Without artifacts the two empty joins leave a
   * blank line before `module.exports` and one before the closing brace.
   */
  function ScriptLayout(artifacts: seq<string>, entries: seq<string>): seq<Line>
    requires |artifacts| == |entries|
  {
    if |artifacts| == 0 then
      HeaderLines() + Quiets(["\n\n" + ExportsLine, LinkLine(artifacts), "\n}"])
    else
      HeaderLines() + Quiets(RequireLines(artifacts) + ["\n" + ExportsLine, LinkLine(artifacts)])
      + Deployments(artifacts, entries) + Quiets(["}"])
  }

  lemma HeaderText()
    ensures LinesText(HeaderLines())
         == NoticeLine1 + "\n" + NoticeLine2 + "\n" + RequireLine("Witnet") + "\n" + RequireLine("WitnetBridgeInterface") + "\n"
  {
    var h := HeaderLines();
    assert h[1..][1..][1..][1..] == [];
  }

  lemma HeaderValid()
    ensures AllValid(HeaderLines(), DeployCall)
  {
    var xs := [NoticeLine1, NoticeLine2, RequireLine("Witnet"), RequireLine("WitnetBridgeInterface")];
    forall i | 0 <= i < |xs| ensures QuietLine(xs[i], DeployCall) {
      if i == 0 {
        Notice1Quiet();
      } else if i == 1 {
        Notice2Quiet();
      } else if i == 2 {
        RequireLineQuiet("Witnet");
      } else {
        RequireLineQuiet("WitnetBridgeInterface");
      }
    }
    QuietsValid(xs, DeployCall);
  }

  /** The same text, grouped as the lines group it. */
  lemma Regroup(h: string, j: string, e: string, l: string, k: string)
    ensures h + (j + "\n" + ("\n" + e + "\n" + l) + "\n") + (k + "\n") + ("}" + "\n")
         == h + j + "\n" + "\n" + e + "\n" + l + "\n" + k + "\n" + "}\n"
  {
  }

  lemma RegroupEmpty(h: string, e: string, l: string)
    ensures h + (("\n\n" + e) + "\n" + (l + "\n" + "\n}") + "\n")
         == h + "" + "\n" + "\n" + e + "\n" + l + "\n" + "" + "\n" + "}\n"
  {
  }

  /** The lines, each followed by a line feed, make up the script. */
  lemma LayoutText(artifacts: seq<string>, entries: seq<string>)
    requires |artifacts| == |entries|
    ensures LinesText(ScriptLayout(artifacts, entries)) == UserMigrationText(artifacts, entries)
  {
    if |artifacts| == 0 {
      LayoutTextEmpty(artifacts, entries);
    } else {
      LayoutTextSome(artifacts, entries);
    }
  }

  lemma LayoutTextEmpty(artifacts: seq<string>, entries: seq<string>)
    requires |artifacts| == |entries| == 0
    ensures LinesText(ScriptLayout(artifacts, entries)) == UserMigrationText(artifacts, entries)
  {
    var h := HeaderLines();
    var xs := ["\n\n" + ExportsLine, LinkLine(artifacts), "\n}"];
    HeaderText();
    LinesTextAppend(h, Quiets(xs));
    LinesTextJoin(Quiets(xs), xs);
    JoinThree(xs[0], xs[1], xs[2], "\n");
    RegroupEmpty(LinesText(h), ExportsLine, LinkLine(artifacts));
  }

  lemma LayoutTextSome(artifacts: seq<string>, entries: seq<string>)
    requires |artifacts| == |entries| > 0
    ensures LinesText(ScriptLayout(artifacts, entries)) == UserMigrationText(artifacts, entries)
  {
    var h := HeaderLines();
    var tail := ["\n" + ExportsLine, LinkLine(artifacts)];
    var q := Quiets(RequireLines(artifacts) + tail);
    var d := Deployments(artifacts, entries);
    var c := Quiets(["}"]);
    HeaderText();
    LinesTextFour(h, q, d, c);
    QuietsText(RequireLines(artifacts), tail);
    LinesTextJoin(d, entries);
    LinesTextJoin(c, ["}"]);
    Regroup(LinesText(h), Join(RequireLines(artifacts), "\n"), ExportsLine, LinkLine(artifacts), Join(entries, "\n"));
  }

  lemma QuietsText(lines: seq<string>, tail: seq<string>)
    requires |lines| > 0 && |tail| == 2
    ensures LinesText(Quiets(lines + tail)) == Join(lines, "\n") + "\n" + (tail[0] + "\n" + tail[1]) + "\n"
  {
    LinesTextJoin(Quiets(lines + tail), lines + tail);
    JoinAppend(lines, tail, "\n");
    assert tail[1..] == [tail[1]];
  }

  /** The only statements among the lines are the entries, each under its artifact. */
  lemma LayoutFound(artifacts: seq<string>, entries: seq<string>)
    requires |artifacts| == |entries|
    ensures Found(ScriptLayout(artifacts, entries)) == Zip(artifacts, entries)
  {
    FoundQuiets([NoticeLine1, NoticeLine2, RequireLine("Witnet"), RequireLine("WitnetBridgeInterface")]);
    if |artifacts| == 0 {
      var xs := ["\n\n" + ExportsLine, LinkLine(artifacts), "\n}"];
      FoundAppend(HeaderLines(), Quiets(xs));
      FoundQuiets(xs);
    } else {
      LayoutFoundSome(artifacts, entries);
    }
  }

  lemma LayoutFoundSome(artifacts: seq<string>, entries: seq<string>)
    requires |artifacts| == |entries| > 0
    requires Found(HeaderLines()) == []
    ensures Found(ScriptLayout(artifacts, entries)) == Zip(artifacts, entries)
  {
    var xs := RequireLines(artifacts) + ["\n" + ExportsLine, LinkLine(artifacts)];
    FoundBetweenQuiets(HeaderLines(), xs, artifacts, entries, ["}"]);
  }

  /** Quiet lines around deployments leave only the deployments to be found. */
  lemma FoundBetweenQuiets(h: seq<Line>, xs: seq<string>, names: seq<string>, texts: seq<string>, ys: seq<string>)
    requires |names| == |texts| && Found(h) == []
    ensures Found(h + Quiets(xs) + Deployments(names, texts) + Quiets(ys)) == Zip(names, texts)
  {
    FoundFour(h, Quiets(xs), Deployments(names, texts), Quiets(ys));
    FoundQuiets(xs);
    FoundDeployments(names, texts);
    FoundQuiets(ys);
  }

  /** Every line of the script is quiet or one whole statement. */
  lemma LayoutValid(artifacts: seq<string>, entries: seq<string>)
    requires |artifacts| == |entries|
    requires forall i :: 0 <= i < |artifacts| ==> IsIdentifier(artifacts[i])
    requires forall i :: 0 <= i < |entries| ==> IsStatement(entries[i], artifacts[i])
    ensures AllValid(ScriptLayout(artifacts, entries), DeployCall)
  {
    HeaderValid();
    if |artifacts| == 0 {
      var xs := ["\n\n" + ExportsLine, LinkLine(artifacts), "\n}"];
      EmptyTailQuiet(xs);
      QuietsValid(xs, DeployCall);
      AllValidAppend(HeaderLines(), Quiets(xs), DeployCall);
    } else {
      LayoutValidSome(artifacts, entries);
    }
  }

  lemma EmptyTailQuiet(xs: seq<string>)
    requires xs == ["\n\n" + ExportsLine, LinkLine([]), "\n}"]
    ensures forall i :: 0 <= i < |xs| ==> QuietLine(xs[i], DeployCall)
  {
    forall i | 0 <= i < |xs| ensures QuietLine(xs[i], DeployCall) {
      if i == 0 {
        ExportsQuiet("\n\n");
      } else if i == 1 {
        LinkLineQuiet([]);
      } else {
        CloseQuiet("\n");
      }
    }
  }

  lemma LayoutValidSome(artifacts: seq<string>, entries: seq<string>)
    requires |artifacts| == |entries| > 0
    requires forall i :: 0 <= i < |artifacts| ==> IsIdentifier(artifacts[i])
    requires forall i :: 0 <= i < |entries| ==> IsStatement(entries[i], artifacts[i])
    requires AllValid(HeaderLines(), DeployCall)
    ensures AllValid(ScriptLayout(artifacts, entries), DeployCall)
  {
    var h := HeaderLines();
    var xs := RequireLines(artifacts) + ["\n" + ExportsLine, LinkLine(artifacts)];
    var d := Deployments(artifacts, entries);
    RequiresQuiet(artifacts, xs);
    QuietsValid(xs, DeployCall);
    DeploymentsValid(artifacts, entries, DeployCall);
    CloseQuiet("");
    assert "" + "}" == "}";
    QuietsValid(["}"], DeployCall);
    AllValidAppend(h, Quiets(xs), DeployCall);
    AllValidAppend(h + Quiets(xs), d, DeployCall);
    AllValidAppend(h + Quiets(xs) + d, Quiets(["}"]), DeployCall);
  }

  lemma RequiresQuiet(artifacts: seq<string>, xs: seq<string>)
    requires forall i :: 0 <= i < |artifacts| ==> IsIdentifier(artifacts[i])
    requires xs == RequireLines(artifacts) + ["\n" + ExportsLine, LinkLine(artifacts)]
    ensures forall i :: 0 <= i < |xs| ==> QuietLine(xs[i], DeployCall)
  {
    forall i | 0 <= i < |xs| ensures QuietLine(xs[i], DeployCall) {
      if i < |artifacts| {
        RequireLineQuiet(artifacts[i]);
      } else if i == |artifacts| {
        ExportsQuiet("\n");
      } else {
        LinkLineQuiet(artifacts);
      }
    }
  }

  /** An object built from names paired with texts, where a repeated name always comes with the same text. */
  lemma ZipLookup(names: seq<string>, texts: seq<string>)
    requires |names| == |texts|
    requires forall i, j :: 0 <= i < |names| && 0 <= j < |names| && names[i] == names[j] ==> texts[i] == texts[j]
    ensures forall i :: 0 <= i < |names| ==>
              names[i] in FromPairs(Zip(names, texts)) && FromPairs(Zip(names, texts))[names[i]] == texts[i]
  {
    var ps := Zip(names, texts);
    forall i | 0 <= i < |names|
      ensures names[i] in FromPairs(ps) && FromPairs(ps)[names[i]] == texts[i]
    {
      assert ps[i].0 == names[i];
      assert HasKey(ps, names[i]);
      FromPairsValue(ps, names[i]);
    }
  }

  /**
   * Reading back a script whose entries are statements of their artifacts
   * finds each artifact with its entry.
   */
  lemma RereadEntries(artifacts: seq<string>, entries: seq<string>)
    requires |artifacts| == |entries|
    requires forall i :: 0 <= i < |artifacts| ==> IsIdentifier(artifacts[i])
    requires forall i :: 0 <= i < |entries| ==> IsStatement(entries[i], artifacts[i])
    requires forall i, j :: 0 <= i < |artifacts| && 0 <= j < |artifacts| && artifacts[i] == artifacts[j] ==> entries[i] == entries[j]
    ensures MatchAll(UserMigrationText(artifacts, entries), DeployCall) == Zip(artifacts, entries)
    ensures forall i :: 0 <= i < |artifacts| ==>
              && artifacts[i] in ReadMigrationArgs(UserMigrationText(artifacts, entries))
              && ReadMigrationArgs(UserMigrationText(artifacts, entries))[artifacts[i]] == entries[i]
  {
    var ls := ScriptLayout(artifacts, entries);
    LayoutText(artifacts, entries);
    LayoutFound(artifacts, entries);
    LayoutValid(artifacts, entries);
    DeployCallShape();
    ScanOfLines(ls, DeployCall);
    ZipLookup(artifacts, entries);
  }

  /**
   * Writing the script again from its own output gives the same script:
   * every entry is found again under its artifact and reused verbatim,
   * provided the artifact names are identifiers (the name the pattern
   * captures is a run of word characters).
   */
  lemma RenderIdempotent(artifacts: seq<string>, existing: map<string, string>, sources: map<string, string>, text: string)
    requires forall i :: 0 <= i < |artifacts| ==> IsIdentifier(artifacts[i])
    requires forall name :: name in existing ==> IsStatement(existing[name], name)
    requires RenderUserMigration(artifacts, existing, sources) == Ok(text)
    ensures RenderUserMigration(artifacts, ReadMigrationArgs(text), sources) == Ok(text)
  {
    var entries := Entries(artifacts, existing, sources).value;
    EntriesAreStatements(artifacts, existing, sources);
    RereadEntries(artifacts, entries);
    EntriesReused(artifacts, existing, ReadMigrationArgs(text), sources);
  }

  /** Rendered entries are statements of their artifacts, one per name. */
  lemma EntriesAreStatements(artifacts: seq<string>, existing: map<string, string>, sources: map<string, string>)
    requires forall i :: 0 <= i < |artifacts| ==> IsIdentifier(artifacts[i])
    requires forall name :: name in existing ==> IsStatement(existing[name], name)
    requires Entries(artifacts, existing, sources).Ok?
    ensures |Entries(artifacts, existing, sources).value| == |artifacts|
    ensures forall i :: 0 <= i < |artifacts| ==> IsStatement(Entries(artifacts, existing, sources).value[i], artifacts[i])
    ensures forall i, j :: 0 <= i < |artifacts| && 0 <= j < |artifacts| && artifacts[i] == artifacts[j] ==>
              Entries(artifacts, existing, sources).value[i] == Entries(artifacts, existing, sources).value[j]
  {
    var entries := Entries(artifacts, existing, sources).value;
    forall i | 0 <= i < |artifacts| ensures IsStatement(entries[i], artifacts[i]) {
      EntryIsStatement(artifacts[i], existing, sources);
    }
  }

  /** Entries looked up in a map that holds every entry already rendered are those entries again. */
  lemma EntriesReused(artifacts: seq<string>, existing: map<string, string>, again: map<string, string>, sources: map<string, string>)
    requires Entries(artifacts, existing, sources).Ok?
    requires forall i :: 0 <= i < |artifacts| ==>
               artifacts[i] in again && again[artifacts[i]] == Entries(artifacts, existing, sources).value[i]
    ensures Entries(artifacts, again, sources) == Entries(artifacts, existing, sources)
  {
    var entries := Entries(artifacts, existing, sources).value;
    var next := Entries(artifacts, again, sources);
    assert next.Ok?;
    assert next.value == entries;
  }

  /** `writeMigrations` run twice in a row writes the same user script both times. */
  lemma WriteIdempotent(listing: seq<string>, previous: string, sources: map<string, string>, text: string)
    requires forall i :: 0 <= i < |Artifacts(listing)| ==> IsIdentifier(Artifacts(listing)[i])
    requires WriteUserMigration(listing, previous, sources) == Ok(text)
    ensures WriteUserMigration(listing, text, sources) == Ok(text)
  {
    RenderIdempotent(Artifacts(listing), ReadMigrationArgs(previous), sources, text);
  }
}

