/**
 * Constructor-argument inference for user contracts: `readSolidityArgs`
 * pulls the parameter list out of a contract's source with the regular
 * expression `/constructor\s*\(([\w\s,]*)/m`, and `mockSolidityArgs` turns
 * each comma-separated parameter into a placeholder value chosen by its type.
 * Mock values are given as the text `Array.prototype.join` renders them with
 * (the number 0 as "0", `false` as "false").
 */
module ConstructorArgs {
  import opened Prelude
  import opened JsText

  /** Why no deployment entry could be synthesised for a contract. */
  datatype SynthesisError =
    | SourceMissing(fileName: string)   // reading `<artifact>.sol` failed
    | NoConstructor(artifact: string)   // the regex did not match, and `null[1]` threw

  const Keyword: string := "constructor"

  /** The class `[\w\s,]` of the parameter-list capture. */
  predicate IsParamChar(c: char) {
    IsWordChar(c) || IsSpace(c) || c == ','
  }

  /** Where `\(` must be for a match that starts with "constructor" at `p`: right after the white space. */
  function OpenParenAt(s: string, p: nat): nat
    requires OccursAt(s, Keyword, p)
  {
    p + |Keyword| + RunLength(s[p + |Keyword|..], IsSpace)
  }

  /** `constructor\s*\(` matches at `p`. */
  predicate SignatureAt(s: string, p: nat) {
    OccursAt(s, Keyword, p) && OpenParenAt(s, p) < |s| && s[OpenParenAt(s, p)] == '('
  }

  /** `x` is the greedy capture `[\w\s,]*` starting at `i`. */
  ghost predicate ParamListAt(s: string, i: nat, x: string) {
    && OccursAt(s, x, i)
    && (forall k :: 0 <= k < |x| ==> IsParamChar(x[k]))
    && (i + |x| == |s| || !IsParamChar(s[i + |x|]))
  }

  /** The leftmost match start at or after `from`. */
  function FindSignature(s: string, from: nat): (r: Option<nat>)
    ensures r.Some? ==> from <= r.value && SignatureAt(s, r.value)
    decreases |s| - from
  {
    if from + |Keyword| > |s| then None
    else if SignatureAt(s, from) then Some(from)
    else FindSignature(s, from + 1)
  }

  /** No match starts before the one found. */
  lemma FindSignatureLeftmost(s: string, from: nat, p: nat)
    requires FindSignature(s, from) == Some(p)
    ensures forall q: nat :: from <= q < p ==> !SignatureAt(s, q)
  {
    forall q: nat | from <= q < p ensures !SignatureAt(s, q) {
      FindSignatureSkips(s, from, p, q);
    }
  }

  /** The search passes over every index before the one it finds. */
  lemma {:induction false} FindSignatureSkips(s: string, from: nat, p: nat, q: nat)
    requires FindSignature(s, from) == Some(p) && from <= q < p
    ensures !SignatureAt(s, q)
    decreases |s| - from
  {
    if from < q {
      FindSignatureSkips(s, from + 1, p, q);
    }
  }

  /** When none is found, no match starts at or after `from`. */
  lemma {:induction false} FindSignatureNone(s: string, from: nat)
    requires FindSignature(s, from).None?
    ensures forall q: nat :: from <= q ==> !SignatureAt(s, q)
    decreases |s| - from
  {
    if from + |Keyword| <= |s| {
      FindSignatureNone(s, from + 1);
    } else {
      forall q: nat | from <= q ensures !OccursAt(s, Keyword, q) {
      }
    }
  }

  /** No signature starts before `p`. */
  ghost predicate NoSignatureBefore(s: string, p: nat) {
    forall q: nat :: q < p ==> !SignatureAt(s, q)
  }

  /** `x` is the capture of the match starting at `p`, the leftmost one. */
  ghost predicate FirstCapture(s: string, p: nat, x: string) {
    && SignatureAt(s, p)
    && NoSignatureBefore(s, p)
    && ParamListAt(s, OpenParenAt(s, p) + 1, x)
  }

  /** The capture group of the first match, or `None` when there is no match. */
  function ParameterList(content: string): (r: Option<string>)
    ensures r.None? <==> forall p: nat :: !SignatureAt(content, p)
    ensures r.Some? ==> exists p: nat :: FirstCapture(content, p, r.value)
  {
    match FindSignature(content, 0)
    case None =>
      FindSignatureNone(content, 0);
      None
    case Some(p) =>
      FirstCaptureAt(content, p);
      Some(ParamRun(content, OpenParenAt(content, p) + 1))
  }

  /** The run of parameter characters starting at `i`. */
  function ParamRun(s: string, i: nat): (x: string)
    requires i <= |s|
    ensures i + |x| <= |s|
  {
    s[i..i + RunLength(s[i..], IsParamChar)]
  }

  /** The signature the search finds yields the capture of the leftmost match. */
  lemma FirstCaptureAt(s: string, p: nat)
    requires FindSignature(s, 0) == Some(p)
    ensures FirstCapture(s, p, ParamRun(s, OpenParenAt(s, p) + 1))
  {
    FoundFirst(s, p);
    GreedyCapture(s, OpenParenAt(s, p) + 1);
  }

  /** The signature the search finds from the start is the leftmost one. */
  lemma FoundFirst(s: string, p: nat)
    requires FindSignature(s, 0) == Some(p)
    ensures SignatureAt(s, p) && NoSignatureBefore(s, p)
  {
    FindSignatureLeftmost(s, 0, p);
  }

  /** The run of parameter characters at `i` is the greedy capture there. */
  lemma GreedyCapture(s: string, i: nat)
    requires i <= |s|
    ensures ParamListAt(s, i, ParamRun(s, i))
  {
    var n := RunLength(s[i..], IsParamChar);
    var x := ParamRun(s, i);
    assert x == s[i..][..n];
    forall k | 0 <= k < |x| ensures IsParamChar(x[k]) {
      assert x[k] == s[i..][k];
    }
    if i + n < |s| {
      assert s[i + n] == s[i..][n];
    }
  }

  /** `readSolidityArgs(artifact)`, with the contract sources given as a map from file name to text. */
  function ReadSolidityArgs(sources: map<string, string>, artifact: string): (r: Result<string, SynthesisError>)
    ensures artifact + ".sol" !in sources ==> r == Err(SourceMissing(artifact + ".sol"))
    ensures artifact + ".sol" in sources ==>
      (r.Err? <==> ParameterList(sources[artifact + ".sol"]).None?)
    ensures r.Err? ==> r.error.SourceMissing? || r.error == NoConstructor(artifact)
    ensures r.Ok? ==> r.value == ParameterList(sources[artifact + ".sol"]).value
  {
    var fileName := artifact + ".sol";
    if fileName !in sources then Err(SourceMissing(fileName))
    else
      match ParameterList(sources[fileName])
      case None => Err(NoConstructor(artifact))
      case Some(x) => Ok(x)
  }

  // ---------------------------------------------------------------------------
  // Mock values

  const ZeroMock: string := "0"
  const StringMock: string := "\"CHANGEME\""
  const BytesMock: string := "\"DEADC0FFEE\""
  const AddressMock: string := "\"0x0000000000000000000000000000000000000000\""
  const BoolMock: string := "false"
  /** What an `address _wbi` parameter receives: the bridge deployed by the core migration. */
  const BridgeReference: string := "WitnetBridgeInterface.address"

  const IntegerTypes: set<string> := {
    "uint", "uint8", "uint16", "uint32", "uint64", "uint128", "uint256",
    "int", "int8", "int16", "int32", "int64", "int128", "int256"
  }

  /** The `mocks` table: its own properties and their values. */
  function TableMock(typeName: string): Option<string> {
    if typeName in IntegerTypes then Some(ZeroMock)
    else if typeName == "string" then Some(StringMock)
    else if typeName == "bytes" then Some(BytesMock)
    else if typeName == "address" then Some(AddressMock)
    else if typeName == "bool" then Some(BoolMock)
    else None
  }

  /** The mock for a type and an optional name: the bridge test first, then the table, then 0. */
  function MockFor(typeName: string, name: Option<string>): string {
    if typeName == "address" && name == Some("_wbi") then BridgeReference
    else match TableMock(typeName)
      case Some(m) => m
      case None => ZeroMock
  }

  /** The mock for one comma-separated piece: `const [type, argName] = arg.trim().split(" ")`. */
  function MockParameter(piece: string): string {
    var words := Split(Trim(piece), ' ');
    MockFor(words[0], if |words| > 1 then Some(words[1]) else None)
  }

  /** `mockSolidityArgs(args)`: one mock per comma-separated piece, in order. */
  function MockSolidityArgs(args: string): (mocks: seq<string>)
    ensures |mocks| == |Split(args, ',')|
    ensures forall i :: 0 <= i < |mocks| ==> mocks[i] == MockParameter(Split(args, ',')[i])
  {
    MapAll(Split(args, ','), MockParameter)
  }

  /**
   * A piece without a comma gets one mock, and a list that starts with such
   * a piece gets that piece's mock followed by the mocks of the rest.
   */
  lemma MocksCons(a: string, b: string)
    requires ',' !in a
    ensures MockSolidityArgs(a) == [MockParameter(a)]
    ensures MockSolidityArgs(a + "," + b) == [MockParameter(a)] + MockSolidityArgs(b)
  {
    SplitCons(a, b, ',');
    assert a + "," + b == a + [','] + b;
    MapCons(MockParameter, a, Split(b, ','));
    MapCons(MockParameter, a, []);
  }

  /** A declared constructor parameter. */
  datatype Param = Param(typeName: string, name: string)

  /** A parameter as it is written in a signature, without the surrounding white space. */
  function Declaration(p: Param): string {
    p.typeName + " " + p.name
  }

  /** A type or a name: a non-empty run of word characters. */
  predicate IsIdentifier(s: string) {
    |s| > 0 && AllWordChars(s)
  }

  /** A piece of a parameter list holding one declaration, padded with white space. */
  ghost predicate DeclaresParam(piece: string, p: Param) {
    exists pre: string, post: string ::
      && AllSpace(pre) && AllSpace(post)
      && piece == pre + Declaration(p) + post
  }

  /**
   * The mock of a declared parameter depends on its type as the table says,
   * except that `address _wbi` is looked at first and gets the bridge:
   * integer types give 0, `string`, `bytes`, `address`, `bool` their
   * literals, and any other type 0.
   */
  lemma MockOfDeclaration(piece: string, p: Param)
    requires IsIdentifier(p.typeName) && IsIdentifier(p.name)
    requires DeclaresParam(piece, p)
    ensures p.typeName == "address" && p.name == "_wbi" ==> MockParameter(piece) == BridgeReference
    ensures p.typeName == "address" && p.name != "_wbi" ==> MockParameter(piece) == AddressMock
    ensures p.typeName in IntegerTypes ==> MockParameter(piece) == ZeroMock
    ensures p.typeName == "string" ==> MockParameter(piece) == StringMock
    ensures p.typeName == "bytes" ==> MockParameter(piece) == BytesMock
    ensures p.typeName == "bool" ==> MockParameter(piece) == BoolMock
    ensures p.typeName !in IntegerTypes + {"string", "bytes", "address", "bool"} ==> MockParameter(piece) == ZeroMock
  {
    WordsOfDeclaration(piece, p);
    assert MockParameter(piece) == MockFor(p.typeName, Some(p.name));
    MockTable(p.typeName, p.name);
  }

  lemma MockTable(typeName: string, name: string)
    ensures typeName == "address" && name == "_wbi" ==> MockFor(typeName, Some(name)) == BridgeReference
    ensures typeName == "address" && name != "_wbi" ==> MockFor(typeName, Some(name)) == AddressMock
    ensures typeName in IntegerTypes ==> MockFor(typeName, Some(name)) == ZeroMock
    ensures typeName == "string" ==> MockFor(typeName, Some(name)) == StringMock
    ensures typeName == "bytes" ==> MockFor(typeName, Some(name)) == BytesMock
    ensures typeName == "bool" ==> MockFor(typeName, Some(name)) == BoolMock
    ensures typeName !in IntegerTypes + {"string", "bytes", "address", "bool"} ==> MockFor(typeName, Some(name)) == ZeroMock
  {
  }

  /** Trimming and splitting on a space recovers the type and the name. */
  lemma WordsOfDeclaration(piece: string, p: Param)
    requires IsIdentifier(p.typeName) && IsIdentifier(p.name)
    requires DeclaresParam(piece, p)
    ensures Split(Trim(piece), ' ') == [p.typeName, p.name]
  {
    TrimDeclaration(piece, p);
    SplitDeclaration(p);
  }

  /** Trimming a padded declaration leaves the declaration. */
  lemma TrimDeclaration(piece: string, p: Param)
    requires IsIdentifier(p.typeName) && IsIdentifier(p.name)
    requires DeclaresParam(piece, p)
    ensures Trim(piece) == Declaration(p)
  {
    var pre: string, post: string :| AllSpace(pre) && AllSpace(post) && piece == pre + Declaration(p) + post;
    var d := Declaration(p);
    assert d[0] == p.typeName[0];
    assert d[|d| - 1] == p.name[|p.name| - 1];
    TrimPadded(pre, d, post);
  }

  /** A declaration splits on its one space into the type and the name. */
  lemma SplitDeclaration(p: Param)
    requires IsIdentifier(p.typeName) && IsIdentifier(p.name)
    ensures Split(Declaration(p), ' ') == [p.typeName, p.name]
  {
    assert Declaration(p) == Join([p.typeName, p.name], [' ']);
    assert ' ' !in p.typeName && ' ' !in p.name by {
      assert !IsWordChar(' ');
    }
    SplitJoin([p.typeName, p.name], ' ');
  }

  lemma DeclaresItself(p: Param)
    ensures DeclaresParam(Declaration(p), p)
  {
    assert Declaration(p) == "" + Declaration(p) + "";
    assert AllSpace("");
  }

  /** An empty parameter list still yields one mock, the number 0. */
  lemma EmptyParameterList()
    ensures MockSolidityArgs("") == [ZeroMock]
  {
    assert Split("", ',') == [""];
    assert Trim("") == "";
    assert Split("", ' ') == [""];
  }

  /**
   * A parameter list made of declarations separated by commas gets exactly
   * one mock per declaration, in declaration order.
   */
  lemma MocksFollowDeclarations(pieces: seq<string>, params: seq<Param>)
    requires |pieces| == |params| >= 1
    requires forall i :: 0 <= i < |params| ==> IsIdentifier(params[i].typeName) && IsIdentifier(params[i].name)
    requires forall i :: 0 <= i < |pieces| ==> DeclaresParam(pieces[i], params[i])
    ensures |MockSolidityArgs(Join(pieces, ","))| == |params|
    ensures forall i :: 0 <= i < |params| ==> MockSolidityArgs(Join(pieces, ","))[i] == MockParameter(Declaration(params[i]))
  {
    forall i | 0 <= i < |pieces|
      ensures ',' !in pieces[i]
      ensures MockParameter(pieces[i]) == MockParameter(Declaration(params[i]))
    {
      var pre: string, post: string :| AllSpace(pre) && AllSpace(post) && pieces[i] == pre + Declaration(params[i]) + post;
      NoCommaInDeclaration(pre, Declaration(params[i]), post, params[i]);
      DeclaresItself(params[i]);
      WordsOfDeclaration(pieces[i], params[i]);
      WordsOfDeclaration(Declaration(params[i]), params[i]);
    }
    SplitJoin(pieces, ',');
  }

  lemma NoCommaInDeclaration(pre: string, d: string, post: string, p: Param)
    requires AllSpace(pre) && AllSpace(post) && IsIdentifier(p.typeName) && IsIdentifier(p.name)
    requires d == Declaration(p)
    ensures ',' !in pre + d + post
  {
    var s := pre + d + post;
    forall k | 0 <= k < |s|
      ensures s[k] != ','
    {
      if k < |pre| {
        assert s[k] == pre[k];
      } else if k < |pre| + |p.typeName| {
        assert s[k] == p.typeName[k - |pre|];
      } else if k == |pre| + |p.typeName| {
        assert s[k] == ' ';
      } else if k < |pre| + |d| {
        assert s[k] == p.name[k - |pre| - |p.typeName| - 1];
      } else {
        assert s[k] == post[k - |pre| - |d|];
      }
    }
  }
}
