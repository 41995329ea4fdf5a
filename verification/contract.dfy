/**
 * The wrapper contract generated for each request file (`intoSol`) and the
 * name of the file it is written to (`writeSol`).
 */
module Contract {
  import opened Prelude
  import opened JsText
  import Hex

  /** `fileName.replace(/\.js/, "")`: the first ".js", wherever it is, is removed. */
  function ContractName(fileName: string): string {
    ReplaceFirst(fileName, ".js", "")
  }

  /** `fileName.replace(/\.js/, ".sol")`. */
  function SolFileName(fileName: string): string {
    ReplaceFirst(fileName, ".js", ".sol")
  }

  // The fixed parts of the Solidity template, in order.
  const Preamble: string := "pragma solidity ^0.5.0;\n\nimport \"witnet-ethereum-bridge/contracts/Request.sol\";\n\n// The bytecode of the "
  const Purpose: string := PurposeHead + "contract "
  const Opening: string := "Request is Request" + OpeningTail + "hex\""
  const Closing: string := "\"" + ClosingTail

  // Where the declaration and the literal sit inside the fixed parts.
  const PurposeHead: string := " request that will be sent to Witnet\n"
  const OpeningTail: string := " {\n  constructor () Request("
  const ClosingTail: string := ") public { }\n}\n"

  /** `intoSol(hex, fileName)`: a contract `<name>Request` passing the payload to the `Request` constructor. */
  function IntoSol(hex: string, fileName: string): string {
    var name := ContractName(fileName);
    Preamble + name + Purpose + name + Opening + hex + Closing
  }

  /**
   * The contract name and the output file name come from the same ".js"
   * occurrence: the first one, which the name drops and the file name turns
   * into ".sol"; without one both are the file name itself.
   */
  lemma FileNaming(fileName: string)
    ensures !Contains(fileName, ".js") ==> ContractName(fileName) == fileName && SolFileName(fileName) == fileName
    ensures Contains(fileName, ".js") ==>
      exists i: nat :: && OccursAt(fileName, ".js", i)
                       && (forall j: nat :: j < i ==> !OccursAt(fileName, ".js", j))
                       && ContractName(fileName) == fileName[..i] + fileName[i + 3..]
                       && SolFileName(fileName) == fileName[..i] + ".sol" + fileName[i + 3..]
  {
    if Contains(fileName, ".js") {
      var i := IndexOf(fileName, ".js").value;
      assert ContractName(fileName) == fileName[..i] + fileName[i + 3..];
      assert SolFileName(fileName) == fileName[..i] + ".sol" + fileName[i + 3..];
    }
  }

  /**
   * For a file `<base>.js` whose base holds no earlier ".js", the contract is
   * named `<base>` and written to `<base>.sol`.
   */
  lemma PlainFileNaming(base: string)
    requires !Contains(base + ".j", ".js")
    ensures ContractName(base + ".js") == base
    ensures SolFileName(base + ".js") == base + ".sol"
  {
    var f := base + ".js";
    assert OccursAt(f, ".js", |base|) by { assert f[|base|..|base| + 3] == ".js"; }
    forall j: nat | j < |base|
      ensures !OccursAt(f, ".js", j)
    {
      if OccursAt(f, ".js", j) {
        assert (base + ".j")[j..j + 3] == f[j..j + 3];
        assert OccursAt(base + ".j", ".js", j);
      }
    }
    assert IndexOf(f, ".js") == Some(|base|);
    assert f[..|base|] == base;
    assert f[|base| + 3..] == [];
  }

  /** The generated source declares `<name>Request is Request` and embeds `hex"<payload>"` verbatim. */
  lemma IntoSolDeclaresContract(hex: string, fileName: string)
    ensures Contains(IntoSol(hex, fileName), "contract " + ContractName(fileName) + "Request is Request")
    ensures Contains(IntoSol(hex, fileName), "hex\"" + hex + "\"")
  {
    var name := ContractName(fileName);
    var declaration := "contract " + name + "Request is Request";
    var literal := "hex\"" + hex + "\"";
    var before := Preamble + name + PurposeHead;
    var after := OpeningTail + literal + ClosingTail;
    Regroup(Preamble, name, PurposeHead, OpeningTail, hex, ClosingTail);
    ContainsMiddle(before, declaration, after);
    ContainsMiddle(before + declaration + OpeningTail, literal, ClosingTail);
  }

  lemma Regroup(p: string, name: string, ph: string, ot: string, hex: string, ct: string)
    ensures p + name + (ph + "contract ") + name + ("Request is Request" + ot + "hex\"") + hex + ("\"" + ct)
         == (p + name + ph) + ("contract " + name + "Request is Request") + (ot + ("hex\"" + hex + "\"") + ct)
    ensures (p + name + ph) + ("contract " + name + "Request is Request") + (ot + ("hex\"" + hex + "\"") + ct)
         == ((p + name + ph) + ("contract " + name + "Request is Request") + ot) + ("hex\"" + hex + "\"") + ct
  {
  }

  // ---------------------------------------------------------------------------
  // Reading the payload back, the partner of the template

  /** The hexadecimal literal just before the closing lines of a generated contract. */
  function ExtractPayload(sol: string): Option<string> {
    if !EndsWith(sol, Closing) then None
    else
      var body := sol[..|sol| - |Closing|];
      var n := TrailingRunLength(body, Hex.IsLowerHexDigit);
      if EndsWith(body[..|body| - n], "hex\"") then Some(body[|body| - n..]) else None
  }

  /** Whatever the file name, a payload of lower-case hex digits is read back exactly from the contract. */
  lemma ExtractIntoSol(hex: string, fileName: string)
    requires forall k :: 0 <= k < |hex| ==> Hex.IsLowerHexDigit(hex[k])
    ensures ExtractPayload(IntoSol(hex, fileName)) == Some(hex)
  {
    var name := ContractName(fileName);
    var lead := Preamble + name + Purpose + name + "Request is Request" + OpeningTail;
    assert IntoSol(hex, fileName) == lead + "hex\"" + hex + Closing;
    ExtractAfterLiteral(lead, hex);
  }

  /** Text ending in `hex"`, the payload and the closing lines give the payload back. */
  lemma ExtractAfterLiteral(lead: string, hex: string)
    requires forall k :: 0 <= k < |hex| ==> Hex.IsLowerHexDigit(hex[k])
    ensures ExtractPayload(lead + "hex\"" + hex + Closing) == Some(hex)
  {
    var head := lead + "hex\"";
    var sol := head + hex + Closing;
    assert sol[..|sol| - |Closing|] == head + hex;
    assert sol[|sol| - |Closing|..] == Closing;
    assert head[|head| - 1] == '"';
    TrailingRunLengthAppend(head, hex, Hex.IsLowerHexDigit);
    assert (head + hex)[..|head|] == head;
    assert (head + hex)[|head|..] == hex;
    assert head[|head| - 4..] == "hex\"";
  }
}
