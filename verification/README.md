# Witnet request compiler and realm configuration, in Dafny

This project models the logic of the Witnet price-feed tutorial's request compiler,
`witnet/lib/rad2sol.js`, and of the realm and network selection in `truffle-config.js`.
The model is a set of pure functions over immutable data. The lemmas state what the
JavaScript promises.

- **Packing** (`Packing`). `pack` replaces the `script` of every retrieval branch, of the
  aggregation and of the tally with its CBOR encoding, and copies every other field.
  Descriptors are JavaScript values: objects, arrays, strings, numbers, buffers, `null`
  and `undefined`. The TypeErrors that `pack` throws on missing parts are modelled as errors.
- **Payload and contract** (`Hex`, `Contract`).
  - The hexadecimal rendering of the Protocol Buffers bytes.
  - The contract name and output file name derived from the request file name.
  - The Solidity template of `intoSol`.
- **Migration synthesis** (`Migrations`, `ConstructorArgs`, `ScriptLines`, `MigrationScript`).
  - The artifact names taken from the contracts directory.
  - The `constructor\s*\(([\w\s,]*)` scan of `readSolidityArgs`.
  - The type-directed mocks of `mockSolidityArgs`.
  - The `^\s*deployer\.deploy\([\s\n]*(\w+)[^)]*\)` global scan of `readMigrationArgs`, with
    `matchAll`, and the object it reduces to.
  - The text of `3_user_contracts.js` as `writeMigrations` writes it. Reading that text back
    finds exactly its entries, so a second run writes the same script.
- **Error translation** (`Diagnostics`). The classification in the `catch` of `execute`:
  - a missing export;
  - a missing import of a known library export;
  - an error rethrown unchanged.
- **Realms and networks** (`TruffleConfig`).
  - The realm from `WITNET_EVM_REALM` and `--network <realm>.<chain>`.
  - The rekeying of the networks of each realm.
  - The final `networks` object.

`Objects.FromPairs` stands for the JavaScript idiom used throughout the source: building an
object by spreading one key at a time (`{ ...acc, [k]: v }`). A key is present exactly when
some pair has it, and it holds the value of the last pair that has it. Strings are
`seq<char>`. Regular expressions are explicit scanners; their contracts state the
leftmost, greedy semantics of the pattern.

## Model

| member | source | states |
|---|---|---|
| Packing.PackScriptSpec | witnet/lib/rad2sol.js:176-179 | Packing one script holder fails exactly when the holder is `null` or `undefined`. Otherwise the result has the holder's keys plus `script`. `script` holds the encoding of the old script, and every other field is copied unchanged. |
| Packing.PackBranches | witnet/lib/rad2sol.js:175-177 | Packing the branches keeps their number and order, and packs each branch as a holder. It fails exactly when some branch is nullish. |
| Packing.PackFailsIff | witnet/lib/rad2sol.js:174-181 | `pack` succeeds exactly when all of these hold: the descriptor and its `data_request` are not nullish; `retrieve` is a buffer, or an array with no nullish branch; `aggregate` and `tally` are not nullish. |
| Packing.PackBufferRetrieve | witnet/lib/rad2sol.js:175-177 | A buffer in place of the branch list does not make `pack` throw: the inherited typed-array `map` stores each returned object as the byte 0. |
| Packing.PackSpec | witnet/lib/rad2sol.js:174-182 | After a successful `pack`: (1) the descriptor changes only in `data_request`; (2) the request changes only in `retrieve`, `aggregate` and `tally`; (3) an array `retrieve` has as many branches as before, in order, each with its script encoded, and a buffer `retrieve` becomes as many zero bytes; (4) the aggregation and the tally have their scripts encoded. |
| Packing.UnpackPack | witnet/lib/rad2sol.js:174-182 | With a decoder that inverts the CBOR encoder, decoding the scripts of a packed well-formed descriptor gives back the original descriptor. So `pack` loses nothing. |
| Hex.ToHex | witnet/lib/rad2sol.js:52 | `buff.toString("hex")` has two lower-case hex digits per byte. |
| Hex.FromToHex | witnet/lib/rad2sol.js:52 | Decoding the hex rendering of any bytes gives the bytes back. |
| Hex.ToFromHex | witnet/lib/rad2sol.js:52 | Every hex text that decodes is the rendering of what it decodes to. |
| JsText.ReplaceFirst | witnet/lib/rad2sol.js:190 | `replace` with a flagless pattern changes only the leftmost occurrence, and leaves a text without one unchanged. |
| Contract.FileNaming | witnet/lib/rad2sol.js:189-206 | The contract name drops the first ".js" of the file name, wherever it sits. The output file name turns that same occurrence into ".sol". Without ".js" both are the file name itself. |
| Contract.PlainFileNaming | witnet/lib/rad2sol.js:189-206 | For `<base>.js` with no earlier ".js", the contract is `<base>` and the file is `<base>.sol`. |
| Contract.IntoSolDeclaresContract | witnet/lib/rad2sol.js:189-201 | The generated source contains `contract <name>Request is Request` and `hex"<payload>"`, with the payload verbatim. |
| Contract.ExtractIntoSol | witnet/lib/rad2sol.js:189-201 | For any file name, a lower-case hex payload is read back exactly from the generated contract. |
| Migrations.RequestFiles | witnet/lib/rad2sol.js:38-39 | The request files are exactly the listed names that end in ".js". |
| Migrations.DeployableSources | witnet/lib/rad2sol.js:210-211 | The deployable sources are exactly the ".sol" files other than `Migrations.sol`. |
| Migrations.RequestFilesAppend | witnet/lib/rad2sol.js:38-39 | The request filter works file by file: filtering a concatenated listing gives the concatenation of the filtered parts. With `RequestFilesOfOne`, the request files keep their listing order, repetitions included. |
| Migrations.RequestFilesOfOne | witnet/lib/rad2sol.js:38-39 | A single name is kept unchanged exactly when it ends in ".js". Otherwise it is dropped. |
| Migrations.DeployableSourcesAppend | witnet/lib/rad2sol.js:210-211 | The source filter works file by file: filtering a concatenated listing gives the concatenation of the filtered parts. With `DeployableSourcesOfOne`, the deployable sources keep their listing order, repetitions included. |
| Migrations.DeployableSourcesOfOne | witnet/lib/rad2sol.js:210-211 | A single name is kept unchanged exactly when it ends in ".sol" and is not `Migrations.sol`. Otherwise it is dropped. |
| Migrations.ArtifactsAppend | witnet/lib/rad2sol.js:209-212 | The artifacts of a concatenated listing are those of the first part followed by those of the second. With `ArtifactsOfOne`, there is one artifact per deployable source, in listing order. |
| Migrations.ArtifactOfSource | witnet/lib/rad2sol.js:212 | For `<base>.sol`, the artifact is `<base>` with its first letter upper-cased. |
| Migrations.ArtifactsOfOne | witnet/lib/rad2sol.js:210-212 | `Migrations.sol` yields no artifact. Any other ".sol" file yields its own artifact. |
| Migrations.MatchFromSound | witnet/lib/rad2sol.js:278 | Whatever the pattern matches at a position is a deployment statement naming the captured word. |
| Migrations.MatchFromComplete | witnet/lib/rad2sol.js:278 | Every deployment statement at a position is what the pattern matches there, with the same name and end. |
| Migrations.NextMatchLeftmost | witnet/lib/rad2sol.js:316-323 | A global `exec` from `lastIndex` returns the leftmost match at or after it. |
| Migrations.NextMatchNone | witnet/lib/rad2sol.js:316-323 | `exec` returns `null` only when no position from `lastIndex` on matches. |
| Migrations.ScanStatements | witnet/lib/rad2sol.js:316-324 | Every match `matchAll` collects is a whole deployment statement naming its capture. |
| Migrations.ObjectOfStatements | witnet/lib/rad2sol.js:279 | Reducing statement matches into an object keeps only statements, each under the name it deploys. |
| Migrations.ReadMigrationArgs | witnet/lib/rad2sol.js:275-280 | Every value `readMigrationArgs` returns is a deployment statement of its key. |
| Objects.FromPairs | witnet/lib/rad2sol.js:279 | Spreading `{[k]: v}` pairs in order keeps a key exactly when some pair has it. A key takes the value of the last pair with that key. |
| Objects.FromPairsValue | witnet/lib/rad2sol.js:279 | Every key of the reduced object comes with a value some pair gave it. |
| Objects.FromPairsAppend | truffle-config.js:84-94 | Spreading two runs of pairs one after the other is the first object overridden by the second. |
| ScriptLines.ScanOfLines | witnet/lib/rad2sol.js:316-324 | Over a text of lines, each either free of statements or one whole statement, `matchAll` finds exactly the statements, in order. |
| ConstructorArgs.ParameterList | witnet/lib/rad2sol.js:271-272 | There is no match exactly when no `constructor` is followed by white space and `(`. Otherwise the capture is the maximal `[\w\s,]` run after the first such `(`. |
| ConstructorArgs.FindSignatureLeftmost | witnet/lib/rad2sol.js:271 | The signature the scan settles on is the leftmost one. |
| ConstructorArgs.FindSignatureNone | witnet/lib/rad2sol.js:271 | When the scan finds nothing, no signature starts anywhere after its start. |
| ConstructorArgs.GreedyCapture | witnet/lib/rad2sol.js:271 | The run of parameter characters is the greedy capture: all its characters are in the class, and the next one is not. |
| ConstructorArgs.ReadSolidityArgs | witnet/lib/rad2sol.js:269-273 | A missing source fails, as the read fails. A source without a constructor signature fails, as indexing the `null` match throws. Otherwise the result is the capture. |
| ConstructorArgs.MocksCons | witnet/lib/rad2sol.js:298-304 | A piece without a comma gets exactly one mock. A list that starts with such a piece gets that piece's mock, then the mocks of the rest of the list. |
| ConstructorArgs.MockTable | witnet/lib/rad2sol.js:283-312 | The mocks are: `address _wbi` gives the bridge address reference, checked before the table; integer types give 0; `string`, `bytes`, `address` and `bool` give their fixed literals; unknown types give 0. |
| ConstructorArgs.MockOfDeclaration | witnet/lib/rad2sol.js:304-312 | A piece declaring `<type> <name>` between any white space gets the mock its type and name select. |
| ConstructorArgs.WordsOfDeclaration | witnet/lib/rad2sol.js:305 | Trimming and splitting a padded declaration at spaces gives exactly its type and its name. |
| ConstructorArgs.EmptyParameterList | witnet/lib/rad2sol.js:304 | An empty parameter list still gives one mock, 0. |
| ConstructorArgs.MocksFollowDeclarations | witnet/lib/rad2sol.js:304-313 | A comma-joined list of declarations gives one mock per declaration, each the mock of that declaration. |
| MigrationScript.Entry | witnet/lib/rad2sol.js:249-262 | An artifact with an existing entry gets that entry verbatim. Any other artifact gets `  deployer.deploy(<artifact>, <mocks>)`, where the mocks are those of its constructor's parameter list, or it gets the failure of reading that constructor. |
| MigrationScript.MapResults | witnet/lib/rad2sol.js:249-263 | A map with a throwing callback gives all results in order, or the error of the first element that fails. |
| MigrationScript.Entries | witnet/lib/rad2sol.js:249-263 | There is one entry per artifact in artifact order, or the first artifact's failure. |
| MigrationScript.MocksHaveNoParen | witnet/lib/rad2sol.js:256-261 | No mock holds `)`, so a synthesized entry has no early `)` that would cut it short. |
| MigrationScript.SynthesizedEntryIsStatement | witnet/lib/rad2sol.js:256-261 | `  deployer.deploy(X, mocks...)` is a deployment statement of `X` for any identifier `X`. |
| MigrationScript.EntryIsStatement | witnet/lib/rad2sol.js:249-262 | Every entry is a deployment statement of its artifact, given that the reused entries were. |
| MigrationScript.RequireLineQuiet | witnet/lib/rad2sol.js:245 | The `artifacts.require` line of an identifier artifact is one line on which no deployment statement starts, so reading the script back never finds one there. |
| MigrationScript.RenderUserMigration | witnet/lib/rad2sol.js:241-265 | The script is written exactly when every artifact's entry can be produced. Otherwise the error is that of the first artifact that fails. |
| MigrationScript.LayoutText | witnet/lib/rad2sol.js:241-265 | The script is a header, the require lines, the exports and link lines, the entries and the closing brace, each followed by a line feed. |
| MigrationScript.LayoutFound | witnet/lib/rad2sol.js:241-265 | The only statements among those lines are the entries, each paired with its artifact. |
| MigrationScript.LayoutValid | witnet/lib/rad2sol.js:241-265 | No fixed line of the script starts a deployment statement. Each entry is one whole statement. |
| MigrationScript.RereadEntries | witnet/lib/rad2sol.js:241-280 | Reading a written script back finds exactly its entries, in artifact order. Each artifact maps to its own entry. |
| MigrationScript.RenderIdempotent | witnet/lib/rad2sol.js:239-280 | Rendering again, from what is read back out of a rendered script, gives the same script. |
| MigrationScript.WriteIdempotent | witnet/lib/rad2sol.js:209-280 | With unchanged contracts, a second run of `writeMigrations` writes the same `3_user_contracts.js` as the first. |
| Diagnostics.Capture | witnet/lib/rad2sol.js:160 | `(.*) is not defined` matches exactly when the message contains " is not defined". The capture runs from the start of the line of the first occurrence to the last occurrence on that line. |
| Diagnostics.CaptureUnique | witnet/lib/rad2sol.js:160 | The match the capture describes is unique. |
| Diagnostics.CaptureIsAt | witnet/lib/rad2sol.js:160 | The capture is whatever the match describes. |
| Diagnostics.DiagnoseSpec | witnet/lib/rad2sol.js:137-170 | The classification works as follows. (1) "is not a function" gives the export hint naming the request file. (2) Otherwise a captured symbol that the library exports gives the import hint for that symbol. (3) "is not defined" with no match throws a TypeError. (4) Anything else is rethrown with the original message kept. |
| Diagnostics.Execute | witnet/lib/rad2sol.js:135-171 | A successful run returns the descriptor unchanged. A failing run throws the translation `Diagnose` gives for its message, which keeps the original message. `DiagnoseSpec` says what that translation is. |
| TruffleConfig.IndexOfItem | truffle-config.js:64 | `indexOf` returns the first position holding the item, or -1 when none does. |
| TruffleConfig.RealmFromEnvironment | truffle-config.js:62-67 | Without `--network`, the realm is `WITNET_EVM_REALM` lower-cased, or "default" when it is unset or empty. |
| TruffleConfig.RealmHasNoDot | truffle-config.js:64-67 | A realm chosen with `--network` never contains a dot. |
| TruffleConfig.RealmOfChain | truffle-config.js:66 | The token `<realm>.<chain>` selects `<realm>`. |
| TruffleConfig.RealmOfNoToken | truffle-config.js:66 | A missing or empty token after `--network` selects "default". |
| TruffleConfig.RealmFromCommandLine | truffle-config.js:62-67 | `--network <realm>.<chain>`, as the first flag, selects `<realm>` whatever the environment says. This lemma assumes no argument contains "="; `RealmFlagForms` covers argument lists in general. |
| TruffleConfig.ArgumentsVerbatim | truffle-config.js:63 | Arguments without "=" survive the join and split unchanged. |
| TruffleConfig.FlagFirstAt | truffle-config.js:64 | The flag after arguments that are not the flag is found at its own position. |
| TruffleConfig.RealmFlagForms | truffle-config.js:63-67 | `--network x` and `--network=x` select the same realm, wherever they sit among the arguments. |
| TruffleConfig.NetworkKeyUnchanged | truffle-config.js:81-90 | A network keeps its key exactly when its realm is "default" or the key already contains the realm name. |
| TruffleConfig.NetworkKeyNamesRealm | truffle-config.js:84-90 | Every key emitted by a realm other than "default" contains that realm's name. |
| TruffleConfig.RealmEmitRekeyed | truffle-config.js:81-93 | Copying the "default" realm as it is is the same as rekeying it, so every realm emits its rekeyed networks. |
| TruffleConfig.SupportedAsPairs | truffle-config.js:79-95 | The nested spreads equal one spread of all realms' rekeyed networks, in table order. |
| TruffleConfig.SupportedKeys | truffle-config.js:79-95 | A key is supported exactly when some realm emits it. |
| TruffleConfig.SupportedLast | truffle-config.js:79-95 | On a collision, the last realm that emits a key decides its settings. |
| TruffleConfig.Networks | truffle-config.js:107-110 | The networks are the supported and the manual ones. A manual network overrides a supported one with the same key. |

## Left out

- Babel and the `vm` sandbox (`compile`, `vm.runInContext`, `asJson`). They are foreign runtimes, so what a request file evaluates to, or the message it throws, is an input of `Diagnostics.Execute`.
- The CBOR and Protocol Buffers codecs and the `.proto` schema. They are foreign libraries, so the encoder is a function parameter of `Pack`. `intoProtoBuf` is not modelled; the hex step starts from bytes.
- The promise pipeline of lines 44-65. The steps are modelled one by one. Where several files fail, JavaScript reports the first rejection in time; that depends on timing and is not modelled.
- All file-system access: `readdirSync`, `readFileSync`, `writeFileSync` and the `openSync`/`closeSync` that creates an empty script. Directory listings, sources and the previous script are inputs. A missing previous script is the empty text.
- Console banners, colours and the `fail` handler. The argument pretty-printing at line 252 only feeds a log line.
- The second migration, `2_witnet_core.js`. It is a fixed text apart from a `JSON.stringify` of constant addresses, and it is written without reading anything.
- lodash `merge` of compiler settings and the `witnet.settings` module. The realm table is an input sequence of realms, each with its networks.
- `ganache-cli` providers and the `manualNetworks` contents, which are given as a map.
- `Lower` and `UpperChar` change ASCII letters only. JavaScript's full Unicode case mapping is not modelled.
- Keys inherited from `Object.prototype` are not modelled: `artifact in userContractsArgs` and `hasOwnProperty` are taken as own-key tests. An artifact named `constructor` would behave differently in JavaScript.
- JavaScript enumerates integer-like object keys first. Objects are modelled as maps, so enumeration order only matters through "last write wins", which the model keeps.
- Network settings and descriptor leaves are opaque values. Numbers are `real`.
- MigrationScript.RenderIdempotent: requires artifact names that are identifiers (word characters only). The `(\w+)` capture cannot read back a name with other characters, and such a name would not be a valid JavaScript identifier in the `const` line anyway.
- MigrationScript.WriteIdempotent: requires the same identifier condition, for the same reason.
- ConstructorArgs.MockOfDeclaration: covers pieces of the form `<type> <name>` padded with white space. Other pieces, such as a type alone or several spaces inside, are covered by `MockSolidityArgs`, whose contract states the mock for any piece.

## Behaviour of the code worth knowing

The model follows the code in each of these cases.

- **The error translator can throw.** A message can contain "is not defined" but never after a space. Then `match` returns `null`, and `[1]` throws a TypeError (witnet/lib/rad2sol.js:160). This is `Diagnostics.CaptureFailed`.
- **Entries keep the artifact order.** One entry is written per artifact in listing order, each either reused or synthesized. Reused entries are not gathered first (witnet/lib/rad2sol.js:249-263).
- **Reused entries stop at the first `)`.** The scan pattern ends at the first `)` of a statement. So a hand-edited entry with a nested call, such as `deployer.deploy(X, f(1))`, is kept only up to that parenthesis (witnet/lib/rad2sol.js:278).
- **The artifact order is the directory listing's.** No dependency order is computed (witnet/lib/rad2sol.js:209-212).
- **The first failing entry aborts the run.** Reading a missing source, or indexing a `null` constructor match, throws from inside `map`. The first failing artifact therefore aborts `writeMigrations` (witnet/lib/rad2sol.js:249-262).
