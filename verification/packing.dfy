/**
 * Script packing: the step that turns the plain data structure returned by
 * a request's `asJson()` into the shape the Protocol Buffers encoder expects,
 * by replacing every `script` (each retrieval branch, the aggregation and the
 * tally) with its CBOR encoding. The CBOR encoder is a parameter.
 */
module Packing {
  import opened Prelude

  /**
   * Property keys. JavaScript spells an array index as its decimal string;
   * the model keeps indices apart from other names.
   */
  datatype Key = Name(name: string) | Index(index: nat)

  /** The JavaScript values that can appear in a descriptor, plus the byte buffers the encoder returns. */
  datatype Value =
    | Undefined
    | Null
    | Bool(b: bool)
    | Number(x: real)
    | Str(s: string)
    | Array(items: seq<Value>)
    | Object(fields: map<Key, Value>)
    | Buffer(bytes: seq<byte>)

  /** The TypeErrors packing can throw. */
  datatype PackError =
    | ReadOfNullish(property: string)   // `undefined.p` or `null.p`
    | NotAFunction(property: string)    // calling `.map` on something that is not an array

  predicate IsNullish(v: Value) {
    v.Undefined? || v.Null?
  }

  /** What `v.name` evaluates to when it does not throw (no inherited member is named here). */
  function Field(v: Value, name: string): Value {
    if v.Object? && Name(name) in v.fields then v.fields[Name(name)] else Undefined
  }

  /** `v.name`, which throws on `undefined` and `null`. */
  function Get(v: Value, name: string): (r: Result<Value, PackError>)
    ensures r.Err? <==> IsNullish(v)
    ensures r.Ok? ==> r.value == Field(v, name)
  {
    if IsNullish(v) then Err(ReadOfNullish(name)) else Ok(Field(v, name))
  }

  /** The own enumerable properties that `{ ...v }` copies. */
  function Spread(v: Value): map<Key, Value> {
    match v
    case Object(fields) => fields
    case Array(items) => map i: nat | i < |items| :: Index(i) := items[i]
    case Str(s) => map i: nat | i < |s| :: Index(i) := Str([s[i]])
    case Buffer(bytes) => map i: nat | i < |bytes| :: Index(i) := Number(bytes[i] as real)
    case _ => map[]
  }

  /** `{ ...holder, script: encode(holder.script) }`. */
  function PackScript(holder: Value, encode: Value -> seq<byte>): Result<Value, PackError> {
    var script :- Get(holder, "script");
    Ok(Object(Spread(holder)[Name("script") := Buffer(encode(script))]))
  }

  /** `branches.map(branch => ({ ...branch, script: encode(branch.script) }))`. */
  function PackBranches(branches: seq<Value>, encode: Value -> seq<byte>): (r: Result<seq<Value>, PackError>)
    ensures r.Ok? ==> |r.value| == |branches|
    ensures r.Ok? ==> forall i :: 0 <= i < |branches| ==> PackScript(branches[i], encode) == Ok(r.value[i])
    ensures r.Err? <==> exists i :: 0 <= i < |branches| && IsNullish(branches[i])
    decreases |branches|
  {
    if |branches| == 0 then Ok([])
    else
      var b :- PackScript(branches[0], encode);
      var rest :- PackBranches(branches[1..], encode);
      assert forall i :: 1 <= i < |branches| ==> branches[i] == branches[1..][i - 1];
      Ok([b] + rest)
  }

  /** A buffer of `n` zero bytes. */
  function Zeros(n: nat): (r: seq<byte>)
    ensures |r| == n && forall i :: 0 <= i < n ==> r[i] == 0
  {
    seq(n, _ => 0)
  }

  /**
   * `retrieve.map(branch => ({ ...branch, script: encode(branch.script) }))`.
   * An array is mapped branch by branch. A buffer inherits the typed-array
   * `map`, which calls the callback on each byte (a number, whose `script` is
   * `undefined`) and stores each returned object as a byte: the object
   * converts to NaN, stored as 0. Anything else has no `map` to call.
   */
  function PackRetrieve(retrieve: Value, encode: Value -> seq<byte>): Result<Value, PackError> {
    if IsNullish(retrieve) then Err(ReadOfNullish("map"))
    else match retrieve
      case Array(items) =>
        var branches :- PackBranches(items, encode);
        Ok(Array(branches))
      case Buffer(bytes) => Ok(Buffer(Zeros(|bytes|)))
      case _ => Err(NotAFunction("map"))
  }

  /** `pack(dro)`: the descriptor with every script replaced by its encoding. */
  function Pack(dro: Value, encode: Value -> seq<byte>): Result<Value, PackError> {
    var request :- Get(dro, "data_request");
    var retrieve :- Get(request, "retrieve");
    var retrieve' :- PackRetrieve(retrieve, encode);
    // `request` is not nullish here, so reading its properties cannot throw.
    var aggregate' :- PackScript(Field(request, "aggregate"), encode);
    var tally' :- PackScript(Field(request, "tally"), encode);
    var request' := Spread(request)[Name("retrieve") := retrieve']
                                   [Name("aggregate") := aggregate']
                                   [Name("tally") := tally'];
    Ok(Object(Spread(dro)[Name("data_request") := Object(request')]))
  }

  // ---------------------------------------------------------------------------
  // What packing promises

  /** `after` is `before` with its `script` property, and only that one, replaced by the encoding. */
  ghost predicate ScriptEncoded(before: Value, after: Value, encode: Value -> seq<byte>) {
    && after.Object?
    && after.fields.Keys == Spread(before).Keys + {Name("script")}
    && after.fields[Name("script")] == Buffer(encode(Field(before, "script")))
    && forall k :: k in Spread(before) && k != Name("script") ==> after.fields[k] == Spread(before)[k]
  }

  /** `after` is `before` with the given keys overwritten and every other property copied. */
  ghost predicate SameExcept(before: Value, after: Value, changed: set<Key>) {
    && after.Object?
    && after.fields.Keys == Spread(before).Keys + changed
    && forall k :: k in Spread(before) && k !in changed ==> after.fields[k] == Spread(before)[k]
  }

  /**
   * Packing succeeds exactly when every property it reads exists on a
   * non-nullish holder and `retrieve` has a `map`: an array, or a buffer.
   */
  ghost predicate Packable(dro: Value) {
    var request := Field(dro, "data_request");
    var retrieve := Field(request, "retrieve");
    && !IsNullish(dro)
    && !IsNullish(request)
    && (retrieve.Buffer? || (retrieve.Array? && forall i :: 0 <= i < |retrieve.items| ==> !IsNullish(retrieve.items[i])))
    && !IsNullish(Field(request, "aggregate"))
    && !IsNullish(Field(request, "tally"))
  }

  lemma PackScriptSpec(holder: Value, encode: Value -> seq<byte>)
    ensures PackScript(holder, encode).Err? <==> IsNullish(holder)
    ensures PackScript(holder, encode).Ok? ==> ScriptEncoded(holder, PackScript(holder, encode).value, encode)
  {
  }

  /** The failure cases of `pack` are exactly the reads of missing structure. */
  lemma PackFailsIff(dro: Value, encode: Value -> seq<byte>)
    ensures Pack(dro, encode).Ok? <==> Packable(dro)
  {
    var request := Field(dro, "data_request");
    var retrieve := Field(request, "retrieve");
    if Packable(dro) {
      PackScriptSpec(Field(request, "aggregate"), encode);
      PackScriptSpec(Field(request, "tally"), encode);
    } else if !IsNullish(dro) && !IsNullish(request) && (retrieve.Array? || retrieve.Buffer?) && !IsNullish(Field(request, "aggregate")) {
      PackScriptSpec(Field(request, "aggregate"), encode);
    }
  }

  /**
   * `pack` keeps the branch list's length and order, encodes each branch's,
   * the aggregation's and the tally's script, and copies everything else;
   * a buffer in place of the branch list comes out as as many zero bytes.
   */
  lemma PackSpec(dro: Value, encode: Value -> seq<byte>)
    requires Pack(dro, encode).Ok?
    ensures var out := Pack(dro, encode).value;
            var request := Field(dro, "data_request");
            var request' := Field(out, "data_request");
            var retrieve := Field(request, "retrieve");
            var retrieve' := Field(request', "retrieve");
            && SameExcept(dro, out, {Name("data_request")})
            && SameExcept(request, request', {Name("retrieve"), Name("aggregate"), Name("tally")})
            && (retrieve.Array? ==>
                  && retrieve'.Array?
                  && |retrieve'.items| == |retrieve.items|
                  && forall i :: 0 <= i < |retrieve.items| ==> ScriptEncoded(retrieve.items[i], retrieve'.items[i], encode))
            && (retrieve.Buffer? ==> retrieve' == Buffer(Zeros(|retrieve.bytes|)))
            && ScriptEncoded(Field(request, "aggregate"), Field(request', "aggregate"), encode)
            && ScriptEncoded(Field(request, "tally"), Field(request', "tally"), encode)
  {
    var request := Field(dro, "data_request");
    var retrieve := Field(request, "retrieve");
    var retrieve' := PackRetrieve(retrieve, encode).value;
    var aggregate' := PackScript(Field(request, "aggregate"), encode).value;
    var tally' := PackScript(Field(request, "tally"), encode).value;
    var request' := Spread(request)[Name("retrieve") := retrieve']
                                   [Name("aggregate") := aggregate']
                                   [Name("tally") := tally'];
    assert Pack(dro, encode).value == Object(Spread(dro)[Name("data_request") := Object(request')]);
    UpdateOne(dro, Name("data_request"), Object(request'));
    UpdateThree(request, Name("retrieve"), retrieve', Name("aggregate"), aggregate', Name("tally"), tally');
    if retrieve.Array? {
      PackRetrieveBranches(retrieve.items, encode);
    }
    PackScriptSpec(Field(request, "aggregate"), encode);
    PackScriptSpec(Field(request, "tally"), encode);
  }

  /** Packing a branch list packs each branch as a holder, in order. */
  lemma PackRetrieveBranches(items: seq<Value>, encode: Value -> seq<byte>)
    requires PackRetrieve(Array(items), encode).Ok?
    ensures var r := PackRetrieve(Array(items), encode).value;
            && r.Array? && |r.items| == |items|
            && forall i :: 0 <= i < |items| ==> ScriptEncoded(items[i], r.items[i], encode)
  {
    var packed := PackBranches(items, encode).value;
    forall i | 0 <= i < |items|
      ensures ScriptEncoded(items[i], packed[i], encode)
    {
      PackScriptSpec(items[i], encode);
    }
  }

  /**
   * A buffer of `n` bytes in place of the branch list is mapped without
   * throwing, to `n` zero bytes, whatever the bytes were.
   */
  lemma PackBufferRetrieve(bytes: seq<byte>, aggregate: Value, tally: Value, encode: Value -> seq<byte>)
    requires !IsNullish(aggregate) && !IsNullish(tally)
    ensures var request := Object(map[Name("retrieve") := Buffer(bytes), Name("aggregate") := aggregate, Name("tally") := tally]);
            var out := Pack(Object(map[Name("data_request") := request]), encode);
            && out.Ok?
            && Field(Field(out.value, "data_request"), "retrieve") == Buffer(Zeros(|bytes|))
  {
    var request := Object(map[Name("retrieve") := Buffer(bytes), Name("aggregate") := aggregate, Name("tally") := tally]);
    var dro := Object(map[Name("data_request") := request]);
    assert Field(dro, "data_request") == request;
    assert Field(request, "retrieve") == Buffer(bytes);
    assert Field(request, "aggregate") == aggregate && Field(request, "tally") == tally;
    assert PackRetrieve(Buffer(bytes), encode) == Ok(Buffer(Zeros(|bytes|)));
  }

  /** Spreading an object and overwriting one key changes that key only. */
  lemma UpdateOne(before: Value, k: Key, v: Value)
    ensures SameExcept(before, Object(Spread(before)[k := v]), {k})
  {
  }

  /** Spreading an object and overwriting three keys changes those keys only. */
  lemma UpdateThree(before: Value, k1: Key, v1: Value, k2: Key, v2: Value, k3: Key, v3: Value)
    requires k1 != k2 && k1 != k3 && k2 != k3
    ensures var after := Object(Spread(before)[k1 := v1][k2 := v2][k3 := v3]);
            && SameExcept(before, after, {k1, k2, k3})
            && after.fields[k1] == v1 && after.fields[k2] == v2 && after.fields[k3] == v3
  {
  }

  // ---------------------------------------------------------------------------
  // Unpacking, the partner of packing

  /** Decodes the `script` buffer of a packed holder. */
  function UnpackScript(holder: Value, decode: seq<byte> -> Value): Value {
    if holder.Object? && Name("script") in holder.fields && holder.fields[Name("script")].Buffer? then
      Object(holder.fields[Name("script") := decode(holder.fields[Name("script")].bytes)])
    else holder
  }

  /** Decodes every script of a packed descriptor; structure it does not recognise is kept. */
  function Unpack(out: Value, decode: seq<byte> -> Value): Value {
    var request := Field(out, "data_request");
    var retrieve := Field(request, "retrieve");
    if !out.Object? || !request.Object? || !retrieve.Array? then out
    else
      var branches := seq(|retrieve.items|, i requires 0 <= i < |retrieve.items| => UnpackScript(retrieve.items[i], decode));
      var request' := request.fields[Name("retrieve") := Array(branches)]
                                    [Name("aggregate") := UnpackScript(Field(request, "aggregate"), decode)]
                                    [Name("tally") := UnpackScript(Field(request, "tally"), decode)];
      Object(out.fields[Name("data_request") := Object(request')])
  }

  /** A script holder as `asJson()` produces it: an object with a `script` property. */
  ghost predicate IsScriptHolder(v: Value) {
    v.Object? && Name("script") in v.fields
  }

  /** The descriptor shape `asJson()` produces. */
  ghost predicate IsDescriptor(dro: Value) {
    var request := Field(dro, "data_request");
    var retrieve := Field(request, "retrieve");
    && dro.Object?
    && Name("data_request") in dro.fields
    && request.Object?
    && Name("retrieve") in request.fields && retrieve.Array?
    && (forall i :: 0 <= i < |retrieve.items| ==> IsScriptHolder(retrieve.items[i]))
    && Name("aggregate") in request.fields && IsScriptHolder(Field(request, "aggregate"))
    && Name("tally") in request.fields && IsScriptHolder(Field(request, "tally"))
  }

  lemma UnpackPackScript(holder: Value, encode: Value -> seq<byte>, decode: seq<byte> -> Value)
    requires IsScriptHolder(holder)
    requires forall v :: decode(encode(v)) == v
    ensures PackScript(holder, encode).Ok?
    ensures UnpackScript(PackScript(holder, encode).value, decode) == holder
  {
    var fields := holder.fields;
    var script := fields[Name("script")];
    assert decode(encode(script)) == script;
    assert fields[Name("script") := Buffer(encode(script))][Name("script") := script] == fields;
  }

  /** With a decoder that inverts the encoder, unpacking a packed descriptor gives it back unchanged. */
  lemma UnpackPack(dro: Value, encode: Value -> seq<byte>, decode: seq<byte> -> Value)
    requires IsDescriptor(dro)
    requires forall v :: decode(encode(v)) == v
    ensures Pack(dro, encode).Ok?
    ensures Unpack(Pack(dro, encode).value, decode) == dro
  {
    var request := Field(dro, "data_request");
    var items := Field(request, "retrieve").items;
    var aggregate := Field(request, "aggregate");
    var tally := Field(request, "tally");
    forall i | 0 <= i < |items|
      ensures PackScript(items[i], encode).Ok?
      ensures UnpackScript(PackScript(items[i], encode).value, decode) == items[i]
    {
      UnpackPackScript(items[i], encode, decode);
    }
    UnpackPackScript(aggregate, encode, decode);
    UnpackPackScript(tally, encode, decode);
    PackFailsIff(dro, encode);
    var out := Pack(dro, encode).value;
    var packed := PackBranches(items, encode).value;
    var request' := Field(out, "data_request");
    assert request'.fields[Name("retrieve")] == Array(packed);
    var unpacked := seq(|packed|, i requires 0 <= i < |packed| => UnpackScript(packed[i], decode));
    assert unpacked == items;
    var r := request'.fields[Name("retrieve") := Array(unpacked)]
                            [Name("aggregate") := UnpackScript(Field(request', "aggregate"), decode)]
                            [Name("tally") := UnpackScript(Field(request', "tally"), decode)];
    assert r == request.fields;
    assert out.fields[Name("data_request") := Object(r)] == dro.fields;
  }
}
