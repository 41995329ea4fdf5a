/**
 * The network configuration of `truffle-config.js`: the target realm, read
 * from `WITNET_EVM_REALM` and overridden by `--network <realm>.<chain>` on
 * the command line, and the table of networks handed to Truffle, in which
 * every network of a realm other than "default" is keyed by its realm.
 * Network settings are opaque values of type `V`; a JavaScript object is a
 * sequence of key/value pairs in enumeration order.
 */
module TruffleConfig {
  import opened Prelude
  import opened JsText
  import opened Objects

  const DefaultRealm: string := "default"
  const NetworkFlag: string := "--network"

  // ---------------------------------------------------------------------------
  // The target realm

  /** `xs.indexOf(x)`, with `None` for -1. */
  function IndexOfItem(xs: seq<string>, x: string): (r: Option<nat>)
    ensures r.Some? ==> r.value < |xs| && xs[r.value] == x
    ensures r.Some? ==> forall j :: 0 <= j < r.value ==> xs[j] != x
    ensures r.None? ==> forall j :: 0 <= j < |xs| ==> xs[j] != x
    decreases |xs|
  {
    if |xs| == 0 then None
    else if xs[0] == x then Some(0)
    else
      match IndexOfItem(xs[1..], x)
      case None => None
      case Some(i) => Some(i + 1)
  }

  /** The realm the environment gives: the lower-cased variable, or "default" when it is unset or empty. */
  function EnvRealm(env: Option<string>): string {
    if env.Some? && |env.value| > 0 then Lower(env.value) else DefaultRealm
  }

  /** `process.argv.join("=").split("=")`: `--network=x` becomes two arguments. */
  function Arguments(argv: seq<string>): seq<string> {
    Split(Join(argv, "="), '=')
  }

  /** `(token || "default").split(".")[0]`: a missing or empty token counts as "default". */
  function RealmOfToken(token: Option<string>): string {
    var t := if token.Some? && |token.value| > 0 then token.value else DefaultRealm;
    Split(t, '.')[0]
  }

  /** The target realm: the argument after the first `--network` decides, if there is one. */
  function Realm(env: Option<string>, argv: seq<string>): string {
    var args := Arguments(argv);
    match IndexOfItem(args, NetworkFlag)
    case None => EnvRealm(env)
    case Some(i) => RealmOfToken(if i + 1 < |args| then Some(args[i + 1]) else None)
  }

  /** Without `--network` the environment decides: its variable lower-cased, else "default". */
  lemma RealmFromEnvironment(env: Option<string>, argv: seq<string>)
    requires forall j :: 0 <= j < |Arguments(argv)| ==> Arguments(argv)[j] != NetworkFlag
    ensures env.None? || env == Some("") ==> Realm(env, argv) == DefaultRealm
    ensures env.Some? && env.value != "" ==>
      && |Realm(env, argv)| == |env.value|
      && forall k :: 0 <= k < |env.value| ==> Realm(env, argv)[k] == LowerChar(env.value[k])
  {
  }

  /** A realm chosen on the command line never holds a dot: it is what precedes the first one. */
  lemma RealmHasNoDot(env: Option<string>, argv: seq<string>)
    requires exists j :: 0 <= j < |Arguments(argv)| && Arguments(argv)[j] == NetworkFlag
    ensures '.' !in Realm(env, argv)
  {
  }

  /** `<realm>.<chain>` selects the realm. */
  lemma RealmOfChain(realm: string, chain: string)
    requires '.' !in realm
    ensures RealmOfToken(Some(realm + "." + chain)) == realm
  {
    SplitAtFirst(realm, chain, '.');
  }

  /** A missing or empty token selects the default realm. */
  lemma RealmOfNoToken()
    ensures RealmOfToken(None) == DefaultRealm && RealmOfToken(Some("")) == DefaultRealm
  {
    assert '.' !in DefaultRealm;
  }

  /** Splitting at the first separator gives what precedes it first. */
  lemma SplitAtFirst(a: string, b: string, sep: char)
    requires sep !in a
    ensures Split(a + [sep] + b, sep)[0] == a
  {
    var s := a + [sep] + b;
    assert s[|a|] == sep;
    assert s[..|a|] == a;
    var i := FirstIndexOfChar(s, sep);
    assert i == |a| by {
      assert s[..i] == s[..|a| + 1][..i] || i > |a|;
    }
  }

  /** `--network <realm>.<chain>` chooses `<realm>` whatever the environment says, when no argument holds "=" and no earlier one is the flag. */
  lemma RealmFromCommandLine(env: Option<string>, pre: seq<string>, realm: string, chain: string, post: seq<string>)
    requires forall j :: 0 <= j < |pre| ==> pre[j] != NetworkFlag
    requires forall j :: 0 <= j < |pre| ==> '=' !in pre[j]
    requires forall j :: 0 <= j < |post| ==> '=' !in post[j]
    requires '=' !in realm && '=' !in chain && '.' !in realm
    ensures Realm(env, pre + [NetworkFlag, realm + "." + chain] + post) == realm
  {
    var token := realm + "." + chain;
    var argv := pre + [NetworkFlag, token] + post;
    assert '=' !in token;
    ArgumentsVerbatim(pre, [NetworkFlag, token], post);
    FlagFirstAt(pre, token, post);
    assert argv[|pre| + 1] == token;
    RealmOfChain(realm, chain);
  }

  /** Arguments free of "=" come out of the join and split as they went in. */
  lemma ArgumentsVerbatim(pre: seq<string>, mid: seq<string>, post: seq<string>)
    requires |mid| >= 1
    requires forall j :: 0 <= j < |pre| ==> '=' !in pre[j]
    requires forall j :: 0 <= j < |mid| ==> '=' !in mid[j]
    requires forall j :: 0 <= j < |post| ==> '=' !in post[j]
    ensures Arguments(pre + mid + post) == pre + mid + post
  {
    var argv := pre + mid + post;
    forall j | 0 <= j < |argv| ensures '=' !in argv[j] {
      if j < |pre| {
        assert argv[j] == pre[j];
      } else if j < |pre| + |mid| {
        assert argv[j] == mid[j - |pre|];
      } else {
        assert argv[j] == post[j - |pre| - |mid|];
      }
    }
    SplitJoin(argv, '=');
  }

  /** The flag right after arguments that are not the flag is the first one. */
  lemma FlagFirstAt(pre: seq<string>, token: string, post: seq<string>)
    requires forall j :: 0 <= j < |pre| ==> pre[j] != NetworkFlag
    ensures IndexOfItem(pre + [NetworkFlag, token] + post, NetworkFlag) == Some(|pre|)
  {
    var argv := pre + [NetworkFlag, token] + post;
    assert argv[|pre|] == NetworkFlag;
    forall j | 0 <= j < |pre| ensures argv[j] != NetworkFlag {
      assert argv[j] == pre[j];
    }
  }

  /** Joining is blind to whether two neighbours were one argument holding the separator. */
  lemma {:induction false} JoinMerge(pre: seq<string>, a: string, b: string, post: seq<string>, sep: string)
    ensures Join(pre + [a, b] + post, sep) == Join(pre + [a + sep + b] + post, sep)
    decreases |pre|
  {
    if |pre| == 0 {
      assert pre + [a, b] + post == [a] + ([b] + post);
      assert pre + [a + sep + b] + post == [a + sep + b] + post;
      JoinCons(a, [b] + post, sep);
      JoinCons(b, post, sep);
      JoinCons(a + sep + b, post, sep);
    } else {
      assert pre + [a, b] + post == [pre[0]] + (pre[1..] + [a, b] + post);
      assert pre + [a + sep + b] + post == [pre[0]] + (pre[1..] + [a + sep + b] + post);
      JoinCons(pre[0], pre[1..] + [a, b] + post, sep);
      JoinCons(pre[0], pre[1..] + [a + sep + b] + post, sep);
      JoinMerge(pre[1..], a, b, post, sep);
    }
  }

  /** Because the arguments are joined and split on "=", `--network x` and `--network=x` choose the same realm. */
  lemma RealmFlagForms(env: Option<string>, pre: seq<string>, token: string, post: seq<string>)
    ensures Realm(env, pre + [NetworkFlag, token] + post) == Realm(env, pre + [NetworkFlag + "=" + token] + post)
  {
    JoinMerge(pre, NetworkFlag, token, post, "=");
  }

  // ---------------------------------------------------------------------------
  // The network table

  /** The key a network of a realm is configured under: prefixed with the realm, unless it is the default realm or the key names it already. */
  function NetworkKey(realm: string, net: string): string {
    if realm == DefaultRealm || Contains(net, realm) then net else realm + "." + net
  }

  /** The networks of one realm under their keys, in order. */
  function Rekeyed<V>(realm: string, nets: seq<(string, V)>): (r: seq<(string, V)>)
    ensures |r| == |nets|
    ensures forall i :: 0 <= i < |r| ==> r[i] == (NetworkKey(realm, nets[i].0), nets[i].1)
  {
    seq(|nets|, i requires 0 <= i < |nets| => (NetworkKey(realm, nets[i].0), nets[i].1))
  }

  /** `realmEmit`: the default realm's object as it is, any other realm's spread key by key under its new keys. */
  function RealmEmit<V>(realm: string, nets: seq<(string, V)>): map<string, V> {
    if realm == DefaultRealm then FromPairs(nets) else FromPairs(Rekeyed(realm, nets))
  }

  /** `supportedNetworks`: the realms' networks spread one realm after the other, starting from nothing. */
  function SupportedNetworks<V>(table: seq<(string, seq<(string, V)>)>): map<string, V>
    decreases |table|
  {
    if |table| == 0 then map[]
    else SupportedNetworks(table[..|table| - 1]) + RealmEmit(table[|table| - 1].0, table[|table| - 1].1)
  }

  /** `networks`: the supported networks, then the manual ones spread over them. */
  function Networks<V>(table: seq<(string, seq<(string, V)>)>, manual: map<string, V>): (r: map<string, V>)
    ensures forall k :: k in r <==> k in manual || k in SupportedNetworks(table)
    ensures forall k :: k in manual ==> r[k] == manual[k]
    ensures forall k :: k !in manual && k in SupportedNetworks(table) ==> r[k] == SupportedNetworks(table)[k]
  {
    SupportedNetworks(table) + manual
  }

  /** A key is left alone exactly for the default realm or when it already names its realm. */
  lemma NetworkKeyUnchanged(realm: string, net: string)
    ensures NetworkKey(realm, net) == net <==> realm == DefaultRealm || Contains(net, realm)
  {
    if !(realm == DefaultRealm || Contains(net, realm)) {
      assert |NetworkKey(realm, net)| > |net|;
    }
  }

  /** Every key a realm other than the default one emits names that realm. */
  lemma NetworkKeyNamesRealm(realm: string, net: string)
    requires realm != DefaultRealm
    ensures Contains(NetworkKey(realm, net), realm)
  {
    if !Contains(net, realm) {
      var k := realm + "." + net;
      assert OccursAt(k, realm, 0) by { assert k[..|realm|] == realm; }
    }
  }

  /** Whatever the realm, its emission is the object of its rekeyed networks. */
  lemma RealmEmitRekeyed<V>(realm: string, nets: seq<(string, V)>)
    ensures RealmEmit(realm, nets) == FromPairs(Rekeyed(realm, nets))
  {
    if realm == DefaultRealm {
      assert Rekeyed(realm, nets) == nets;
    }
  }

  /** All the networks of all the realms under their keys, in order. */
  function AllRekeyed<V>(table: seq<(string, seq<(string, V)>)>): seq<(string, V)>
    decreases |table|
  {
    if |table| == 0 then []
    else AllRekeyed(table[..|table| - 1]) + Rekeyed(table[|table| - 1].0, table[|table| - 1].1)
  }

  /** The nested spreads equal one spread of all the rekeyed networks: the last network written under a key wins. */
  lemma {:induction false} SupportedAsPairs<V>(table: seq<(string, seq<(string, V)>)>)
    ensures SupportedNetworks(table) == FromPairs(AllRekeyed(table))
    decreases |table|
  {
    if |table| > 0 {
      var init := table[..|table| - 1];
      var last := table[|table| - 1];
      SupportedAsPairs(init);
      RealmEmitRekeyed(last.0, last.1);
      FromPairsAppend(AllRekeyed(init), Rekeyed(last.0, last.1));
    }
  }

  /** The emissions of the realms, in table order. */
  function Emissions<V>(table: seq<(string, seq<(string, V)>)>): (r: seq<map<string, V>>)
    ensures |r| == |table|
    ensures forall i :: 0 <= i < |table| ==> r[i] == RealmEmit(table[i].0, table[i].1)
  {
    seq(|table|, i requires 0 <= i < |table| => RealmEmit(table[i].0, table[i].1))
  }

  /** Maps spread one after the other, starting from nothing. */
  function SpreadAll<V>(ms: seq<map<string, V>>): map<string, V>
    decreases |ms|
  {
    if |ms| == 0 then map[] else SpreadAll(ms[..|ms| - 1]) + ms[|ms| - 1]
  }

  /** The nested spreads of the table are the spread of its realms' emissions. */
  lemma {:induction false} SupportedSpread<V>(table: seq<(string, seq<(string, V)>)>)
    ensures SupportedNetworks(table) == SpreadAll(Emissions(table))
    decreases |table|
  {
    if |table| > 0 {
      var n := |table| - 1;
      SupportedSpread(table[..n]);
      assert Emissions(table)[..n] == Emissions(table[..n]);
    }
  }

  /** A key is in a spread of maps exactly when one of them holds it. */
  lemma {:induction false} SpreadKeys<V>(ms: seq<map<string, V>>, k: string)
    ensures k in SpreadAll(ms) <==> exists i :: 0 <= i < |ms| && k in ms[i]
    decreases |ms|
  {
    if |ms| > 0 {
      var n := |ms| - 1;
      SpreadKeys(ms[..n], k);
      if i :| 0 <= i < n && k in ms[..n][i] {
        assert ms[..n][i] == ms[i];
      }
      if i :| 0 <= i < |ms| && k in ms[i] {
        if i < n {
          assert ms[..n][i] == ms[i];
        }
      }
    }
  }

  /** A key is supported exactly when some realm emits it. */
  lemma SupportedKeys<V>(table: seq<(string, seq<(string, V)>)>, k: string)
    ensures k in SupportedNetworks(table) <==> exists i :: 0 <= i < |table| && k in RealmEmit(table[i].0, table[i].1)
  {
    SupportedSpread(table);
    SpreadKeys(Emissions(table), k);
  }

  /** Later realms override earlier ones: a key's value comes from the last realm that emits it. */
  lemma {:induction false} SupportedLast<V>(table: seq<(string, seq<(string, V)>)>, i: nat, k: string)
    requires i < |table| && k in RealmEmit(table[i].0, table[i].1)
    requires forall j :: i < j < |table| ==> k !in RealmEmit(table[j].0, table[j].1)
    ensures k in SupportedNetworks(table)
    ensures SupportedNetworks(table)[k] == RealmEmit(table[i].0, table[i].1)[k]
    decreases |table|
  {
    var init := table[..|table| - 1];
    if i < |table| - 1 {
      forall j | i < j < |init| ensures k !in RealmEmit(init[j].0, init[j].1) {
        assert init[j] == table[j];
      }
      assert init[i] == table[i];
      SupportedLast(init, i, k);
    }
  }
}
