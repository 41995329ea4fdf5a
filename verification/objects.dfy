/**
 * Plain JavaScript objects built by successive spreads, as in
 * `entries.reduce((acc, [k, v]) => ({ ...acc, [k]: v }), {})`:
 * a key written later overrides the same key written earlier.
 */
module Objects {

  /** Some pair carries key `k`. */
  ghost predicate HasKey<V>(ps: seq<(string, V)>, k: string) {
    exists i :: 0 <= i < |ps| && ps[i].0 == k
  }

  /** No pair after index `i` carries the key of pair `i`. */
  ghost predicate IsLastWithKey<V>(ps: seq<(string, V)>, i: int)
    requires 0 <= i < |ps|
  {
    forall j :: i < j < |ps| ==> ps[j].0 != ps[i].0
  }

  /** The object obtained by writing the pairs in order into an empty object. */
  function FromPairs<V>(ps: seq<(string, V)>): (m: map<string, V>)
    ensures forall k :: k in m <==> HasKey(ps, k)
    ensures forall i :: 0 <= i < |ps| && IsLastWithKey(ps, i) ==> ps[i].0 in m && m[ps[i].0] == ps[i].1
    decreases |ps|
  {
    if |ps| == 0 then map[]
    else
      var init := ps[..|ps| - 1];
      var last := ps[|ps| - 1];
      var m := FromPairs(init)[last.0 := last.1];
      HasKeyInit(ps);
      LastInInit(ps);
      m
  }

  lemma HasKeyInit<V>(ps: seq<(string, V)>)
    requires |ps| > 0
    ensures forall k :: HasKey(ps, k) <==> HasKey(ps[..|ps| - 1], k) || k == ps[|ps| - 1].0
  {
    var init := ps[..|ps| - 1];
    forall k | HasKey(ps, k) && k != ps[|ps| - 1].0
      ensures HasKey(init, k)
    {
      var i :| 0 <= i < |ps| && ps[i].0 == k;
      assert init[i].0 == k;
    }
    forall k | HasKey(init, k)
      ensures HasKey(ps, k)
    {
      var i :| 0 <= i < |init| && init[i].0 == k;
      assert ps[i].0 == k;
    }
    assert ps[|ps| - 1].0 == ps[|ps| - 1].0;
  }

  lemma LastInInit<V>(ps: seq<(string, V)>)
    requires |ps| > 0
    ensures forall i :: 0 <= i < |ps| - 1 && IsLastWithKey(ps, i) ==> IsLastWithKey(ps[..|ps| - 1], i)
  {
  }

  /** Every value in the object was written by some pair under that key. */
  lemma {:induction false} FromPairsValue<V>(ps: seq<(string, V)>, k: string)
    requires k in FromPairs(ps)
    ensures exists i :: 0 <= i < |ps| && ps[i] == (k, FromPairs(ps)[k])
    decreases |ps|
  {
    var init := ps[..|ps| - 1];
    var last := ps[|ps| - 1];
    assert FromPairs(ps) == FromPairs(init)[last.0 := last.1];
    if k == last.0 {
      assert ps[|ps| - 1] == (k, FromPairs(ps)[k]);
    } else {
      FromPairsValue(init, k);
      var i :| 0 <= i < |init| && init[i] == (k, FromPairs(init)[k]);
      assert ps[i] == init[i];
    }
  }

  /** Spreading two objects built from pairs is building from all the pairs. */
  lemma {:induction false} FromPairsAppend<V>(a: seq<(string, V)>, b: seq<(string, V)>)
    ensures FromPairs(a + b) == FromPairs(a) + FromPairs(b)
    decreases |b|
  {
    if |b| > 0 {
      var b' := b[..|b| - 1];
      var last := b[|b| - 1];
      assert (a + b)[..|a + b| - 1] == a + b';
      assert (a + b)[|a + b| - 1] == last;
      assert FromPairs(a + b) == FromPairs(a + b')[last.0 := last.1];
      FromPairsAppend(a, b');
      assert FromPairs(b) == FromPairs(b')[last.0 := last.1];
      MapUpdateUnion(FromPairs(a), FromPairs(b'), last.0, last.1);
    } else {
      assert a + b == a;
    }
  }

  lemma MapUpdateUnion<V>(m1: map<string, V>, m2: map<string, V>, k: string, v: V)
    ensures (m1 + m2)[k := v] == m1 + m2[k := v]
  {
  }
}
