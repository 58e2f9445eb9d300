/**
 The order modules are merged in: by kind, and within a kind the input given last comes first.
 */
module ModuleOrder {
  import opened Bytes

  datatype ModuleType = NONE | HAR | ENTRY | FEATURE | SHARED

  // What an input's configuration file says: there is none, it cannot be read, or it names a kind.
  datatype Config = Missing | Broken | Known(moduleType: ModuleType)

  datatype Input = Input(path: Text, resourceDir: Text, config: Config)

  const ORDERS: seq<ModuleType> := [NONE, ENTRY, FEATURE, SHARED, HAR]

  function KindOf(config: Config): ModuleType {
    if config.Known? then config.moduleType else NONE
  }

  function Rank(t: ModuleType): (r: nat)
    ensures r < 5 && ORDERS[r] == t
  {
    match t case NONE => 0 case ENTRY => 1 case FEATURE => 2 case SHARED => 3 case HAR => 4
  }

  // The places in the input list, from place n on, of the inputs of a kind, the last one first.
  function Bucket(inputs: seq<Input>, t: ModuleType, n: nat): (p: seq<nat>)
    requires n <= |inputs|
    ensures forall i :: 0 <= i < |p| ==> n <= p[i] < |inputs|
    decreases |inputs| - n
  {
    if n == |inputs| then []
    else Bucket(inputs, t, n + 1) + if KindOf(inputs[n].config) == t then [n] else []
  }

  // The buckets of the first k kinds.
  function Order(inputs: seq<Input>, k: nat): (p: seq<nat>)
    requires k <= |ORDERS|
    ensures forall i :: 0 <= i < |p| ==> p[i] < |inputs|
  {
    if k == 0 then [] else Order(inputs, k - 1) + Bucket(inputs, ORDERS[k - 1], 0)
  }

  function Dirs(inputs: seq<Input>, places: seq<nat>): seq<Text>
    requires forall i :: 0 <= i < |places| ==> places[i] < |inputs|
  {
    seq(|places|, i requires 0 <= i < |places| => inputs[places[i]].resourceDir)
  }

  // Which of two inputs is merged first.
  predicate Before(inputs: seq<Input>, a: nat, b: nat)
    requires a < |inputs| && b < |inputs|
  {
    var x, y := Rank(KindOf(inputs[a].config)), Rank(KindOf(inputs[b].config));
    x < y || (x == y && a > b)
  }

  lemma BucketStep(inputs: seq<Input>, t: ModuleType, n: nat)
    requires n < |inputs|
    ensures Bucket(inputs, t, n) == Bucket(inputs, t, n + 1) + if KindOf(inputs[n].config) == t then [n] else []
  {
  }

  lemma {:induction false} BucketIs(inputs: seq<Input>, t: ModuleType, n: nat)
    requires n <= |inputs|
    ensures var p := Bucket(inputs, t, n);
      && (forall i :: 0 <= i < |p| ==> KindOf(inputs[p[i]].config) == t)
      && (forall i, j :: 0 <= i < j < |p| ==> p[i] > p[j])
      && (forall m :: n <= m < |inputs| && KindOf(inputs[m].config) == t ==> m in p)
    decreases |inputs| - n
  {
    if n < |inputs| {
      BucketIs(inputs, t, n + 1);
      BucketStep(inputs, t, n);
      hide Bucket, KindOf;
      var p, q := Bucket(inputs, t, n), Bucket(inputs, t, n + 1);
      forall m | n <= m < |inputs| && KindOf(inputs[m].config) == t ensures m in p {
        if m > n { assert m in q; } else { assert p[|q|] == m; }
      }
    }
  }

  lemma {:induction false} OrderIs(inputs: seq<Input>, k: nat)
    requires k <= |ORDERS|
    ensures var p := Order(inputs, k);
      && (forall i :: 0 <= i < |p| ==> Rank(KindOf(inputs[p[i]].config)) < k)
      && (forall i, j :: 0 <= i < j < |p| ==> Before(inputs, p[i], p[j]))
      && (forall m :: 0 <= m < |inputs| && Rank(KindOf(inputs[m].config)) < k ==> m in p)
  {
    if k > 0 {
      OrderIs(inputs, k - 1);
      BucketIs(inputs, ORDERS[k - 1], 0);
      OrderStep(inputs, k);
      hide Order, Bucket, KindOf;
      var before, bucket, p := Order(inputs, k - 1), Bucket(inputs, ORDERS[k - 1], 0), Order(inputs, k);
      forall m | 0 <= m < |inputs| && Rank(KindOf(inputs[m].config)) < k ensures m in p {
        if Rank(KindOf(inputs[m].config)) == k - 1 { assert m in bucket; } else { assert m in before; }
      }
    }
  }

  lemma OrderStep(inputs: seq<Input>, k: nat)
    requires 0 < k <= |ORDERS|
    ensures Order(inputs, k) == Order(inputs, k - 1) + Bucket(inputs, ORDERS[k - 1], 0)
  {
  }

  /** The order takes every input once, and takes them kind by kind, within a kind the last one first. */
  lemma OrderTakesAll(inputs: seq<Input>)
    ensures var p := Order(inputs, |ORDERS|);
      && (forall m :: m in p <==> 0 <= m < |inputs|)
      && (forall i, j :: 0 <= i < j < |p| ==> p[i] != p[j])
      && (forall i, j :: 0 <= i < |p| && 0 <= j < |p| ==> (i < j <==> Before(inputs, p[i], p[j])))
  {
    OrderIs(inputs, |ORDERS|);
    hide Order;
    var p := Order(inputs, |ORDERS|);
    forall m | 0 <= m < |inputs| ensures m in p {
      var r := Rank(KindOf(inputs[m].config));
    }
    forall i, j | 0 <= i < |p| && 0 <= j < |p| ensures i < j <==> Before(inputs, p[i], p[j]) {
      if j < i { assert Before(inputs, p[j], p[i]); }
    }
  }

  /**
   In terms of the configurations: inputs without one, and those of no kind, come first, then entries, features, shared
   modules and archives; of inputs that say the same, or nothing, the later one first.
   */
  lemma KindsInOrder(inputs: seq<Input>, i: nat, j: nat)
    requires i < j < |Order(inputs, |ORDERS|)|
    ensures Order(inputs, |ORDERS|)[i] < |inputs| && Order(inputs, |ORDERS|)[j] < |inputs|
    ensures var a, b := Order(inputs, |ORDERS|)[i], Order(inputs, |ORDERS|)[j];
      var sooner, later := inputs[a].config, inputs[b].config;
      && (later == Missing ==> sooner !in {Known(ENTRY), Known(FEATURE), Known(SHARED), Known(HAR)})
      && (later == Known(NONE) ==> sooner !in {Known(ENTRY), Known(FEATURE), Known(SHARED), Known(HAR)})
      && (later == Known(ENTRY) ==> sooner !in {Known(FEATURE), Known(SHARED), Known(HAR)})
      && (later == Known(FEATURE) ==> sooner !in {Known(SHARED), Known(HAR)})
      && (later == Known(SHARED) ==> sooner != Known(HAR))
      && (sooner == later ==> a > b)
      && (sooner == Missing && later == Known(NONE) ==> a > b)
      && (sooner == Known(NONE) && later == Missing ==> a > b)
  {
    OrderTakesAll(inputs);
    hide Order;
  }

  // The bucket of every kind when the inputs from place n on have been seen.
  ghost predicate Filled(inputs: seq<Input>, inputTypes: map<ModuleType, seq<Text>>, n: nat)
    requires n <= |inputs|
  {
    forall t :: BucketOf(inputTypes, t) == Dirs(inputs, Bucket(inputs, t, n))
  }

  function BucketOf(inputTypes: map<ModuleType, seq<Text>>, t: ModuleType): seq<Text> {
    if t in inputTypes then inputTypes[t] else []
  }

  lemma DirsConcat(inputs: seq<Input>, p: seq<nat>, q: seq<nat>)
    requires forall i :: 0 <= i < |p| ==> p[i] < |inputs|
    requires forall i :: 0 <= i < |q| ==> q[i] < |inputs|
    ensures forall i :: 0 <= i < |p + q| ==> (p + q)[i] < |inputs|
    ensures Dirs(inputs, p + q) == Dirs(inputs, p) + Dirs(inputs, q)
  {
  }

  lemma FilledStep(inputs: seq<Input>, inputTypes: map<ModuleType, seq<Text>>, n: nat)
    requires 0 < n <= |inputs| && Filled(inputs, inputTypes, n)
    ensures var input := inputs[n - 1];
      var u := KindOf(input.config);
      Filled(inputs, inputTypes[u := BucketOf(inputTypes, u) + [input.resourceDir]], n - 1)
  {
    hide Bucket, Dirs, KindOf, BucketOf;
    var input := inputs[n - 1];
    var u := KindOf(input.config);
    var after := inputTypes[u := BucketOf(inputTypes, u) + [input.resourceDir]];
    forall t ensures BucketOf(after, t) == Dirs(inputs, Bucket(inputs, t, n - 1)) {
      assert BucketOf(inputTypes, t) == Dirs(inputs, Bucket(inputs, t, n));
      BucketGrows(inputs, inputTypes, t, n);
    }
  }

  lemma BucketGrows(inputs: seq<Input>, inputTypes: map<ModuleType, seq<Text>>, t: ModuleType, n: nat)
    requires 0 < n <= |inputs| && BucketOf(inputTypes, t) == Dirs(inputs, Bucket(inputs, t, n))
    ensures var input := inputs[n - 1];
      var u := KindOf(input.config);
      BucketOf(inputTypes[u := BucketOf(inputTypes, u) + [input.resourceDir]], t)
      == Dirs(inputs, Bucket(inputs, t, n - 1))
  {
    hide *;
    BucketStep(inputs, t, n - 1);
    var u := KindOf(inputs[n - 1].config);
    BucketPut(inputTypes, u, inputs[n - 1].resourceDir, t);
    if u == t {
      DirsConcat(inputs, Bucket(inputs, t, n), [n - 1]);
      OneDir(inputs, n - 1);
    } else {
      assert Bucket(inputs, t, n) + [] == Bucket(inputs, t, n);
    }
  }

  lemma BucketPut(inputTypes: map<ModuleType, seq<Text>>, u: ModuleType, dir: Text, t: ModuleType)
    ensures BucketOf(inputTypes[u := BucketOf(inputTypes, u) + [dir]], t)
            == BucketOf(inputTypes, t) + if u == t then [dir] else []
  {
  }

  lemma OneDir(inputs: seq<Input>, n: nat)
    requires n < |inputs|
    ensures Dirs(inputs, [n]) == [inputs[n].resourceDir]
  {
  }

  lemma OrderedStep(inputs: seq<Input>, inputTypes: map<ModuleType, seq<Text>>, k: nat)
    requires k < |ORDERS| && Filled(inputs, inputTypes, 0)
    ensures Dirs(inputs, Order(inputs, k + 1)) == Dirs(inputs, Order(inputs, k)) + BucketOf(inputTypes, ORDERS[k])
  {
    OrderStep(inputs, k + 1);
    DirsConcat(inputs, Order(inputs, k), Bucket(inputs, ORDERS[k], 0));
    assert BucketOf(inputTypes, ORDERS[k]) == Dirs(inputs, Bucket(inputs, ORDERS[k], 0));
    hide Order, Bucket, Dirs, BucketOf;
  }

  lemma InitStarts(inputs: seq<Input>)
    ensures Filled(inputs, map[], |inputs|) && Dirs(inputs, Order(inputs, 0)) == []
  {
  }

  // The buckets by kind, filled by a run through the inputs from the last to the first.
  method Init(inputs: seq<Input>, isFileList: bool) returns (inputsOrder: seq<Text>, ok: bool)
    ensures isFileList ==> ok && inputsOrder == seq(|inputs|, i requires 0 <= i < |inputs| => inputs[i].path)
    ensures !isFileList ==> (ok <==> forall i :: 0 <= i < |inputs| ==> !inputs[i].config.Broken?)
    ensures !isFileList && ok ==> inputsOrder == Dirs(inputs, Order(inputs, |ORDERS|))
  {
    hide *;
    if isFileList {
      return seq(|inputs|, i requires 0 <= i < |inputs| => inputs[i].path), true;
    }
    InitStarts(inputs);
    var inputTypes: map<ModuleType, seq<Text>> := map[];
    var n := |inputs|;
    while n > 0
      invariant 0 <= n <= |inputs| && Filled(inputs, inputTypes, n)
      invariant forall i :: n <= i < |inputs| ==> !inputs[i].config.Broken?
    {
      var input := inputs[n - 1];
      if input.config.Broken? {
        return [], false;
      }
      var moduleType := KindOf(input.config);
      FilledStep(inputs, inputTypes, n);
      inputTypes := inputTypes[moduleType := BucketOf(inputTypes, moduleType) + [input.resourceDir]];
      n := n - 1;
    }
    inputsOrder := [];
    var k := 0;
    while k < |ORDERS|
      invariant 0 <= k <= |ORDERS| && inputsOrder == Dirs(inputs, Order(inputs, k))
    {
      OrderedStep(inputs, inputTypes, k);
      inputsOrder := inputsOrder + BucketOf(inputTypes, ORDERS[k]);
      k := k + 1;
    }
    return inputsOrder, true;
  }
}
