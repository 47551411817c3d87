/**
 * A layer of the layout is a `BTreeMap<usize, NodeIndex>` from slot to node.
 * Here it is a `map<nat, nat>`; this module holds what the layout code asks
 * of such a map: its largest and smallest slot, its slots in ascending order
 * (the order a `BTreeMap` iterates in), the first free slot at or after a
 * position, and the multiset of nodes it holds.
 */
module Slots {

  type Layer = map<nat, nat>

  lemma {:induction false} MaxExists(s: set<nat>)
    requires s != {}
    ensures exists m :: m in s && forall k :: k in s ==> k <= m
    decreases |s|
  {
    var y :| y in s;
    if s == {y} {
      assert forall k :: k in s ==> k == y;
      assert y in s;
    } else {
      MaxExists(s - {y});
      var m :| m in s - {y} && forall k :: k in s - {y} ==> k <= m;
      var w := if y > m then y else m;
      forall k | k in s ensures k <= w {
        if k != y {
          assert k in s - {y};
        }
      }
      assert w in s;
    }
  }


  lemma {:induction false} MinExists(s: set<nat>)
    requires s != {}
    ensures exists m :: m in s && forall k :: k in s ==> m <= k
    decreases |s|
  {
    var y :| y in s;
    if s == {y} {
      assert forall k :: k in s ==> k == y;
      assert y in s;
    } else {
      MinExists(s - {y});
      var m :| m in s - {y} && forall k :: k in s - {y} ==> m <= k;
      MinWith(s, y, m);
    }
  }

  /** The smaller of `y` and the least element of the rest is the least element. */
  lemma MinWith(s: set<nat>, y: nat, m: nat)
    requires y in s && m in s - {y} && forall k :: k in s - {y} ==> m <= k
    ensures exists w :: w in s && forall k :: k in s ==> w <= k
  {
    var w := if y < m then y else m;
    forall k | k in s ensures w <= k {
      if k != y {
        assert k in s - {y};
      }
    }
    assert w in s;
  }


  /** The largest element, as `keys().max()` gives it. */
  function MaxOf(s: set<nat>): (m: nat)
    requires s != {}
    ensures m in s && forall k :: k in s ==> k <= m
  {
    MaxExists(s);
    var m :| m in s && forall k :: k in s ==> k <= m;
    m
  }

  function MinOf(s: set<nat>): (m: nat)
    requires s != {}
    ensures m in s && forall k :: k in s ==> m <= k
  {
    MinExists(s);
    var m :| m in s && forall k :: k in s ==> m <= k;
    m
  }

  /** `keys().max().map(|x| x + 1).unwrap_or(0)`: the slot after the last one, or 0 in an empty layer. */
  function NextSlot(layer: Layer): (k: nat)
    ensures k !in layer
    ensures forall j :: j in layer ==> j < k
    ensures layer == map[] ==> k == 0
  {
    if layer.Keys == {} then 0 else MaxOf(layer.Keys) + 1
  }

  /** The linear probe of `crossing_minimization`: the first slot at or after `p` that `layer` leaves free. */
  function FirstFree(layer: Layer, p: nat): (q: nat)
    ensures p <= q && q !in layer
    ensures forall j :: p <= j < q ==> j in layer
    decreases if p <= NextSlot(layer) then NextSlot(layer) - p else 0
  {
    if p in layer then FirstFree(layer, p + 1) else p
  }

  /** Any slot that is free, with every slot from `p` up to it taken, is the first free one. */
  lemma FirstFreeIs(layer: Layer, p: nat, q: nat)
    requires p <= q && q !in layer
    requires forall j :: p <= j < q ==> j in layer
    ensures FirstFree(layer, p) == q
  {
  }

  /** The slots of a layer in ascending order. */
  function Ascending(s: set<nat>): (r: seq<nat>)
    ensures |r| == |s|
    ensures forall k :: k in r <==> k in s
    decreases s
  {
    if s == {} then []
    else
      var m := MinOf(s);
      [m] + Ascending(s - {m})
  }

  /** Each slot comes before every larger one. */
  lemma {:induction false} AscendingSorted(s: set<nat>)
    ensures forall i, j :: 0 <= i < j < |Ascending(s)| ==> Ascending(s)[i] < Ascending(s)[j]
    decreases s
  {
    if s != {} {
      var m := MinOf(s);
      var r, rest := Ascending(s), Ascending(s - {m});
      AscendingSorted(s - {m});
      assert r == [m] + rest;
      forall i, j | 0 <= i < j < |r| ensures r[i] < r[j] {
        assert r[j] == rest[j - 1] && rest[j - 1] in rest;
        assert r[j] in s - {m};
        if i > 0 {
          assert r[i] == rest[i - 1];
        } else {
          assert r[i] == m;
        }
      }
    }
  }

  /** The nodes a layer holds, with multiplicity. */
  ghost function Bag(layer: Layer): multiset<nat>
    decreases |layer.Keys|
  {
    if layer == map[] then multiset{}
    else
      var k :| k in layer;
      Bag(layer - {k}) + multiset{layer[k]}
  }

  /** Taking out any one slot takes its node out of the bag. */
  lemma {:induction false} BagRemove(layer: Layer, k: nat)
    requires k in layer
    ensures Bag(layer) == Bag(layer - {k}) + multiset{layer[k]}
    decreases |layer.Keys|
  {
    var c :| c in layer && Bag(layer) == Bag(layer - {c}) + multiset{layer[c]};
    if c != k {
      var rest, other := layer - {c}, layer - {k};
      assert rest.Keys == layer.Keys - {c} && other.Keys == layer.Keys - {k};
      assert rest - {k} == other - {c};
      calc {
        Bag(layer);
        Bag(rest) + multiset{layer[c]};
        { BagRemove(rest, k); }
        Bag(rest - {k}) + multiset{layer[k]} + multiset{layer[c]};
        Bag(other - {c}) + multiset{layer[c]} + multiset{layer[k]};
        { BagRemove(other, c); }
        Bag(other) + multiset{layer[k]};
      }
    }
  }

  /** A node is in the bag exactly when some slot holds it. */
  lemma {:induction false} BagValues(layer: Layer)
    ensures forall x :: x in Bag(layer) <==> x in layer.Values
    decreases |layer.Keys|
  {
    if layer != map[] {
      var k :| k in layer;
      var rest := layer - {k};
      BagRemove(layer, k);
      BagValues(rest);
      ValuesRemove(layer, k);
    }
  }

  /** Taking slot `k` out of a layer takes out its node, unless another slot holds it too. */
  lemma ValuesRemove(layer: Layer, k: nat)
    requires k in layer
    ensures forall x :: x in layer.Values <==> x in (layer - {k}).Values || x == layer[k]
  {
    var rest := layer - {k};
    forall x ensures x in layer.Values <==> x in rest.Values || x == layer[k] {
      if x in layer.Values {
        var j :| j in layer && layer[j] == x;
        if j != k {
          assert rest[j] == x;
        }
      }
      if x in rest.Values {
        var j :| j in rest && rest[j] == x;
        assert layer[j] == x;
      }
    }
  }

  /** Filling a free slot adds its node to the bag. */
  lemma BagInsert(layer: Layer, k: nat, v: nat)
    requires k !in layer
    ensures Bag(layer[k := v]) == Bag(layer) + multiset{v}
  {
    BagRemove(layer[k := v], k);
    assert layer[k := v] - {k} == layer;
  }

  /** The nodes at the slots `ks`, with multiplicity. */
  function Along(layer: Layer, ks: seq<nat>): multiset<nat>
    requires forall i :: 0 <= i < |ks| ==> ks[i] in layer
  {
    if ks == [] then multiset{} else multiset{layer[ks[0]]} + Along(layer, ks[1..])
  }

  /** Reading from position `j` on reads the node at `ks[j]`, then the rest. */
  lemma AlongFrom(layer: Layer, ks: seq<nat>, j: nat)
    requires j < |ks| && forall i :: 0 <= i < |ks| ==> ks[i] in layer
    ensures Along(layer, ks[j..]) == multiset{layer[ks[j]]} + Along(layer, ks[j + 1..])
  {
    assert ks[j..][1..] == ks[j + 1..];
  }

  /** Reading a layer slot by slot, each slot once, visits its whole bag. */
  lemma {:induction false} BagAlong(layer: Layer, ks: seq<nat>)
    requires forall i, j :: 0 <= i < j < |ks| ==> ks[i] != ks[j]
    requires forall k :: k in ks <==> k in layer
    ensures Bag(layer) == Along(layer, ks)
    decreases |ks|
  {
    if ks == [] {
      assert layer == map[];
    } else {
      var k0, tail := ks[0], ks[1..];
      var rest := layer - {k0};
      assert forall i :: 0 <= i < |tail| ==> tail[i] == ks[i + 1];
      assert k0 !in tail;
      assert forall k :: k in tail <==> k in rest;
      calc {
        Bag(layer);
        { BagRemove(layer, k0); }
        Bag(rest) + multiset{layer[k0]};
        { BagAlong(rest, tail); }
        Along(rest, tail) + multiset{layer[k0]};
        { AlongSame(layer, rest, tail); }
        Along(layer, tail) + multiset{layer[k0]};
      }
    }
  }

  lemma {:induction false} AlongSame(layer: Layer, sub: Layer, ks: seq<nat>)
    requires forall i :: 0 <= i < |ks| ==> ks[i] in sub
    requires forall k :: k in sub ==> k in layer && layer[k] == sub[k]
    ensures Along(layer, ks) == Along(sub, ks)
    decreases |ks|
  {
    if ks != [] {
      AlongSame(layer, sub, ks[1..]);
    }
  }

  /** A layer's bag, read in slot order. */
  lemma BagAscending(layer: Layer)
    ensures Bag(layer) == Along(layer, Ascending(layer.Keys))
  {
    var ks := Ascending(layer.Keys);
    AscendingSorted(layer.Keys);
    assert forall i, j :: 0 <= i < j < |ks| ==> ks[i] != ks[j];
    BagAlong(layer, ks);
  }
}
