/** Picking a family or a group at random, weighted by its free storage
    (base/gfspvgmgr/virtual_group_manager.go:63-157). Ratios are real numbers. */
module WeightedPick {
  import opened FixedWidth
  import opened Maps
  import opened Options

  const MAX_USAGE_RATIO: real := 0.95

  /** The usage is below 95 per cent of what is staked. */
  predicate HasRoom(used: nat, staked: nat) {
    (used as real) < MAX_USAGE_RATIO * (staked as real)
  }

  /** The comparison in whole numbers. */
  lemma RoomMeans(used: nat, staked: nat)
    ensures HasRoom(used, staked) <==> 20 * used < 19 * staked
  {
  }

  /** The unsigned subtraction and the division of the code. */
  function Weight(used: nat, staked: nat): real
    requires staked > 0
  {
    ((staked - used) % TWO_64) as real / staked as real
  }

  /** Below the bound the subtraction cannot underflow and the weight lies in (0.05, 1]. */
  lemma WeightInRange(used: nat, staked: nat)
    requires staked < TWO_64 && HasRoom(used, staked)
    ensures used < staked && (staked - used) % TWO_64 == staked - used
    ensures 0.05 < Weight(used, staked) <= 1.0
    ensures Weight(used, staked) * (staked as real) == (staked - used) as real
  {
    var s, free := staked as real, (staked - used) as real;
    assert 0.05 * s < free <= s;
    RatioBounds(free, s);
  }

  lemma RatioBounds(free: real, s: real)
    requires 0.05 * s < free <= s
    ensures s > 0.0 && 0.05 < free / s <= 1.0
  {
    QuotientOrder(s, free, 0.05);
    QuotientOrder(s, free, 1.0);
  }

  type Weights = map<nat, real>

  /** Every weight is positive. */
  predicate Positive(w: Weights) {
    forall k :: k in w ==> w[k] > 0.0
  }

  /** The weights of a list of keys, added up. */
  function Sum(w: Weights, keys: seq<nat>): real
    requires forall k :: k in keys ==> k in w
  {
    if keys == [] then 0.0 else Sum(w, keys[..|keys| - 1]) + w[keys[|keys| - 1]]
  }

  lemma {:induction false} SumSplit(w: Weights, a: seq<nat>, x: nat, b: seq<nat>)
    requires forall k :: k in a + [x] + b ==> k in w
    ensures Sum(w, a + [x] + b) == Sum(w, a + b) + w[x]
  {
    if b == [] {
      assert a + [x] + b == a + [x] && a + b == a;
      assert (a + [x])[..|a|] == a;
    } else {
      var n := |b| - 1;
      assert (a + [x] + b)[..|a| + 1 + n] == a + [x] + b[..n];
      assert (a + b)[..|a| + n] == a + b[..n];
      assert forall k :: k in a + [x] + b[..n] ==> k in a + [x] + b;
      SumSplit(w, a, x, b[..n]);
    }
  }

  lemma Removal(a: seq<nat>, b: seq<nat>) returns (i: nat)
    requires multiset(a) == multiset(b) && a != []
    ensures i < |b| && b[i] == a[|a| - 1]
    ensures multiset(a[..|a| - 1]) == multiset(b[..i] + b[i + 1..])
  {
    var n := |a| - 1;
    var x := a[n];
    assert x in multiset(b);
    i :| 0 <= i < |b| && b[i] == x;
    assert b == b[..i] + [x] + b[i + 1..];
    assert a == a[..n] + [x];
    assert multiset(a[..n]) == multiset(a) - multiset{x};
    assert multiset(b[..i] + b[i + 1..]) == multiset(b) - multiset{x};
  }

  /** The sum does not depend on the order in which the map is ranged over. */
  lemma {:induction false} SumIsOrderFree(w: Weights, a: seq<nat>, b: seq<nat>)
    requires multiset(a) == multiset(b)
    requires (forall k :: k in a ==> k in w) && (forall k :: k in b ==> k in w)
    ensures Sum(w, a) == Sum(w, b)
    decreases |a|
  {
    if a == [] {
      assert |multiset(b)| == 0;
    } else {
      var i := Removal(a, b);
      assert b == b[..i] + [b[i]] + b[i + 1..];
      SumSplit(w, b[..i], b[i], b[i + 1..]);
      SumIsOrderFree(w, a[..|a| - 1], b[..i] + b[i + 1..]);
    }
  }

  /** The weights of the first `n` keys. */
  function Prefix(w: Weights, keys: seq<nat>, n: nat): real
    requires n <= |keys| && forall k :: k in keys ==> k in w
  {
    Sum(w, keys[..n])
  }

  lemma PrefixStep(w: Weights, keys: seq<nat>, n: nat)
    requires n < |keys| && forall k :: k in keys ==> k in w
    ensures Prefix(w, keys, 0) == 0.0
    ensures Prefix(w, keys, n + 1) == Prefix(w, keys, n) + w[keys[n]]
    ensures Prefix(w, keys, |keys|) == Sum(w, keys)
  {
    assert keys[..n + 1][..n] == keys[..n];
    assert keys[..|keys|] == keys;
  }

  /** A longer prefix weighs strictly more. */
  lemma {:induction false} PrefixesGrow(w: Weights, keys: seq<nat>, i: nat, j: nat)
    requires Positive(w) && i < j <= |keys|
    requires forall k :: k in keys ==> k in w
    ensures Prefix(w, keys, i) < Prefix(w, keys, j)
  {
    hide Prefix;
    PrefixStep(w, keys, j - 1);
    if i < j - 1 {
      PrefixesGrow(w, keys, i, j - 1);
    }
  }

  /** The goal falls in the stretch that belongs to the key at position `j`. */
  ghost predicate Hits(w: Weights, keys: seq<nat>, goal: real, j: nat)
    requires j < |keys| && forall k :: k in keys ==> k in w
  {
    Prefix(w, keys, j) <= goal < Prefix(w, keys, j + 1)
  }

  lemma OnlyHit(w: Weights, keys: seq<nat>, goal: real, i: nat)
    requires Positive(w) && i < |keys| && (forall k :: k in keys ==> k in w)
    requires Hits(w, keys, goal, i)
    ensures forall j :: 0 <= j < |keys| ==> (Hits(w, keys, goal, j) <==> j == i)
  {
    hide Prefix;
    forall j | 0 <= j < |keys|
      ensures Hits(w, keys, goal, j) <==> j == i
    {
      if j + 1 < i {
        PrefixesGrow(w, keys, j + 1, i);
      } else if i + 1 < j {
        PrefixesGrow(w, keys, i + 1, j);
      }
    }
  }

  /** The weights added up, in whichever order the map is ranged over. */
  method Total(w: Weights, ghost order: seq<nat>) returns (sum: real)
    requires multiset(order) == multiset(w.Keys) && forall k :: k in order ==> k in w
    ensures sum == Sum(w, order)
  {
    hide Prefix;
    var keys := AnyOrder(w);
    sum := 0.0;
    if keys != [] {
      PrefixStep(w, keys, 0);
    }
    for i := 0 to |keys|
      invariant keys != [] ==> sum == Prefix(w, keys, i)
      invariant keys == [] ==> sum == Sum(w, keys)
    {
      PrefixStep(w, keys, i);
      sum := sum + w[keys[i]];
    }
    SumIsOrderFree(w, keys, order);
  }

  /** Walks over the keys until the running sum exceeds the goal. */
  method Walk(w: Weights, keys: seq<nat>, goal: real) returns (picked: Option<nat>)
    requires Positive(w) && (forall k :: k in keys ==> k in w) && 0.0 <= goal
    requires forall i, j :: 0 <= i < j < |keys| ==> keys[i] != keys[j]
    ensures picked.None? <==> keys == [] || Sum(w, keys) <= goal
    ensures picked.Some? ==> picked.value in keys
    ensures forall j :: 0 <= j < |keys| ==> (picked == Some(keys[j]) <==> Hits(w, keys, goal, j))
  {
    hide Prefix;
    var passed := 0.0;
    if keys == [] {
      return None;
    }
    PrefixStep(w, keys, 0);
    for i := 0 to |keys|
      invariant passed == Prefix(w, keys, i) && passed <= goal
      invariant forall j :: 0 <= j < i ==> !Hits(w, keys, goal, j)
    {
      PrefixStep(w, keys, i);
      passed := passed + w[keys[i]];
      if passed > goal {
        OnlyHit(w, keys, goal, i);
        if i + 1 < |keys| {
          PrefixesGrow(w, keys, i + 1, |keys|);
        }
        return Some(keys[i]);
      }
    }
    picked := None;
  }

  /** The draw, scaled to the sum of the weights. */
  function Goal(draw: real, sum: real): real {
    draw * sum
  }

  /** pickIndex: for any order of ranging over the map it picks the key whose stretch the draw hits,
      and fails exactly when there is no candidate. */
  method PickIndex(w: Weights, draw: real) returns (picked: Option<nat>, ghost order: seq<nat>)
    requires Positive(w) && 0.0 <= draw < 1.0
    ensures multiset(order) == multiset(w.Keys) && forall k :: k in order ==> k in w
    ensures picked.None? <==> w == map[]
    ensures picked.Some? ==> picked.value in w
    ensures forall j :: 0 <= j < |order| ==> (picked == Some(order[j]) <==> Hits(w, order, Goal(draw, Sum(w, order)), j))
  {
    hide Hits, Prefix, Sum, Goal;
    var keys := AnyOrder(w);
    order := keys;
    OrderIsExact(w, keys);
    var sum := Total(w, keys);
    SumIsPositive(w, keys);
    GoalIsBelow(draw, sum);
    picked := Walk(w, keys, Goal(draw, sum));
    if keys == [] {
      assert w == map[];
    } else {
      assert keys[0] in w;
    }
  }

  lemma SumIsPositive(w: Weights, keys: seq<nat>)
    requires Positive(w) && forall k :: k in keys ==> k in w
    ensures if keys == [] then Sum(w, keys) == 0.0 else 0.0 < Sum(w, keys)
  {
    if keys != [] {
      PrefixStep(w, keys, 0);
      PrefixesGrow(w, keys, 0, |keys|);
    }
  }

  lemma GoalIsBelow(draw: real, sum: real)
    requires 0.0 <= sum && 0.0 <= draw < 1.0
    ensures 0.0 <= Goal(draw, sum) && (sum > 0.0 ==> Goal(draw, sum) < sum)
  {
    assert (1.0 - draw) * sum == sum - draw * sum;
  }

  /** The draws in [0, 1) are shared out exactly: a key's stretch starts where the one before it ends,
      and its length is the key's weight divided by the sum. */
  lemma {:induction false} SharesAreProportional(w: Weights, keys: seq<nat>, j: nat, draw: real)
    requires Positive(w) && j < |keys| && forall k :: k in keys ==> k in w
    ensures Sum(w, keys) > 0.0
    ensures var from, to := Prefix(w, keys, j) / Sum(w, keys), Prefix(w, keys, j + 1) / Sum(w, keys);
            && (Hits(w, keys, Goal(draw, Sum(w, keys)), j) <==> from <= draw < to)
            && to - from == w[keys[j]] / Sum(w, keys)
            && 0.0 <= from < to <= 1.0
            && (j == 0 ==> from == 0.0) && (j + 1 == |keys| ==> to == 1.0)
  {
    hide Prefix, Sum, Goal;
    PrefixStep(w, keys, j);
    PrefixesGrow(w, keys, 0, |keys|);
    if j > 0 {
      PrefixesGrow(w, keys, 0, j);
    }
    if j + 1 < |keys| {
      PrefixesGrow(w, keys, j + 1, |keys|);
    }
    PrefixesGrow(w, keys, j, j + 1);
    var total, a, b := Sum(w, keys), Prefix(w, keys, j), Prefix(w, keys, j + 1);
    Quotients(total, a, b, draw);
  }

  lemma Quotients(total: real, a: real, b: real, draw: real)
    requires 0.0 <= a < b <= total
    ensures (a <= Goal(draw, total) < b) <==> (a / total <= draw < b / total)
    ensures b / total - a / total == (b - a) / total
    ensures 0.0 <= a / total < b / total <= 1.0
    ensures total / total == 1.0
  {
    QuotientOrder(total, a, draw);
    QuotientOrder(total, b, draw);
    QuotientOrder(total, a, 0.0);
    QuotientOrder(total, b, 1.0);
    var x, y := a / total, b / total;
    assert x * total == a && y * total == b;
    assert (y - x) * total == b - a;
    QuotientOrder(total, b, x);
  }

  lemma QuotientOrder(total: real, a: real, x: real)
    requires total > 0.0
    ensures a <= x * total <==> a / total <= x
    ensures x * total <= a <==> x <= a / total
  {
    var q := a / total;
    assert q * total == a;
    assert (x - q) * total == x * total - a;
  }
}
