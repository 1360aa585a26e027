/** Choosing a virtual group family, and a global virtual group in a family
    (base/gfspvgmgr/virtual_group_manager.go:102-157, 708-738, core/vgmgr filters). */
module GroupPick {
  import opened FixedWidth
  import opened Maps
  import opened Options
  import opened WeightedPick

  datatype Gvg = Gvg(id: nat, secondary: seq<nat>, used: nat, staked: nat)

  datatype Family = Family(id: nat, used: nat, staked: nat, gvgs: map<nat, Gvg>)

  /** Maps are keyed by id and sizes are 64-bit, as the refresh builds them. */
  predicate GroupsKeyed(gvgs: map<nat, Gvg>) {
    forall k :: k in gvgs ==> gvgs[k].id == k && gvgs[k].staked < TWO_64
  }

  predicate FamiliesKeyed(families: map<nat, Family>) {
    forall k :: k in families ==> families[k].id == k && families[k].staked < TWO_64
  }

  /** None of the group's secondary providers is in `bad`. */
  ghost predicate Clean(g: Gvg, bad: set<nat>) {
    forall sp :: sp in g.secondary ==> sp !in bad
  }

  /** The loop over the secondary providers, which stops at the first bad one. */
  method IsClean(g: Gvg, bad: set<nat>) returns (ok: bool)
    ensures ok <==> forall sp :: sp in g.secondary ==> sp !in bad
    ensures ok <==> Clean(g, bad)
  {
    for i := 0 to |g.secondary|
      invariant forall j :: 0 <= j < i ==> g.secondary[j] !in bad
    {
      if g.secondary[i] in bad {
        return false;
      }
    }
    return true;
  }

  ghost predicate HasClean(gvgs: map<nat, Gvg>, bad: set<nat>) {
    exists k :: k in gvgs && Clean(gvgs[k], bad)
  }

  /** Those of the first `n` keys whose groups are not clean. */
  ghost function DirtyAmong(gvgs: map<nat, Gvg>, keys: seq<nat>, bad: set<nat>, n: nat): set<nat>
    requires n <= |keys| && forall k :: k in keys ==> k in gvgs
  {
    if n == 0 then {}
    else if Clean(gvgs[keys[n - 1]], bad) then DirtyAmong(gvgs, keys, bad, n - 1)
    else DirtyAmong(gvgs, keys, bad, n - 1) + {keys[n - 1]}
  }

  lemma {:induction false} DirtyMeans(gvgs: map<nat, Gvg>, keys: seq<nat>, bad: set<nat>, n: nat, k: nat)
    requires n <= |keys| && forall x :: x in keys ==> x in gvgs
    ensures k in DirtyAmong(gvgs, keys, bad, n) <==> (exists i :: 0 <= i < n && keys[i] == k) && !Clean(gvgs[k], bad)
  {
    hide Clean;
    if n > 0 {
      DirtyMeans(gvgs, keys, bad, n - 1, k);
    }
  }

  /** Counting down from the number of groups, one for each that has a bad provider, leaves a positive
      count exactly when some group is clean. */
  method AnyClean(gvgs: map<nat, Gvg>, bad: set<nat>) returns (ok: bool)
    ensures ok <==> exists k :: k in gvgs && forall sp :: sp in gvgs[k].secondary ==> sp !in bad
    ensures ok <==> HasClean(gvgs, bad)
  {
    assert HasClean(gvgs, bad) <==> exists k :: k in gvgs && forall sp :: sp in gvgs[k].secondary ==> sp !in bad;
    hide HasClean;
    var keys := AnyOrder(gvgs);
    OrderIsExact(gvgs, keys);
    var count := |gvgs|;
    for i := 0 to |keys|
      invariant count == |gvgs| - |DirtyAmong(gvgs, keys, bad, i)|
    {
      DirtyMeans(gvgs, keys, bad, i, keys[i]);
      var clean := IsClean(gvgs[keys[i]], bad);
      if !clean {
        count := count - 1;
      }
    }
    CleanIsLeft(gvgs, keys, bad);
    ok := count > 0;
  }

  lemma CleanIsLeft(gvgs: map<nat, Gvg>, keys: seq<nat>, bad: set<nat>)
    requires multiset(keys) == multiset(gvgs.Keys) && forall k :: k in keys ==> k in gvgs
    ensures |gvgs| - |DirtyAmong(gvgs, keys, bad, |keys|)| > 0 <==> HasClean(gvgs, bad)
  {
    hide Clean, DirtyAmong;
    OrderIsExact(gvgs, keys);
    var dirty := DirtyAmong(gvgs, keys, bad, |keys|);
    forall k
      ensures k in dirty <==> k in gvgs && !Clean(gvgs[k], bad)
    {
      DirtyMeans(gvgs, keys, bad, |keys|, k);
    }
    CountOfRest(gvgs.Keys, dirty);
  }

  lemma CountOfRest(all: set<nat>, part: set<nat>)
    requires part <= all
    ensures |all| - |part| == |all - part|
    ensures |all - part| > 0 <==> exists k :: k in all && k !in part
  {
    assert all == part + (all - part);
    if |all - part| > 0 {
      var k :| k in all - part;
    }
  }

  /** isVGFHealthy: a family without groups counts as healthy. */
  predicate Healthy(f: Family, cleanOfBad: bool) {
    f.gvgs == map[] || cleanOfBad
  }

  /** What makes a family a candidate: available on chain, some group free of blacklisted providers,
      healthy, and with room. */
  ghost predicate FamilyCandidate(f: Family, available: Option<set<nat>>, black: set<nat>, bad: set<nat>) {
    && (available.Some? ==> f.id in available.value)
    && (exists g :: g in f.gvgs && forall sp :: sp in f.gvgs[g].secondary ==> sp !in black)
    && (exists g :: g in f.gvgs && forall sp :: sp in f.gvgs[g].secondary ==> sp !in bad)
    && 20 * f.used < 19 * f.staked
  }

  /** The weight is the free bytes over the staked bytes. */
  predicate IsFreeShare(weight: real, used: nat, staked: nat) {
    used < staked && weight * (staked as real) == (staked - used) as real && 0.05 < weight <= 1.0
  }

  /** The weights hold exactly the candidates among the visited keys, each with its free share. */
  ghost predicate Weighs(w: Weights, families: map<nat, Family>, visited: seq<nat>, available: Option<set<nat>>, black: set<nat>, bad: set<nat>) {
    && (forall k :: k in visited ==> k in families)
    && (forall k :: k in w <==> k in visited && FamilyCandidate(families[k], available, black, bad))
    && (forall k :: k in w ==> IsFreeShare(w[k], families[k].used, families[k].staked))
  }

  /** A picked family is a candidate, one is picked whenever there is a candidate, and the draw decides
      among them in proportion to their free storage. */
  method PickFamily(families: map<nat, Family>, available: Option<set<nat>>, black: set<nat>, bad: set<nat>, draw: real)
    returns (picked: Option<Family>, ghost w: Weights, ghost order: seq<nat>)
    requires FamiliesKeyed(families) && 0.0 <= draw < 1.0
    ensures Weighs(w, families, order, available, black, bad) && Positive(w)
    ensures multiset(order) == multiset(families.Keys)
    ensures picked.None? <==> forall k :: k in families ==> !FamilyCandidate(families[k], available, black, bad)
    ensures picked.Some? ==>
              && picked.value.id in families && families[picked.value.id] == picked.value
              && FamilyCandidate(picked.value, available, black, bad)
              && DrawnAt(w, draw, picked.value.id)
  {
    hide FamilyCandidate, IsFreeShare;
    var weights: Weights := map[];
    var keys := AnyOrder(families);
    OrderIsExact(families, keys);
    for i := 0 to |keys|
      invariant Weighs(weights, families, keys[..i], available, black, bad)
    {
      weights := AddFamily(weights, families, keys, i, available, black, bad);
    }
    assert keys[..|keys|] == keys;
    w, order := weights, keys;
    assert Positive(weights) by { SharesArePositive(weights, families); }
    var index, walk := PickIndex(weights, draw);
    if index.None? {
      return None, w, order;
    }
    picked := Some(families[index.value]);
    OrderIsExact(weights, walk);
    ghost var j :| 0 <= j < |walk| && walk[j] == index.value;
    assert Hits(w, walk, Goal(draw, Sum(w, walk)), j);
  }

  lemma SharesArePositive(w: Weights, families: map<nat, Family>)
    requires forall k :: k in w ==> k in families && IsFreeShare(w[k], families[k].used, families[k].staked)
    ensures Positive(w)
  {
  }

  /** In some order of the candidates, the draw hits the stretch of this key. */
  ghost predicate DrawnAt(w: Weights, draw: real, key: nat) {
    exists walk: seq<nat>, j: nat ::
      && multiset(walk) == multiset(w.Keys) && (forall k :: k in walk ==> k in w)
      && j < |walk| && walk[j] == key
      && Hits(w, walk, Goal(draw, Sum(w, walk)), j)
  }

  method AddFamily(w: Weights, families: map<nat, Family>, keys: seq<nat>, i: nat, available: Option<set<nat>>, black: set<nat>, bad: set<nat>)
    returns (w': Weights)
    requires FamiliesKeyed(families) && i < |keys| && (forall k :: k in keys ==> k in families)
    requires forall j :: 0 <= j < i ==> keys[j] != keys[i]
    requires Weighs(w, families, keys[..i], available, black, bad)
    ensures Weighs(w', families, keys[..i + 1], available, black, bad)
  {
    hide FamilyCandidate, IsFreeShare;
    assert keys[..i + 1] == keys[..i] + [keys[i]];
    var weight := FamilyWeight(families[keys[i]], available, black, bad);
    w' := if weight.Some? then w[families[keys[i]].id := weight.value] else w;
  }

  /** The weight of a family, if it passes the filters. */
  method FamilyWeight(f: Family, available: Option<set<nat>>, black: set<nat>, bad: set<nat>) returns (weight: Option<real>)
    requires f.staked < TWO_64
    ensures weight.Some? <==> FamilyCandidate(f, available, black, bad)
    ensures weight.Some? ==> IsFreeShare(weight.value, f.used, f.staked)
  {
    hide Weight, HasClean, HasRoom;
    if available.Some? && f.id !in available.value {
      return None;
    }
    var unlisted := AnyClean(f.gvgs, black);
    if !unlisted {
      return None;
    }
    var clean := AnyClean(f.gvgs, bad);
    if !Healthy(f, clean) {
      return None;
    }
    RoomMeans(f.used, f.staked);
    if !HasRoom(f.used, f.staked) {
      return None;
    }
    WeightInRange(f.used, f.staked);
    return Some(Weight(f.used, f.staked));
  }

  // ----- groups of one family -----

  datatype GroupChoice = StaleMetadata | NoGroup | Chosen(g: Gvg)

  /** What makes a group a candidate: neither frozen nor excluded, free of unhealthy providers, with room. */
  ghost predicate GroupCandidate(g: Gvg, frozen: set<nat>, excluded: set<nat>, bad: set<nat>) {
    g.id !in frozen && g.id !in excluded && (forall sp :: sp in g.secondary ==> sp !in bad) && 20 * g.used < 19 * g.staked
  }

  ghost predicate WeighsGroups(w: Weights, gvgs: map<nat, Gvg>, visited: seq<nat>, frozen: set<nat>, excluded: set<nat>, bad: set<nat>) {
    && (forall k :: k in visited ==> k in gvgs)
    && (forall k :: k in w <==> k in visited && GroupCandidate(gvgs[k], frozen, excluded, bad))
    && (forall k :: k in w ==> IsFreeShare(w[k], gvgs[k].used, gvgs[k].staked))
  }

  /** A missing family is stale metadata; otherwise a chosen group is a candidate of that family, one is
      chosen whenever there is a candidate, and the draw decides in proportion to free storage. */
  method PickGroup(families: map<nat, Family>, family: nat, frozen: set<nat>, excluded: set<nat>, bad: set<nat>, draw: real)
    returns (choice: GroupChoice, ghost w: Weights, ghost order: seq<nat>)
    requires 0.0 <= draw < 1.0 && forall k :: k in families ==> GroupsKeyed(families[k].gvgs)
    ensures choice.StaleMetadata? <==> family !in families
    ensures family in families ==>
              var gvgs := families[family].gvgs;
              && WeighsGroups(w, gvgs, order, frozen, excluded, bad) && Positive(w)
              && multiset(order) == multiset(gvgs.Keys)
              && (choice.NoGroup? <==> forall k :: k in gvgs ==>
                    || k in frozen || k in excluded || 20 * gvgs[k].used >= 19 * gvgs[k].staked
                    || exists sp :: sp in gvgs[k].secondary && sp in bad)
              && (choice.Chosen? ==>
                    && choice.g.id in gvgs && gvgs[choice.g.id] == choice.g
                    && GroupCandidate(choice.g, frozen, excluded, bad)
                    && DrawnAt(w, draw, choice.g.id))
  {
    if family !in families {
      return StaleMetadata, map[], [];
    }
    var gvgs := families[family].gvgs;
    var weights: Weights := map[];
    var keys := AnyOrder(gvgs);
    OrderIsExact(gvgs, keys);
    for i := 0 to |keys|
      invariant WeighsGroups(weights, gvgs, keys[..i], frozen, excluded, bad)
    {
      weights := AddGroup(weights, gvgs, keys, i, frozen, excluded, bad);
    }
    assert keys[..|keys|] == keys;
    w, order := weights, keys;
    var index, walk := PickIndex(weights, draw);
    if index.None? {
      return NoGroup, w, order;
    }
    choice := Chosen(gvgs[index.value]);
    OrderIsExact(weights, walk);
    ghost var j :| 0 <= j < |walk| && walk[j] == index.value;
    assert Hits(w, walk, Goal(draw, Sum(w, walk)), j);
  }

  method AddGroup(w: Weights, gvgs: map<nat, Gvg>, keys: seq<nat>, i: nat, frozen: set<nat>, excluded: set<nat>, bad: set<nat>)
    returns (w': Weights)
    requires GroupsKeyed(gvgs) && i < |keys| && (forall k :: k in keys ==> k in gvgs)
    requires forall j :: 0 <= j < i ==> keys[j] != keys[i]
    requires WeighsGroups(w, gvgs, keys[..i], frozen, excluded, bad)
    ensures WeighsGroups(w', gvgs, keys[..i + 1], frozen, excluded, bad)
  {
    hide Weight, Clean, HasRoom;
    var g := gvgs[keys[i]];
    assert keys[..i + 1] == keys[..i] + [keys[i]];
    w' := w;
    if g.id in frozen || g.id in excluded {
      return;
    }
    var clean := IsClean(g, bad);
    if !clean {
      return;
    }
    RoomMeans(g.used, g.staked);
    if !HasRoom(g.used, g.staked) {
      return;
    }
    WeightInRange(g.used, g.staked);
    w' := w[g.id := Weight(g.used, g.staked)];
  }
}
