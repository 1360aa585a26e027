/** Rebuilding the view of providers and virtual groups (base/gfspvgmgr/virtual_group_manager.go:298-434).
    Answers to queries, clock readings and outcomes of transactions are inputs. */
module Refresh {
  import opened FixedWidth
  import opened Maps
  import opened Options
  import opened Sorting
  import opened Providers
  import opened GroupCleanup
  import opened GroupPick
  import opened WeightedPick

  // ----- taking oneself out of the provider list, in place -----

  function Lower(c: char): char {
    if 'A' <= c <= 'Z' then c - 'A' + 'a' else c
  }

  /** strings.EqualFold on ASCII text. */
  predicate SameAddress(a: string, b: string) {
    |a| == |b| && forall i :: 0 <= i < |a| ==> Lower(a[i]) == Lower(b[i])
  }

  predicate IsSelf(p: Provider, self: string) {
    SameAddress(self, p.address)
  }

  /** The same letter, one of them a capital. */
  predicate CasePair(small: char, capital: char) {
    'a' <= small <= 'z' && small as int == capital as int + 32
  }

  /** The two texts differ at most in the case of letters. */
  ghost predicate Folds(a: string, b: string) {
    |a| == |b| && forall i :: 0 <= i < |a| ==> a[i] == b[i] || CasePair(a[i], b[i]) || CasePair(b[i], a[i])
  }

  lemma SelfMeans(p: Provider, self: string)
    ensures IsSelf(p, self) <==> Folds(self, p.address)
  {
    var a, b := self, p.address;
    if |a| == |b| {
      forall i | 0 <= i < |a|
        ensures Lower(a[i]) == Lower(b[i]) <==> a[i] == b[i] || CasePair(a[i], b[i]) || CasePair(b[i], a[i])
      {
        LowerMeans(a[i], b[i]);
      }
      hide Lower, CasePair;
    }
  }

  lemma LowerMeans(x: char, y: char)
    ensures Lower(x) == Lower(y) <==> x == y || CasePair(x, y) || CasePair(y, x)
  {
  }

  /** What append(list[:i], list[i+1:]...) leaves in the list's own memory: the tail moves down one place
      and the last entry stays behind. */
  function ShiftedDown<T>(s: seq<T>, i: nat): (r: seq<T>)
    requires i < |s|
    ensures |r| == |s|
  {
    s[..i] + s[i + 1..] + [s[|s| - 1]]
  }

  /** The list's memory when the loop is at position `i`, and whether an entry has matched. */
  function Sweep(s: seq<Provider>, self: string, i: nat, hit: bool): (r: (seq<Provider>, bool))
    requires i <= |s|
    ensures |r.0| == |s|
    decreases |s| - i
  {
    if i == |s| then (s, hit)
    else if IsSelf(s[i], self) then Sweep(ShiftedDown(s, i), self, i + 1, true)
    else Sweep(s, self, i + 1, hit)
  }

  /** The slice kept as the other providers: nil when nothing matched. */
  function Others(s: seq<Provider>, self: string): seq<Provider> {
    var (memory, hit) := Sweep(s, self, 0, false);
    if hit && s != [] then memory[..|s| - 1] else []
  }

  function Without(s: seq<Provider>, self: string): seq<Provider> {
    if s == [] then []
    else (if IsSelf(s[0], self) then [] else [s[0]]) + Without(s[1..], self)
  }

  function Matches(s: seq<Provider>, self: string): nat {
    if s == [] then 0 else (if IsSelf(s[0], self) then 1 else 0) + Matches(s[1..], self)
  }

  lemma {:induction false} WithoutLength(s: seq<Provider>, self: string)
    ensures |Without(s, self)| + Matches(s, self) == |s|
    ensures Matches(s, self) == 0 ==> Without(s, self) == s
    ensures Matches(s, self) == 0 <==> forall i :: 0 <= i < |s| ==> !IsSelf(s[i], self)
  {
    hide IsSelf;
    if s != [] {
      WithoutLength(s[1..], self);
      assert s == [s[0]] + s[1..];
      assert forall i :: 0 < i < |s| ==> s[i] == s[1..][i - 1];
    }
  }

  /** A stretch without a match leaves the sweep as it is. */
  lemma {:induction false} SweepOverOthers(s: seq<Provider>, self: string, i: nat, hit: bool)
    requires i <= |s| && forall j :: i <= j < |s| ==> !IsSelf(s[j], self)
    ensures Sweep(s, self, i, hit) == (s, hit)
    decreases |s| - i
  {
    hide IsSelf;
    if i < |s| {
      SweepOverOthers(s, self, i + 1, hit);
    }
  }

  lemma {:induction false} SweepToMatch(s: seq<Provider>, self: string, i: nat, m: nat)
    requires i <= m < |s| && IsSelf(s[m], self) && forall j :: i <= j < m ==> !IsSelf(s[j], self)
    ensures Sweep(s, self, i, false) == Sweep(ShiftedDown(s, m), self, m + 1, true)
    decreases m - i
  {
    hide IsSelf;
    if i < m {
      SweepToMatch(s, self, i + 1, m);
    }
  }

  /** Shifting the list under the running loop still yields exactly the list without oneself, precisely
      when one entry matches (or the list is empty). */
  lemma {:induction false} OthersExact(s: seq<Provider>, self: string)
    ensures Others(s, self) == Without(s, self) <==> Matches(s, self) == 1 || s == []
  {
    hide IsSelf;
    WithoutLength(s, self);
    HitMeansMatch(s, self);
    if Matches(s, self) == 1 {
      OneMatch(s, self);
    }
  }

  lemma {:induction false} SplitAtMatch(s: seq<Provider>, self: string, m: nat)
    requires m < |s| && Matches(s, self) == 1 && IsSelf(s[m], self)
    ensures Without(s, self) == s[..m] + s[m + 1..]
    ensures forall j :: 0 <= j < |s| && j != m ==> !IsSelf(s[j], self)
  {
    hide IsSelf;
    var rest := s[1..];
    WithoutLength(rest, self);
    assert forall j :: 0 < j < |s| ==> s[j] == rest[j - 1];
    if m == 0 {
      assert s[..0] + s[1..] == rest;
    } else {
      assert IsSelf(rest[m - 1], self);
      SplitAtMatch(rest, self, m - 1);
      assert s[..m] + s[m + 1..] == [s[0]] + (rest[..m - 1] + rest[m..]);
    }
  }

  lemma {:induction false} OneMatch(s: seq<Provider>, self: string)
    requires Matches(s, self) == 1
    ensures Others(s, self) == Without(s, self)
  {
    hide IsSelf, Without, Matches;
    var m := FirstMatch(s, self);
    SplitAtMatch(s, self, m);
    SweepToMatch(s, self, 0, m);
    var shifted := ShiftedDown(s, m);
    forall j | m + 1 <= j < |s|
      ensures !IsSelf(shifted[j], self)
    {
      assert shifted[j] == s[if j < |s| - 1 then j + 1 else j];
    }
    SweepOverOthers(shifted, self, m + 1, true);
    assert shifted[..|s| - 1] == s[..m] + s[m + 1..];
  }

  lemma FirstMatch(s: seq<Provider>, self: string) returns (m: nat)
    requires Matches(s, self) > 0
    ensures m < |s| && IsSelf(s[m], self) && forall j :: 0 <= j < m ==> !IsSelf(s[j], self)
  {
    hide IsSelf;
    WithoutLength(s, self);
    m := 0;
    while !IsSelf(s[m], self)
      invariant m < |s| && forall j :: 0 <= j < m ==> !IsSelf(s[j], self)
      decreases |s| - m
    {
      m := m + 1;
    }
  }

  /** The loop of the refresh, on the list's own memory. */
  method FindSelf(list: array<Provider>, self: string) returns (me: Option<Provider>, others: seq<Provider>)
    modifies list
    ensures others == Others(old(list[..]), self)
    ensures me.Some? <==> Matches(old(list[..]), self) > 0
    ensures me.Some? ==> IsSelf(me.value, self) && me.value in old(list[..])
  {
    hide IsSelf;
    ghost var s := list[..];
    me := None;
    var kept := -1;
    for i := 0 to list.Length
      invariant Sweep(list[..], self, i, me.Some?) == Sweep(s, self, 0, false)
      invariant kept == if me.Some? then list.Length - 1 else -1
      invariant me.Some? ==> IsSelf(me.value, self) && me.value in s
      invariant forall k :: 0 <= k < list.Length ==> list[k] in s
    {
      var p := list[i];
      if IsSelf(p, self) {
        me := Some(p);
        kept := list.Length - 1;
        ShiftDown(list, i);
      }
    }
    others := if kept >= 0 then list[..kept] else [];
    HitMeansMatch(s, self);
  }

  /** Moves everything behind position `i` down one place. */
  method ShiftDown(list: array<Provider>, i: nat)
    requires i < list.Length
    modifies list
    ensures list[..] == ShiftedDown(old(list[..]), i)
  {
    for j := i to list.Length - 1
      invariant forall k :: 0 <= k < list.Length ==> list[k] == if i <= k < j then old(list[k + 1]) else old(list[k])
    {
      list[j] := list[j + 1];
    }
  }

  lemma {:induction false} HitMeansMatch(s: seq<Provider>, self: string)
    ensures Sweep(s, self, 0, false).1 <==> Matches(s, self) > 0
  {
    hide IsSelf;
    WithoutLength(s, self);
    if Matches(s, self) == 0 {
      SweepOverOthers(s, self, 0, false);
    } else {
      var m := FirstMatch(s, self);
      SweepToMatch(s, self, 0, m);
      HitStays(ShiftedDown(s, m), self, m + 1);
    }
  }

  lemma {:induction false} HitStays(s: seq<Provider>, self: string, i: nat)
    requires i <= |s|
    ensures Sweep(s, self, i, true).1
    decreases |s| - i
  {
    hide IsSelf;
    if i < |s| {
      HitStays(if IsSelf(s[i], self) then ShiftedDown(s, i) else s, self, i + 1);
    }
  }

  // ----- families and their totals -----

  datatype FamilyRecord = FamilyRecord(id: nat, groupIds: seq<nat>)

  datatype Lookup = LookupFailed | Missing | Found(g: GroupInfo)

  /** What the outside world answers while one group is visited. */
  datatype Visit = Visit(lookup: Lookup, now: int, answer: Option<GroupInfo>, deleteOk: bool, depositOk: bool, again: Option<GroupInfo>)

  /** The answers during a refresh, by number of the visit and by the group asked for. */
  type World = (nat, nat) -> Visit

  /** A group asked for by id is answered with that id. */
  ghost predicate Honest(world: World) {
    forall n, id ::
      var v := world(n, id);
      && (v.lookup.Found? ==> v.lookup.g.id == id)
      && (v.again.Some? ==> v.again.value.id == id)
  }

  ghost predicate Distinct(ids: seq<nat>) {
    forall i, j :: 0 <= i < j < |ids| ==> ids[i] != ids[j]
  }

  function UsedOf(gvgs: map<nat, Gvg>): map<nat, nat> {
    map k | k in gvgs :: gvgs[k].used
  }

  function StakedOf(gvgs: map<nat, Gvg>): map<nat, nat> {
    map k | k in gvgs :: gvgs[k].staked
  }

  /** The family's totals are the sums over its groups, as 64-bit numbers. */
  ghost predicate TotalsAgree(f: Family) {
    f.used == MapSum(UsedOf(f.gvgs)) % TWO_64 && f.staked == MapSum(StakedOf(f.gvgs)) % TWO_64
  }

  function AddGroupTo(f: Family, g: GroupInfo): Family {
    f.(gvgs := f.gvgs[g.id := Gvg(g.id, g.secondary, g.stored, g.staked)],
       used := (f.used + g.stored) % TWO_64,
       staked := (f.staked + g.staked) % TWO_64)
  }

  /** Adding a new group keeps the totals equal to the sums. */
  lemma AddingKeepsTotals(f: Family, g: GroupInfo)
    requires TotalsAgree(f) && g.id !in f.gvgs
    ensures TotalsAgree(AddGroupTo(f, g))
  {
    hide MapSum;
    var f' := AddGroupTo(f, g);
    assert UsedOf(f'.gvgs) == UsedOf(f.gvgs)[g.id := g.stored];
    assert StakedOf(f'.gvgs) == StakedOf(f.gvgs)[g.id := g.staked];
    MapSumAdd(UsedOf(f.gvgs), g.id, g.stored);
    MapSumAdd(StakedOf(f.gvgs), g.id, g.staked);
    SumOfRemainders(MapSum(UsedOf(f.gvgs)), g.stored);
    SumOfRemainders(MapSum(StakedOf(f.gvgs)), g.staked);
  }

  lemma SumOfRemainders(a: nat, b: nat)
    ensures (a % TWO_64 + b) % TWO_64 == (a + b) % TWO_64
  {
  }

  /** One visit: the schedule after it, whether the refresh goes on, and the group to add, if any. */
  function VisitResult(gc: Schedule, v: Visit, byChain: bool): (Schedule, bool, Option<GroupInfo>) {
    match v.lookup
    case LookupFailed => (gc, false, None)
    case Missing => (gc, true, None)
    case Found(g) =>
      var (gc', r) := Observe(gc, Call(v.now, g, byChain, v.answer, v.deleteOk, v.depositOk));
      if r.failed then (gc', false, None)
      else if r.deleted then (gc', true, None)
      else if r.deposited then (gc', v.again.Some?, v.again)
      else (gc', true, Some(g))
  }

  /** The visit stops the refresh: the lookup failed, the monitor failed, or the query after a deposit did. */
  predicate Stops(gc: Schedule, v: Visit, byChain: bool) {
    match v.lookup
    case LookupFailed => true
    case Missing => false
    case Found(g) =>
      var c := Call(v.now, g, byChain, v.answer, v.deleteOk, v.depositOk);
      MonitorFails(gc, c) || (Deposits(c) && v.again.None?)
  }

  /** The monitor call that a visit makes for the group it found. */
  function MonitorCall(v: Visit, byChain: bool): Call
    requires v.lookup.Found?
  {
    Call(v.now, v.lookup.g, byChain, v.answer, v.deleteOk, v.depositOk)
  }

  /** The group is deleted in this visit: found empty, in its minute, and the transaction passes. */
  predicate Discarded(gc: Schedule, v: Visit, byChain: bool)
    requires v.lookup.Found?
  {
    && v.deleteOk
    && exists id :: id in gc && FoundEmpty(MonitorCall(v, byChain), id) && gc[id] <= v.now <= gc[id] + 60
  }

  /** What the answers of a visit leave to publish: nothing of a group that is missing or was just deleted, the
      second answer after a deposit, and otherwise the group as it was found. */
  function Contributed(gc: Schedule, v: Visit, byChain: bool): Option<GroupInfo> {
    if !v.lookup.Found? || Discarded(gc, v, byChain) then None
    else if Deposits(MonitorCall(v, byChain)) then v.again
    else Some(v.lookup.g)
  }

  /** A visit that does not stop the refresh contributes just that. */
  lemma ContributionExactly(gc: Schedule, v: Visit, byChain: bool)
    requires !Stops(gc, v, byChain)
    ensures VisitResult(gc, v, byChain).2 == Contributed(gc, v, byChain)
  {
    if v.lookup.Found? {
      hide Observe, MonitorFails, Deposits, FoundEmpty;
      var c := MonitorCall(v, byChain);
      ReportsExactly(gc, c);
      DeletesExactly(gc, c);
    }
  }

  lemma VisitStopsExactly(gc: Schedule, v: Visit, byChain: bool)
    ensures VisitResult(gc, v, byChain).1 <==> !Stops(gc, v, byChain)
  {
    if v.lookup.Found? {
      hide Observe, MonitorFails, Deposits;
      ReportsExactly(gc, Call(v.now, v.lookup.g, byChain, v.answer, v.deleteOk, v.depositOk));
    }
  }

  method VisitGroup(v: Visit, byChain: bool, monitor: GroupMonitor) returns (ok: bool, g: Option<GroupInfo>)
    modifies monitor
    ensures (monitor.gc, ok, g) == VisitResult(old(monitor.gc), v, byChain)
  {
    match v.lookup
    case LookupFailed => return false, None;
    case Missing => return true, None;
    case Found(found) =>
      var r := monitor.Monitor(Call(v.now, found, byChain, v.answer, v.deleteOk, v.depositOk));
      if r.failed {
        return false, None;
      }
      if r.deleted {
        return true, None;
      }
      if r.deposited {
        return v.again.Some?, v.again;
      }
      return true, Some(found);
  }

  /** The schedule and the family after the first `i` listed groups; no family once a visit failed. */
  function FamilyUpTo(record: FamilyRecord, world: World, start: nat, byChain: bool, gc: Schedule, i: nat): (Schedule, Option<Family>)
    requires i <= |record.groupIds|
  {
    if i == 0 then (gc, Some(Family(record.id, 0, 0, map[])))
    else
      var (gc', f) := FamilyUpTo(record, world, start, byChain, gc, i - 1);
      if f.None? then (gc', None)
      else
        var (gc2, ok, g) := VisitResult(gc', world(start + i - 1, record.groupIds[i - 1]), byChain);
        (gc2, if !ok then None else if g.Some? then Some(AddGroupTo(f.value, g.value)) else f)
  }

  /** No visit among the first `n` stops the refresh. */
  predicate Answered(record: FamilyRecord, world: World, start: nat, byChain: bool, gc: Schedule, n: nat)
    requires n <= |record.groupIds|
  {
    forall j :: 0 <= j < n ==> GoesOn(record, world, start, byChain, gc, j)
  }

  predicate GoesOn(record: FamilyRecord, world: World, start: nat, byChain: bool, gc: Schedule, j: nat)
    requires j < |record.groupIds|
  {
    !Stops(FamilyUpTo(record, world, start, byChain, gc, j).0, world(start + j, record.groupIds[j]), byChain)
  }

  /** A family is built exactly when no visit to one of its groups stops the refresh. */
  lemma {:induction false} FamilySucceeds(record: FamilyRecord, world: World, start: nat, byChain: bool, gc: Schedule, n: nat)
    requires n <= |record.groupIds|
    ensures FamilyUpTo(record, world, start, byChain, gc, n).1.Some? <==> Answered(record, world, start, byChain, gc, n)
  {
    hide VisitResult, Stops;
    if n > 0 {
      FamilySucceeds(record, world, start, byChain, gc, n - 1);
      var (before, f) := FamilyUpTo(record, world, start, byChain, gc, n - 1);
      var v := world(start + n - 1, record.groupIds[n - 1]);
      VisitStopsExactly(before, v, byChain);
      assert FamilyUpTo(record, world, start, byChain, gc, n).1.Some? <==> f.Some? && VisitResult(before, v, byChain).1;
      assert GoesOn(record, world, start, byChain, gc, n - 1) <==> !Stops(before, v, byChain);
      hide GoesOn, FamilyUpTo;
      assert Answered(record, world, start, byChain, gc, n) <==>
             Answered(record, world, start, byChain, gc, n - 1) && GoesOn(record, world, start, byChain, gc, n - 1);
    }
  }

  /** What the visit to the listed group number `j` contributes. */
  function Contribution(record: FamilyRecord, world: World, start: nat, byChain: bool, gc: Schedule, j: nat): Option<GroupInfo>
    requires j < |record.groupIds|
  {
    Contributed(FamilyUpTo(record, world, start, byChain, gc, j).0, world(start + j, record.groupIds[j]), byChain)
  }

  method BuildFamily(record: FamilyRecord, world: World, start: nat, byChain: bool, monitor: GroupMonitor) returns (built: Option<Family>)
    modifies monitor
    ensures (monitor.gc, built) == FamilyUpTo(record, world, start, byChain, old(monitor.gc), |record.groupIds|)
  {
    hide Observe;
    var f := Family(record.id, 0, 0, map[]);
    for i := 0 to |record.groupIds|
      invariant (monitor.gc, Some(f)) == FamilyUpTo(record, world, start, byChain, old(monitor.gc), i)
    {
      var ok, g := VisitGroup(world(start + i, record.groupIds[i]), byChain, monitor);
      if !ok {
        FailureStays(record, world, start, byChain, old(monitor.gc), i + 1, |record.groupIds|);
        return None;
      }
      if g.Some? {
        f := AddGroupTo(f, g.value);
      }
    }
    built := Some(f);
  }

  lemma {:induction false} FailureStays(record: FamilyRecord, world: World, start: nat, byChain: bool, gc: Schedule, i: nat, n: nat)
    requires i <= n <= |record.groupIds| && FamilyUpTo(record, world, start, byChain, gc, i).1.None?
    ensures FamilyUpTo(record, world, start, byChain, gc, n) == FamilyUpTo(record, world, start, byChain, gc, i)
    decreases n - i
  {
    if i < n {
      FailureStays(record, world, start, byChain, gc, i, n - 1);
    }
  }

  /** A family put together from what each listed id contributed. */
  function Assembled(id: nat, parts: seq<Option<GroupInfo>>): Family {
    if parts == [] then Family(id, 0, 0, map[])
    else
      var f, last := Assembled(id, parts[..|parts| - 1]), parts[|parts| - 1];
      if last.Some? then AddGroupTo(f, last.value) else f
  }

  /** The family holds exactly the groups that were contributed, each as it was seen, and its totals are
      the sums over them. */
  ghost predicate Holds(f: Family, ids: seq<nat>, parts: seq<Option<GroupInfo>>)
    requires |ids| == |parts|
  {
    && GroupsKeyed(f.gvgs) && TotalsAgree(f)
    && (forall k :: k in f.gvgs ==> k in ids)
    && forall j :: 0 <= j < |ids| ==>
         && (ids[j] in f.gvgs <==> parts[j].Some?)
         && (parts[j].Some? ==>
               f.gvgs[ids[j]] == Gvg(ids[j], parts[j].value.secondary, parts[j].value.stored, parts[j].value.staked))
  }

  lemma {:induction false} AssembledHolds(id: nat, ids: seq<nat>, parts: seq<Option<GroupInfo>>)
    requires |ids| == |parts| && Distinct(ids)
    requires forall j :: 0 <= j < |ids| && parts[j].Some? ==> parts[j].value.id == ids[j]
    ensures Assembled(id, parts).id == id && Holds(Assembled(id, parts), ids, parts)
    decreases |ids|
  {
    if ids == [] {
      EmptyTotals(id);
    } else {
      hide TotalsAgree, Holds, AddGroupTo;
      var n := |ids| - 1;
      AssembledHolds(id, ids[..n], parts[..n]);
      var f := Assembled(id, parts[..n]);
      HoldsOneMore(f, ids, parts);
    }
  }

  lemma HoldsOneMore(f: Family, ids: seq<nat>, parts: seq<Option<GroupInfo>>)
    requires |ids| == |parts| > 0 && Distinct(ids) && Holds(f, ids[..|ids| - 1], parts[..|ids| - 1])
    requires var last := parts[|ids| - 1]; last.Some? ==> last.value.id == ids[|ids| - 1]
    ensures var last := parts[|ids| - 1]; Holds(if last.Some? then AddGroupTo(f, last.value) else f, ids, parts)
  {
    hide TotalsAgree;
    var n := |ids| - 1;
    assert ids == ids[..n] + [ids[n]];
    assert ids[n] !in f.gvgs;
    if parts[n].Some? {
      AddingKeepsTotals(f, parts[n].value);
    }
  }

  function Contributions(record: FamilyRecord, world: World, start: nat, byChain: bool, gc: Schedule, n: nat): seq<Option<GroupInfo>>
    requires n <= |record.groupIds|
  {
    seq(n, j requires 0 <= j < n => Contribution(record, world, start, byChain, gc, j))
  }

  lemma {:induction false} FamilyIsAssembled(record: FamilyRecord, world: World, start: nat, byChain: bool, gc: Schedule, n: nat)
    requires n <= |record.groupIds|
    ensures var f := FamilyUpTo(record, world, start, byChain, gc, n).1;
            f.Some? ==> f.value == Assembled(record.id, Contributions(record, world, start, byChain, gc, n))
  {
    hide VisitResult, Contributed, Stops, AddGroupTo;
    if n > 0 {
      FamilyIsAssembled(record, world, start, byChain, gc, n - 1);
      var parts := Contributions(record, world, start, byChain, gc, n);
      assert parts[..n - 1] == Contributions(record, world, start, byChain, gc, n - 1);
      var before, v := FamilyUpTo(record, world, start, byChain, gc, n - 1).0, world(start + n - 1, record.groupIds[n - 1]);
      VisitStopsExactly(before, v, byChain);
      if VisitResult(before, v, byChain).1 {
        ContributionExactly(before, v, byChain);
        assert parts[n - 1] == VisitResult(before, v, byChain).2;
      }
    }
  }

  function GvgOf(g: GroupInfo): Gvg {
    Gvg(g.id, g.secondary, g.stored, g.staked)
  }

  predicate Contributes(parts: seq<Option<GroupInfo>>, j: nat, k: nat) {
    j < |parts| && parts[j].Some? && parts[j].value.id == k
  }

  /** No later part has the same id. */
  predicate IsLast(parts: seq<Option<GroupInfo>>, j: nat) {
    j < |parts| && parts[j].Some? && forall i :: j < i < |parts| ==> !Contributes(parts, i, parts[j].value.id)
  }

  /** The family holds exactly the ids that were contributed, and for each of them what was contributed last. */
  ghost predicate HoldsLast(f: Family, parts: seq<Option<GroupInfo>>) {
    && (forall k :: k in f.gvgs <==> exists j: nat :: Contributes(parts, j, k))
    && (forall j: nat :: IsLast(parts, j) ==> 
           var g := parts[j].value;
           g.id in f.gvgs && f.gvgs[g.id] == Gvg(g.id, g.secondary, g.stored, g.staked))
  }

  /** The sizes of the groups that were added to the totals and then replaced by another of the same id. */
  function Replaced(id: nat, parts: seq<Option<GroupInfo>>): (nat, nat) {
    if parts == [] then (0, 0)
    else
      var before, f, last := Replaced(id, parts[..|parts| - 1]), Assembled(id, parts[..|parts| - 1]), parts[|parts| - 1];
      if last.Some? && last.value.id in f.gvgs
      then (before.0 + f.gvgs[last.value.id].used, before.1 + f.gvgs[last.value.id].staked)
      else before
  }

  lemma {:induction false} AssembledHoldsLast(id: nat, parts: seq<Option<GroupInfo>>)
    ensures var f := Assembled(id, parts); f.id == id && HoldsLast(f, parts) && GroupsKeyed(f.gvgs)
  {
    if parts != [] {
      var n := |parts| - 1;
      var init, f, g := parts[..n], Assembled(id, parts[..n]), Assembled(id, parts);
      AssembledHoldsLast(id, init);
      forall k
        ensures k in g.gvgs <==> exists j: nat :: Contributes(parts, j, k)
      {
        if j: nat :| Contributes(init, j, k) {
          assert Contributes(parts, j, k);
        }
        if j: nat :| Contributes(parts, j, k) {
          assert j == n || Contributes(init, j, k);
        }
        assert parts[n].Some? && parts[n].value.id == k ==> Contributes(parts, n, k);
      }
      forall j: nat | IsLast(parts, j)
        ensures parts[j].value.id in g.gvgs && g.gvgs[parts[j].value.id] == GvgOf(parts[j].value)
      {
        if j < n {
          assert !Contributes(parts, n, parts[j].value.id);
          forall i | j < i < n
            ensures !Contributes(init, i, parts[j].value.id)
          {
            assert !Contributes(parts, i, parts[j].value.id);
          }
          assert IsLast(init, j);
        }
      }
    }
  }

  lemma PlusRemainder(a: nat, b: nat)
    ensures (a + b) % TWO_64 == a % TWO_64 <==> b % TWO_64 == 0
  {
  }

  /** The sum over a map in which one value is replaced. */
  lemma SumAfterUpdate(m: map<nat, nat>, k: nat, v: nat)
    ensures MapSum(m[k := v]) + (if k in m then m[k] else 0) == MapSum(m) + v
  {
    hide MapSum;
    if k in m {
      var rest := m - {k};
      MapSumAdd(rest, k, v);
      MapSumAdd(rest, k, m[k]);
      assert rest[k := v] == m[k := v] && rest[k := m[k]] == m;
    } else {
      MapSumAdd(m, k, v);
    }
  }

  lemma NextTotal(total: nat, sum: nat, gone: nat, sum': nat, old': nat, v: nat)
    requires total == (sum + gone) % TWO_64 && sum' + old' == sum + v
    ensures (total + v) % TWO_64 == (sum' + (gone + old')) % TWO_64
  {
    SumOfRemainders(sum + gone, v);
    assert sum + gone + v == sum' + (gone + old');
  }

  /** The totals of a family are the sums over its groups and over the groups that were replaced. */
  lemma {:induction false} AssembledTotals(id: nat, parts: seq<Option<GroupInfo>>)
    ensures var f, gone := Assembled(id, parts), Replaced(id, parts);
            && f.used == (MapSum(UsedOf(f.gvgs)) + gone.0) % TWO_64
            && f.staked == (MapSum(StakedOf(f.gvgs)) + gone.1) % TWO_64
  {
    hide MapSum;
    if parts == [] {
      EmptyTotals(id);
    } else {
      var n := |parts| - 1;
      AssembledTotals(id, parts[..n]);
      if parts[n].Some? {
        AddedTotals(Assembled(id, parts[..n]), parts[n].value, Replaced(id, parts[..n]));
      }
    }
  }

  lemma AddedTotals(f: Family, g: GroupInfo, gone: (nat, nat))
    requires f.used == (MapSum(UsedOf(f.gvgs)) + gone.0) % TWO_64
    requires f.staked == (MapSum(StakedOf(f.gvgs)) + gone.1) % TWO_64
    ensures var h := AddGroupTo(f, g);
            var used, staked := if g.id in f.gvgs then f.gvgs[g.id].used else 0, if g.id in f.gvgs then f.gvgs[g.id].staked else 0;
            && h.used == (MapSum(UsedOf(h.gvgs)) + (gone.0 + used)) % TWO_64
            && h.staked == (MapSum(StakedOf(h.gvgs)) + (gone.1 + staked)) % TWO_64
  {
    hide MapSum;
    var h := AddGroupTo(f, g);
    assert UsedOf(h.gvgs) == UsedOf(f.gvgs)[g.id := g.stored];
    assert StakedOf(h.gvgs) == StakedOf(f.gvgs)[g.id := g.staked];
    SumAfterUpdate(UsedOf(f.gvgs), g.id, g.stored);
    SumAfterUpdate(StakedOf(f.gvgs), g.id, g.staked);
    var used, staked := if g.id in f.gvgs then f.gvgs[g.id].used else 0, if g.id in f.gvgs then f.gvgs[g.id].staked else 0;
    NextTotal(f.used, MapSum(UsedOf(f.gvgs)), gone.0, MapSum(UsedOf(h.gvgs)), used, g.stored);
    NextTotal(f.staked, MapSum(StakedOf(f.gvgs)), gone.1, MapSum(StakedOf(h.gvgs)), staked, g.staked);
  }

  /** A family that is built holds, for every id that was contributed, what was contributed last; its totals
      are the sums over its groups exactly when what was replaced adds up to nothing. */
  lemma {:induction false} FamilyIsBuilt(record: FamilyRecord, world: World, start: nat, byChain: bool, gc: Schedule)
    ensures var built := FamilyUpTo(record, world, start, byChain, gc, |record.groupIds|).1;
            var parts := Contributions(record, world, start, byChain, gc, |record.groupIds|);
            built.Some? ==>
              && built.value.id == record.id && built.value.staked < TWO_64
              && HoldsLast(built.value, parts) && GroupsKeyed(built.value.gvgs)
              && (TotalsAgree(built.value) <==>
                    Replaced(record.id, parts).0 % TWO_64 == 0 && Replaced(record.id, parts).1 % TWO_64 == 0)
  {
    hide Contributions, FamilyUpTo, HoldsLast, Assembled, Replaced, GroupsKeyed, MapSum;
    var parts := Contributions(record, world, start, byChain, gc, |record.groupIds|);
    FamilyIsAssembled(record, world, start, byChain, gc, |record.groupIds|);
    AssembledHoldsLast(record.id, parts);
    AssembledTotals(record.id, parts);
    var f, gone := Assembled(record.id, parts), Replaced(record.id, parts);
    PlusRemainder(MapSum(UsedOf(f.gvgs)), gone.0);
    PlusRemainder(MapSum(StakedOf(f.gvgs)), gone.1);
  }

  /** With distinct listed ids and answers that carry the id asked for, nothing is replaced: the family holds
      exactly the groups its listed ids contributed, and its totals are the sums over them. */
  lemma {:induction false} DistinctFamilyHolds(record: FamilyRecord, world: World, start: nat, byChain: bool, gc: Schedule)
    requires Honest(world) && Distinct(record.groupIds)
    ensures var f := FamilyUpTo(record, world, start, byChain, gc, |record.groupIds|).1;
            f.Some? ==>
              && Holds(f.value, record.groupIds, Contributions(record, world, start, byChain, gc, |record.groupIds|))
              && (MapSum(UsedOf(f.value.gvgs)) < TWO_64 ==> f.value.used == MapSum(UsedOf(f.value.gvgs)))
              && (MapSum(StakedOf(f.value.gvgs)) < TWO_64 ==> f.value.staked == MapSum(StakedOf(f.value.gvgs)))
  {
    hide Observe, Holds, Assembled, MapSum;
    var ids := record.groupIds;
    FamilyIsAssembled(record, world, start, byChain, gc, |ids|);
    var parts := Contributions(record, world, start, byChain, gc, |ids|);
    forall j | 0 <= j < |ids| && parts[j].Some?
      ensures parts[j].value.id == ids[j]
    {
      assert Honest(world);
      var v := world(start + j, ids[j]);
    }
    AssembledHolds(record.id, ids, parts);
    HeldTotals(Assembled(record.id, parts), ids, parts);
  }

  /** Sums that fit in 64 bits are the totals themselves. */
  lemma HeldTotals(f: Family, ids: seq<nat>, parts: seq<Option<GroupInfo>>)
    requires |ids| == |parts| && Holds(f, ids, parts)
    ensures MapSum(UsedOf(f.gvgs)) < TWO_64 ==> f.used == MapSum(UsedOf(f.gvgs))
    ensures MapSum(StakedOf(f.gvgs)) < TWO_64 ==> f.staked == MapSum(StakedOf(f.gvgs))
  {
    hide MapSum;
  }

  /** A group listed twice is counted twice in the totals but held once. */
  lemma RepeatedIdCountsTwice(record: FamilyRecord, world: World, g: GroupInfo)
    requires record == FamilyRecord(1, [7, 7]) && g == GroupInfo(7, 5, 100, [])
    requires world(0, 7).lookup == Found(g) && world(1, 7).lookup == Found(g)
    ensures var f := FamilyUpTo(record, world, 0, true, map[], 2).1;
            f.Some? && f.value.used == 10 && f.value.gvgs == map[7 := GvgOf(g)] && !TotalsAgree(f.value)
  {
    hide TotalsAgree;
    RoomMeans(g.stored, g.staked);
    assert VisitResult(map[], world(0, 7), true) == (map[], true, Some(g));
    assert VisitResult(map[], world(1, 7), true) == (map[], true, Some(g));
    assert Contributed(map[], world(0, 7), true) == Some(g) && Contributed(map[], world(1, 7), true) == Some(g);
    hide VisitResult, Contributed;
    assert FamilyUpTo(record, world, 0, true, map[], 0).0 == map[];
    assert FamilyUpTo(record, world, 0, true, map[], 1).0 == map[];
    FamilyIsAssembled(record, world, 0, true, map[], 2);
    var parts := Contributions(record, world, 0, true, map[], 2);
    assert parts == [Some(g), Some(g)];
    CountedTwice(1, g, parts);
  }

  lemma CountedTwice(id: nat, g: GroupInfo, parts: seq<Option<GroupInfo>>)
    requires parts == [Some(g), Some(g)] && g.stored == 5
    ensures var f := Assembled(id, parts); f.used == 10 && f.gvgs == map[g.id := GvgOf(g)] && !TotalsAgree(f)
  {
    var one := parts[..1];
    assert one == [Some(g)] && one[..0] == [];
    assert Assembled(id, one) == AddGroupTo(Assembled(id, one[..0]), g);
    var f := Assembled(id, parts);
    assert f == AddGroupTo(Assembled(id, one), g);
    assert f.gvgs == map[g.id := GvgOf(g)];
    assert UsedOf(f.gvgs) == map[g.id := 5];
    MapSumAdd(map[], g.id, 5);
    assert map[][g.id := 5] == map[g.id := 5];
  }

  lemma EmptyTotals(id: nat)
    ensures TotalsAgree(Family(id, 0, 0, map[]))
  {
    assert UsedOf(map[]) == map[] && StakedOf(map[]) == map[];
  }

  /** The schedule, the number of visits and the families after the first `m` records; no families once
      one could not be built. */
  function FamiliesUpTo(records: seq<FamilyRecord>, world: World, byChain: bool, gc: Schedule, m: nat): (Schedule, nat, Option<map<nat, Family>>)
    requires m <= |records|
  {
    if m == 0 then (gc, 0, Some(map[]))
    else
      var (gc', n, fs) := FamiliesUpTo(records, world, byChain, gc, m - 1);
      if fs.None? then (gc', n, None)
      else
        var record := records[m - 1];
        var (gc2, f) := FamilyUpTo(record, world, n, byChain, gc', |record.groupIds|);
        (gc2, n + |record.groupIds|, if f.None? then None else Some(fs.value[record.id := f.value]))
  }

  lemma {:induction false} FamiliesFailureStays(records: seq<FamilyRecord>, world: World, byChain: bool, gc: Schedule, i: nat, m: nat)
    requires i <= m <= |records| && FamiliesUpTo(records, world, byChain, gc, i).2.None?
    ensures FamiliesUpTo(records, world, byChain, gc, m) == FamiliesUpTo(records, world, byChain, gc, i)
    decreases m - i
  {
    hide FamilyUpTo;
    if i < m {
      FamiliesFailureStays(records, world, byChain, gc, i, m - 1);
    }
  }

  /** The answers under which a refresh builds all its families. */
  predicate AllAnswered(records: seq<FamilyRecord>, world: World, byChain: bool, gc: Schedule, m: nat)
    requires m <= |records|
  {
    forall i :: 0 <= i < m ==> RecordAnswered(records, world, byChain, gc, i)
  }

  predicate RecordAnswered(records: seq<FamilyRecord>, world: World, byChain: bool, gc: Schedule, i: nat)
    requires i < |records|
  {
    var before := FamiliesUpTo(records, world, byChain, gc, i);
    Answered(records[i], world, before.1, byChain, before.0, |records[i].groupIds|)
  }

  /** The families are built exactly when no visit to any listed group stops the refresh. */
  lemma {:induction false} FamiliesSucceed(records: seq<FamilyRecord>, world: World, byChain: bool, gc: Schedule, m: nat)
    requires m <= |records|
    ensures FamiliesUpTo(records, world, byChain, gc, m).2.Some? <==> AllAnswered(records, world, byChain, gc, m)
  {
    hide FamilyUpTo, Answered;
    if m > 0 {
      FamiliesSucceed(records, world, byChain, gc, m - 1);
      var before, record := FamiliesUpTo(records, world, byChain, gc, m - 1), records[m - 1];
      FamilySucceeds(record, world, before.1, byChain, before.0, |record.groupIds|);
      assert AllAnswered(records, world, byChain, gc, m) <==>
             AllAnswered(records, world, byChain, gc, m - 1) && RecordAnswered(records, world, byChain, gc, m - 1);
    }
  }

  /** Of the first `m` records, no later one has the same id. */
  predicate LastRecord(records: seq<FamilyRecord>, m: nat, i: nat)
    requires m <= |records|
  {
    i < m && forall j :: i < j < m ==> records[j].id != records[i].id
  }

  /** The family stored under the id of record number `i` is the one built from that record. */
  ghost predicate Shows(fs: map<nat, Family>, records: seq<FamilyRecord>, world: World, byChain: bool, gc: Schedule, i: nat)
    requires i < |records|
  {
    var before := FamiliesUpTo(records, world, byChain, gc, i);
    var parts := Contributions(records[i], world, before.1, byChain, before.0, |records[i].groupIds|);
    var id := records[i].id;
    && id in fs && fs[id].id == id && HoldsLast(fs[id], parts) && GroupsKeyed(fs[id].gvgs)
    && (TotalsAgree(fs[id]) <==> Replaced(id, parts).0 % TWO_64 == 0 && Replaced(id, parts).1 % TWO_64 == 0)
    && (Honest(world) && Distinct(records[i].groupIds) ==> Holds(fs[id], records[i].groupIds, parts))
  }

  /** What Shows says depends only on the family stored under the id. */
  lemma ShowsSame(fs: map<nat, Family>, fs': map<nat, Family>, records: seq<FamilyRecord>, world: World, byChain: bool, gc: Schedule, i: nat)
    requires i < |records| && Shows(fs, records, world, byChain, gc, i)
    requires records[i].id in fs' && fs'[records[i].id] == fs[records[i].id]
    ensures Shows(fs', records, world, byChain, gc, i)
  {
    hide FamiliesUpTo, HoldsLast, Holds, TotalsAgree, Replaced, GroupsKeyed, Contributions, Honest;
  }

  lemma NewFamilyShows(fs: map<nat, Family>, f: Family, records: seq<FamilyRecord>, world: World, byChain: bool, gc: Schedule, i: nat)
    requires i < |records|
    requires var before := FamiliesUpTo(records, world, byChain, gc, i);
             FamilyUpTo(records[i], world, before.1, byChain, before.0, |records[i].groupIds|).1 == Some(f)
    requires records[i].id in fs && fs[records[i].id] == f
    ensures Shows(fs, records, world, byChain, gc, i)
  {
    hide FamiliesUpTo, HoldsLast, Holds, TotalsAgree, Replaced, GroupsKeyed, Contributions, Honest, FamilyUpTo, Distinct;
    var before := FamiliesUpTo(records, world, byChain, gc, i);
    FamilyIsBuilt(records[i], world, before.1, byChain, before.0);
    if Honest(world) && Distinct(records[i].groupIds) {
      DistinctFamilyHolds(records[i], world, before.1, byChain, before.0);
    }
  }

  /** One family is published for each listed id, stored under that id, and shows the last record with it. */
  lemma {:induction false} FamiliesAreBuilt(records: seq<FamilyRecord>, world: World, byChain: bool, gc: Schedule, m: nat)
    requires m <= |records|
    ensures var fs := FamiliesUpTo(records, world, byChain, gc, m).2;
            fs.Some? ==>
              && FamiliesKeyed(fs.value)
              && (forall k :: k in fs.value <==> exists i :: 0 <= i < m && records[i].id == k)
              && (forall i: nat :: LastRecord(records, m, i) ==> Shows(fs.value, records, world, byChain, gc, i))
  {
    hide FamilyUpTo, Shows, HoldsLast, TotalsAgree, Replaced, Contributions;
    var fs := FamiliesUpTo(records, world, byChain, gc, m).2;
    if m > 0 && fs.Some? {
      FamiliesAreBuilt(records, world, byChain, gc, m - 1);
      var before, record := FamiliesUpTo(records, world, byChain, gc, m - 1), records[m - 1];
      var f := FamilyUpTo(record, world, before.1, byChain, before.0, |record.groupIds|).1;
      assert before.2.Some? && f.Some? && fs.value == before.2.value[record.id := f.value];
      FamilyIsBuilt(record, world, before.1, byChain, before.0);
      hide FamiliesUpTo;
      forall k
        ensures k in fs.value <==> exists i :: 0 <= i < m && records[i].id == k
      {
        if k == record.id {
          assert records[m - 1].id == k;
        } else {
          assert k in fs.value <==> k in before.2.value;
        }
      }
      forall i: nat | LastRecord(records, m, i)
        ensures Shows(fs.value, records, world, byChain, gc, i)
      {
        if i == m - 1 {
          NewFamilyShows(fs.value, f.value, records, world, byChain, gc, i);
        } else {
          assert LastRecord(records, m - 1, i);
          assert records[i].id != record.id;
          ShowsSame(before.2.value, fs.value, records, world, byChain, gc, i);
        }
      }
    }
  }

  /** The families of a refresh: one for each listed id, built from the last record with it. */
  ghost predicate FamiliesShown(fs: map<nat, Family>, records: seq<FamilyRecord>, world: World, byChain: bool, gc: Schedule) {
    && FamiliesKeyed(fs)
    && (forall k :: k in fs <==> exists i :: 0 <= i < |records| && records[i].id == k)
    && (forall i: nat :: LastRecord(records, |records|, i) ==> Shows(fs, records, world, byChain, gc, i))
  }

  lemma AllShown(records: seq<FamilyRecord>, world: World, byChain: bool, gc: Schedule)
    ensures var fs := FamiliesUpTo(records, world, byChain, gc, |records|).2;
            fs.Some? ==> FamiliesShown(fs.value, records, world, byChain, gc)
  {
    hide FamiliesUpTo, Shows;
    FamiliesAreBuilt(records, world, byChain, gc, |records|);
  }

  method BuildFamilies(records: seq<FamilyRecord>, world: World, byChain: bool, monitor: GroupMonitor) returns (built: Option<map<nat, Family>>)
    modifies monitor
    ensures (monitor.gc, built) == (FamiliesUpTo(records, world, byChain, old(monitor.gc), |records|).0,
                                    FamiliesUpTo(records, world, byChain, old(monitor.gc), |records|).2)
  {
    hide FamilyUpTo;
    var fs: map<nat, Family> := map[];
    var n := 0;
    for m := 0 to |records|
      invariant (monitor.gc, n, Some(fs)) == FamiliesUpTo(records, world, byChain, old(monitor.gc), m)
    {
      var f := BuildFamily(records[m], world, n, byChain, monitor);
      n := n + |records[m].groupIds|;
      if f.None? {
        FamiliesFailureStays(records, world, byChain, old(monitor.gc), m + 1, |records|);
        return None;
      }
      fs := fs[records[m].id := f.value];
    }
    built := Some(fs);
  }

  // ----- publishing -----

  datatype Snapshot = Snapshot(me: Provider, others: seq<Provider>, params: Params, families: map<nat, Family>)

  predicate ById(a: Provider, b: Provider) {
    a.id <= b.id
  }

  lemma {:induction false} MatchesOfInsert(leq: (Provider, Provider) -> bool, x: Provider, xs: seq<Provider>, self: string)
    ensures Matches(Insert(leq, x, xs), self) == Matches(xs, self) + if IsSelf(x, self) then 1 else 0
  {
    hide IsSelf;
    if xs != [] && !leq(x, xs[0]) {
      MatchesOfInsert(leq, x, xs[1..], self);
      var rest := Insert(leq, x, xs[1..]);
      assert ([xs[0]] + rest)[1..] == rest;
    } else {
      assert ([x] + xs)[1..] == xs;
    }
  }

  lemma {:induction false} MatchesOfSort(xs: seq<Provider>, self: string)
    ensures Matches(Sort(ById, xs), self) == Matches(xs, self)
  {
    hide IsSelf;
    if xs != [] {
      MatchesOfSort(xs[1..], self);
      MatchesOfInsert(ById, xs[0], Sort(ById, xs[1..]), self);
    }
  }

  /** Without the one entry that is oneself: everybody else, in the same order. */
  lemma {:induction false} OneTakenOut(s: seq<Provider>, self: string, me: Provider)
    requires Matches(s, self) == 1 && me in s && IsSelf(me, self) && SortedBy(ById, s)
    ensures multiset(Without(s, self)) + multiset{me} == multiset(s)
    ensures SortedBy(ById, Without(s, self))
  {
    hide IsSelf, Matches, Without;
    var m :| 0 <= m < |s| && s[m] == me;
    SplitAtMatch(s, self, m);
    assert s == s[..m] + [me] + s[m + 1..];
  }

  /** The list of the other providers: all that are listed except oneself, by ascending id. */
  ghost predicate IsOthers(others: seq<Provider>, listed: seq<Provider>, me: Provider) {
    && multiset(others) + multiset{me} == multiset(listed)
    && forall i, j :: 0 <= i < j < |others| ==> others[i].id <= others[j].id
  }

  lemma AreOthers(listed: seq<Provider>, sorted: seq<Provider>, self: string, me: Provider)
    requires multiset(sorted) == multiset(listed) && SortedBy(ById, sorted) && me in sorted && IsSelf(me, self)
    ensures Matches(sorted, self) == 1 ==> IsOthers(Others(sorted, self), listed, me)
  {
    hide IsSelf, Others, Matches, Without;
    if Matches(sorted, self) == 1 {
      OthersExact(sorted, self);
      OneTakenOut(sorted, self, me);
      assert forall i, j :: 0 <= i < j < |Without(sorted, self)| ==> ById(Without(sorted, self)[i], Without(sorted, self)[j]);
    }
  }

  /** What the loop finds in the sorted list, said of the list as it came. */
  lemma {:induction false} FoundInListed(listed: seq<Provider>, self: string)
    ensures Matches(Sort(ById, listed), self) == Matches(listed, self)
    ensures Matches(listed, self) > 0 <==> exists i :: 0 <= i < |listed| && Folds(self, listed[i].address)
    ensures forall p :: p in Sort(ById, listed) <==> p in listed
  {
    hide IsSelf, Sort, Folds, Matches;
    MatchesOfSort(listed, self);
    WithoutLength(listed, self);
    forall i | 0 <= i < |listed|
      ensures IsSelf(listed[i], self) <==> Folds(self, listed[i].address)
    {
      SelfMeans(listed[i], self);
    }
    var sorted := Sort(ById, listed);
    forall p
      ensures p in sorted <==> p in listed
    {
      assert p in sorted <==> p in multiset(sorted);
      assert p in listed <==> p in multiset(listed);
    }
  }

  class GroupManager {
    const self: string
    const monitor: GroupMonitor
    const checker: HealthChecker
    var published: Option<Snapshot>

    constructor (self: string, monitor: GroupMonitor, checker: HealthChecker)
      ensures this.self == self && this.monitor == monitor && this.checker == checker && published == None
    {
      this.self, this.monitor, this.checker, published := self, monitor, checker, None;
    }

    /** refreshGVGMeta: a refresh in which any query fails, or that does not find oneself, leaves what is
        published as it was; otherwise all of it is replaced at once. */
    method Refresh(byChain: bool, listed: Option<seq<Provider>>, params: Option<Params>, records: Option<seq<FamilyRecord>>, world: World)
      returns (ok: bool, ghost me: Option<Provider>)
      modifies this`published, monitor, checker`sps
      ensures me.Some? <==> listed.Some? && exists i :: 0 <= i < |listed.value| && Folds(self, listed.value[i].address)
      ensures me.Some? ==> me.value in listed.value && Folds(self, me.value.address)
      ensures ok <==> && me.Some? && me.value.id != 0 && params.Some? && records.Some?
                      && AllAnswered(records.value, world, byChain, old(monitor.gc), |records.value|)
      ensures !ok ==> published == old(published)
      ensures ok ==> published.Some? && published.value.me == me.value && published.value.params == params.value
      ensures ok ==> published.value.others == Others(Sort(ById, listed.value), self)
      ensures ok && Matches(listed.value, self) == 1 ==> IsOthers(published.value.others, listed.value, me.value)
      ensures ok ==> FamiliesShown(published.value.families, records.value, world, byChain, old(monitor.gc))
      ensures listed.Some? ==> forall k :: k in checker.sps <==> exists i ::
                0 <= i < |Others(Sort(ById, listed.value), self)| && Others(Sort(ById, listed.value), self)[i].id == k
    {
      hide Sort, Others, IsSelf, Folds, Matches, FamiliesUpTo, Without, AllAnswered, FamiliesShown, IsOthers;
      if listed.None? {
        return false, None;
      }
      var sorted := Sort(ById, listed.value);
      var list := new Provider[|sorted|](i requires 0 <= i < |sorted| => sorted[i]);
      assert list[..] == sorted;
      var found, others := FindSelf(list, self);
      me := found;
      FoundInListed(listed.value, self);
      if me.Some? {
        SelfMeans(me.value, self);
        AreOthers(listed.value, sorted, self, me.value);
      }
      checker.SetMembers(others);
      if found.None? || found.value.id == 0 {
        return false, me;
      }
      if params.None? || records.None? {
        return false, me;
      }
      FamiliesSucceed(records.value, world, byChain, monitor.gc, |records.value|);
      AllShown(records.value, world, byChain, monitor.gc);
      var families := BuildFamilies(records.value, world, byChain, monitor);
      if families.None? {
        return false, me;
      }
      published := Some(Snapshot(found.value, others, params.value, families.value));
      ok := true;
    }
  }
}
