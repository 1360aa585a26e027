/** Which storage providers are kept away from: the health checker
    (base/gfspvgmgr/virtual_group_manager.go:667-786) and the freeze pool (sp_freeze_pool.go) with its
    release tick (virtual_group_manager.go:543-571). */
module Providers {
  import opened FixedWidth
  import opened Maps
  import opened Options

  datatype Provider = Provider(id: nat, inService: bool, address: string)

  /** The redundancy parameters of the chain: data and parity chunk numbers. */
  datatype Params = Params(data: nat, parity: nat) {
    /** Their sum as an unsigned 32-bit number. */
    function Need(): (n: nat)
      ensures data + parity < TWO_32 ==> n == data + parity
    {
      (data + parity) % TWO_32
    }
  }

  type Probe = Provider -> bool

  /** checkSPHealth: a provider out of service is not even probed. */
  predicate IsUp(p: Provider, probe: Probe) {
    p.inService && probe(p)
  }

  predicate ProvidersKeyed(ps: map<nat, Provider>) {
    forall k :: k in ps ==> ps[k].id == k
  }

  // ----- health checker -----

  function DownProviders(sps: map<nat, Provider>, probe: Probe): map<nat, Provider> {
    map k | k in sps && !IsUp(sps[k], probe) :: sps[k]
  }

  function UpIds(sps: map<nat, Provider>, probe: Probe): set<nat> {
    set k | k in sps && IsUp(sps[k], probe)
  }

  /** The unhealthy providers after one round of checks. */
  function AfterCheck(sps: map<nat, Provider>, unhealthy: map<nat, Provider>, probe: Probe, params: Option<Params>): map<nat, Provider> {
    var down := DownProviders(sps, probe);
    if down != map[] && params.Some? && |sps| - |down| >= params.value.Need() then down
    else unhealthy - UpIds(sps, probe)
  }

  /** The members by id; of two with the same id the later one counts. */
  function MembersOf(ps: seq<Provider>): map<nat, Provider> {
    if ps == [] then map[] else MembersOf(ps[..|ps| - 1])[ps[|ps| - 1].id := ps[|ps| - 1]]
  }

  /** The members treated as unhealthy. */
  function Rejected(sps: map<nat, Provider>, unhealthy: map<nat, Provider>): set<nat> {
    set k | k in sps && k in unhealthy
  }

  /** The providers found down, and the ids found up, among the first `n` keys. */
  function DownAmong(sps: map<nat, Provider>, keys: seq<nat>, probe: Probe, n: nat): map<nat, Provider>
    requires n <= |keys| && forall k :: k in keys ==> k in sps
  {
    if n == 0 then map[]
    else
      var down := DownAmong(sps, keys, probe, n - 1);
      if IsUp(sps[keys[n - 1]], probe) then down else down[keys[n - 1] := sps[keys[n - 1]]]
  }

  function UpAmong(sps: map<nat, Provider>, keys: seq<nat>, probe: Probe, n: nat): set<nat>
    requires n <= |keys| && forall k :: k in keys ==> k in sps
  {
    if n == 0 then {}
    else
      var up := UpAmong(sps, keys, probe, n - 1);
      if IsUp(sps[keys[n - 1]], probe) then up + {keys[n - 1]} else up
  }

  lemma {:induction false} AmongMeans(sps: map<nat, Provider>, keys: seq<nat>, probe: Probe, n: nat, k: nat)
    requires n <= |keys| && forall x :: x in keys ==> x in sps
    ensures k in DownAmong(sps, keys, probe, n) <==> (exists i :: 0 <= i < n && keys[i] == k) && !IsUp(sps[k], probe)
    ensures k in UpAmong(sps, keys, probe, n) <==> (exists i :: 0 <= i < n && keys[i] == k) && IsUp(sps[k], probe)
    ensures k in DownAmong(sps, keys, probe, n) ==> DownAmong(sps, keys, probe, n)[k] == sps[k]
  {
    hide IsUp;
    if n > 0 {
      AmongMeans(sps, keys, probe, n - 1, k);
    }
  }

  lemma AllProbed(sps: map<nat, Provider>, keys: seq<nat>, probe: Probe)
    requires multiset(keys) == multiset(sps.Keys) && forall k :: k in keys ==> k in sps
    ensures DownAmong(sps, keys, probe, |keys|) == DownProviders(sps, probe)
    ensures UpAmong(sps, keys, probe, |keys|) == UpIds(sps, probe)
  {
    hide IsUp, DownAmong, UpAmong;
    OrderIsExact(sps, keys);
    var down, up := DownAmong(sps, keys, probe, |keys|), UpAmong(sps, keys, probe, |keys|);
    forall k
      ensures k in down <==> k in sps && !IsUp(sps[k], probe)
      ensures k in down ==> down[k] == sps[k]
      ensures k in up <==> k in sps && IsUp(sps[k], probe)
    {
      AmongMeans(sps, keys, probe, |keys|, k);
    }
  }

  lemma NextDown(sps: map<nat, Provider>, keys: seq<nat>, probe: Probe, i: nat)
    requires multiset(keys) == multiset(sps.Keys) && (forall k :: k in keys ==> k in sps) && i < |keys|
    requires !IsUp(sps[keys[i]], probe)
    ensures |DownAmong(sps, keys, probe, i + 1)| == |DownAmong(sps, keys, probe, i)| + 1
  {
    hide IsUp;
    OrderIsExact(sps, keys);
    AmongMeans(sps, keys, probe, i, keys[i]);
    NewKeyGrows(DownAmong(sps, keys, probe, i), keys[i], sps[keys[i]]);
  }

  lemma MinusMore<V>(m: map<nat, V>, gone: set<nat>, k: nat)
    ensures m - gone - {k} == m - (gone + {k})
  {
  }

  class HealthChecker {
    var sps: map<nat, Provider>
    var unhealthy: map<nat, Provider>

    constructor ()
      ensures sps == map[] && unhealthy == map[]
    {
      sps, unhealthy := map[], map[];
    }

    /** addAllSP: the members are replaced, the unhealthy ones are kept. */
    method SetMembers(ps: seq<Provider>)
      modifies this`sps
      ensures sps == MembersOf(ps)
      ensures forall k :: k in sps <==> exists i :: 0 <= i < |ps| && ps[i].id == k
      ensures ProvidersKeyed(sps) && forall k :: k in sps ==> sps[k] in ps
    {
      sps := map[];
      for i := 0 to |ps|
        invariant sps == MembersOf(ps[..i])
        invariant forall k :: k in sps <==> exists j :: 0 <= j < i && ps[j].id == k
        invariant ProvidersKeyed(sps) && forall k :: k in sps ==> sps[k] in ps
      {
        assert ps[..i + 1][..i] == ps[..i];
        sps := sps[ps[i].id := ps[i]];
      }
      assert ps[..|ps|] == ps;
    }

    /** isSPHealthy: only members are ever treated as unhealthy. */
    method IsHealthy(id: nat) returns (ok: bool)
      ensures ok <==> !(id in sps && id in unhealthy)
      ensures ok <==> id !in Rejected(sps, unhealthy)
    {
      if id in sps {
        if id in unhealthy {
          return false;
        } else {
          return true;
        }
      }
      return true;
    }

    /** Probes every member: collects those that are down and forgives those that are up. */
    method ProbeAll(probe: Probe) returns (down: map<nat, Provider>, count: nat)
      requires ProvidersKeyed(sps)
      modifies this`unhealthy
      ensures down == DownProviders(sps, probe) && count == |down|
      ensures unhealthy == old(unhealthy) - UpIds(sps, probe)
    {
      hide IsUp;
      var keys := AnyOrder(sps);
      down, count := map[], 0;
      for i := 0 to |keys|
        invariant down == DownAmong(sps, keys, probe, i) && count == |DownAmong(sps, keys, probe, i)|
        invariant unhealthy == old(unhealthy) - UpAmong(sps, keys, probe, i)
      {
        var p := sps[keys[i]];
        if !IsUp(p, probe) {
          NextDown(sps, keys, probe, i);
          count := count + 1;
          down := down[p.id := p];
        } else {
          MinusMore(old(unhealthy), UpAmong(sps, keys, probe, i), p.id);
          unhealthy := unhealthy - {p.id};
        }
      }
      AllProbed(sps, keys, probe);
    }

    /** checkAllSPHealth. */
    method CheckAll(probe: Probe, params: Option<Params>)
      requires ProvidersKeyed(sps)
      modifies this`unhealthy
      ensures unhealthy == AfterCheck(sps, old(unhealthy), probe, params)
      ensures CheckedRight(sps, old(unhealthy), probe, params, unhealthy)
    {
      CheckMeans(sps, unhealthy, probe, params);
      hide CheckedRight;
      var down, count := ProbeAll(probe);
      if count == 0 {
        return;
      }
      if params.None? {
        return;
      }
      if |sps| - count >= params.value.Need() {
        unhealthy := down;
      }
    }
  }

  /** Either no member is treated as unhealthy, or enough members are left for a full group. */
  predicate Quorum(sps: map<nat, Provider>, unhealthy: map<nat, Provider>, need: nat) {
    Rejected(sps, unhealthy) == {} || |sps| - |Rejected(sps, unhealthy)| >= need
  }

  /** The members that are out of service or do not answer. */
  ghost function Unreachable(sps: map<nat, Provider>, probe: Probe): set<nat> {
    set k | k in sps && (!sps[k].inService || !probe(sps[k]))
  }

  /** What a check leaves marked: when the members that can be reached suffice for a full group of data and
      parity chunks, exactly the others; when they do not, or the numbers are not known, what was marked before
      except the members that can be reached. */
  ghost predicate CheckedRight(sps: map<nat, Provider>, before: map<nat, Provider>, probe: Probe, params: Option<Params>, after: map<nat, Provider>) {
    var gone := Unreachable(sps, probe);
    var need := if params.Some? then params.value.data + params.value.parity else 0;
    need < TWO_32 ==>
      after.Keys == if params.Some? && gone != {} && |sps| - |gone| >= need then gone
                    else before.Keys - (sps.Keys - gone)
  }

  lemma CheckMeans(sps: map<nat, Provider>, before: map<nat, Provider>, probe: Probe, params: Option<Params>)
    ensures CheckedRight(sps, before, probe, params, AfterCheck(sps, before, probe, params))
  {
    var down := DownProviders(sps, probe);
    assert down.Keys == Unreachable(sps, probe) && |down| == |down.Keys|;
    assert UpIds(sps, probe) == sps.Keys - Unreachable(sps, probe);
    hide DownProviders, UpIds, Unreachable, Params.Need;
  }

  /** With the chunk numbers themselves: after a check nobody is treated as unhealthy, or data + parity members
      are left. */
  lemma CheckLeavesEnough(sps: map<nat, Provider>, unhealthy: map<nat, Provider>, probe: Probe, params: Params)
    requires Quorum(sps, unhealthy, params.data + params.parity) && params.data + params.parity < TWO_32
    ensures var rejected := set k | k in sps && k in AfterCheck(sps, unhealthy, probe, Some(params));
            rejected == {} || |sps| - |rejected| >= params.data + params.parity
  {
    CheckKeepsQuorum(sps, unhealthy, probe, Some(params), params.data + params.parity);
    assert (set k | k in sps && k in AfterCheck(sps, unhealthy, probe, Some(params))) ==
           Rejected(sps, AfterCheck(sps, unhealthy, probe, Some(params)));
    hide AfterCheck;
  }

  /** The marked members that a check finds down again. */
  function StillDown(sps: map<nat, Provider>, unhealthy: map<nat, Provider>, probe: Probe): set<nat> {
    set k | k in sps && k in unhealthy && !IsUp(sps[k], probe)
  }

  lemma RejectedAfterCheck(sps: map<nat, Provider>, unhealthy: map<nat, Provider>, probe: Probe, params: Option<Params>)
    ensures var down := DownProviders(sps, probe);
            Rejected(sps, AfterCheck(sps, unhealthy, probe, params)) ==
            if down != map[] && params.Some? && |sps| - |down| >= params.value.Need() then down.Keys
            else StillDown(sps, unhealthy, probe)
  {
    hide IsUp;
  }

  /** The exact condition under which a check ends with a quorum, whatever was marked before it: enough
      members are up, or no marked member is still down, or those that are leave enough. */
  lemma QuorumAfterCheck(sps: map<nat, Provider>, unhealthy: map<nat, Provider>, probe: Probe, params: Params)
    ensures Quorum(sps, AfterCheck(sps, unhealthy, probe, Some(params)), params.Need()) <==>
            || |sps| - |DownProviders(sps, probe)| >= params.Need()
            || StillDown(sps, unhealthy, probe) == {}
            || |sps| - |StillDown(sps, unhealthy, probe)| >= params.Need()
  {
    hide IsUp, AfterCheck, Rejected;
    RejectedAfterCheck(sps, unhealthy, probe, Some(params));
    var down := DownProviders(sps, probe);
    assert |down| == |down.Keys|;
    assert StillDown(sps, unhealthy, probe) <= down.Keys;
  }

  lemma StillDownIsMarked(sps: map<nat, Provider>, unhealthy: map<nat, Provider>, probe: Probe)
    ensures StillDown(sps, unhealthy, probe) <= Rejected(sps, unhealthy)
    ensures |StillDown(sps, unhealthy, probe)| <= |Rejected(sps, unhealthy)|
  {
    hide IsUp;
    var a, b := StillDown(sps, unhealthy, probe), Rejected(sps, unhealthy);
    assert b == a + (b - a) && |b| == |a| + |b - a|;
  }

  lemma CheckKeepsQuorum(sps: map<nat, Provider>, unhealthy: map<nat, Provider>, probe: Probe, params: Option<Params>, need: nat)
    requires Quorum(sps, unhealthy, need) && (params.Some? ==> params.value.Need() == need)
    ensures Quorum(sps, AfterCheck(sps, unhealthy, probe, params), need)
  {
    hide IsUp, AfterCheck, Rejected, StillDown;
    RejectedAfterCheck(sps, unhealthy, probe, params);
    StillDownIsMarked(sps, unhealthy, probe);
    assert |DownProviders(sps, probe)| == |DownProviders(sps, probe).Keys|;
  }

  // ----- runs of the health checker -----

  /** The refresh replaces the members; a round of checks has probe results and a parameter answer. */
  datatype Event = Members(ps: seq<Provider>) | Round(probe: Probe, params: Option<Params>)

  /** The members and the marks after a run. */
  function AfterEvents(sps: map<nat, Provider>, unhealthy: map<nat, Provider>, events: seq<Event>): (map<nat, Provider>, map<nat, Provider>)
    decreases |events|
  {
    if events == [] then (sps, unhealthy)
    else
      match events[0]
      case Members(ps) => AfterEvents(MembersOf(ps), unhealthy, events[1..])
      case Round(probe, params) => AfterEvents(sps, AfterCheck(sps, unhealthy, probe, params), events[1..])
  }

  /** None of the new members is marked, or enough of them are not. */
  predicate Welcome(ps: seq<Provider>, unhealthy: map<nat, Provider>, need: nat) {
    || (forall i :: 0 <= i < |ps| ==> ps[i].id !in unhealthy)
    || |set i | 0 <= i < |ps| && ps[i].id !in unhealthy :: ps[i].id| >= need
  }

  lemma {:induction false} MemberIds(ps: seq<Provider>, k: nat)
    ensures k in MembersOf(ps) <==> exists i :: 0 <= i < |ps| && ps[i].id == k
  {
    if ps != [] {
      MemberIds(ps[..|ps| - 1], k);
    }
  }

  /** A change of members leaves a quorum exactly when they are welcome. */
  lemma QuorumAfterChange(ps: seq<Provider>, unhealthy: map<nat, Provider>, need: nat)
    ensures Quorum(MembersOf(ps), unhealthy, need) <==> Welcome(ps, unhealthy, need)
  {
    hide MembersOf;
    var sps := MembersOf(ps);
    forall k
      ensures k in sps <==> exists i :: 0 <= i < |ps| && ps[i].id == k
    {
      MemberIds(ps, k);
    }
    var free := set i | 0 <= i < |ps| && ps[i].id !in unhealthy :: ps[i].id;
    var rejected := Rejected(sps, unhealthy);
    assert sps.Keys == free + rejected && free !! rejected;
    assert |sps| == |sps.Keys| == |free| + |rejected|;
    if rejected == {} {
      forall i | 0 <= i < |ps|
        ensures ps[i].id !in unhealthy
      {
        assert ps[i].id in sps && ps[i].id !in rejected;
      }
    }
  }

  /** Every change of members along the run is welcome. */
  predicate WelcomeRun(sps: map<nat, Provider>, unhealthy: map<nat, Provider>, events: seq<Event>, need: nat)
    decreases |events|
  {
    events == [] ||
    match events[0]
    case Members(ps) => Welcome(ps, unhealthy, need) && WelcomeRun(MembersOf(ps), unhealthy, events[1..], need)
    case Round(probe, params) => WelcomeRun(sps, AfterCheck(sps, unhealthy, probe, params), events[1..], need)
  }

  /** With fixed chunk numbers no check takes the quorum away; only a change of members can. */
  lemma {:induction false} RunsKeepQuorum(sps: map<nat, Provider>, unhealthy: map<nat, Provider>, events: seq<Event>, need: nat)
    requires Quorum(sps, unhealthy, need) && WelcomeRun(sps, unhealthy, events, need)
    requires forall i :: 0 <= i < |events| && events[i].Round? && events[i].params.Some? ==> events[i].params.value.Need() == need
    ensures var end := AfterEvents(sps, unhealthy, events); Quorum(end.0, end.1, need)
    decreases |events|
  {
    hide Quorum, AfterCheck, MembersOf, Welcome;
    if events != [] {
      match events[0]
      case Members(ps) =>
        QuorumAfterChange(ps, unhealthy, need);
        RunsKeepQuorum(MembersOf(ps), unhealthy, events[1..], need);
      case Round(probe, params) =>
        assert params.Some? ==> params.value.Need() == need;
        CheckKeepsQuorum(sps, unhealthy, probe, params, need);
        RunsKeepQuorum(sps, AfterCheck(sps, unhealthy, probe, params), events[1..], need);
    }
  }

  lemma {:induction false} RoundsAreWelcome(sps: map<nat, Provider>, unhealthy: map<nat, Provider>, events: seq<Event>, need: nat)
    requires forall i :: 0 <= i < |events| ==> events[i].Round?
    ensures WelcomeRun(sps, unhealthy, events, need) && AfterEvents(sps, unhealthy, events).0 == sps
    decreases |events|
  {
    hide AfterCheck;
    if events != [] {
      RoundsAreWelcome(sps, AfterCheck(sps, unhealthy, events[0].probe, events[0].params), events[1..], need);
    }
  }

  /** With fixed members and chunk numbers, no run of checks takes the quorum away. */
  lemma {:induction false} RoundsKeepQuorum(sps: map<nat, Provider>, unhealthy: map<nat, Provider>, events: seq<Event>, need: nat)
    requires Quorum(sps, unhealthy, need) && forall i :: 0 <= i < |events| ==> events[i].Round?
    requires forall i :: 0 <= i < |events| && events[i].params.Some? ==> events[i].params.value.Need() == need
    ensures Quorum(sps, AfterEvents(sps, unhealthy, events).1, need)
  {
    hide Quorum, AfterEvents, WelcomeRun;
    RoundsAreWelcome(sps, unhealthy, events, need);
    RunsKeepQuorum(sps, unhealthy, events, need);
  }

  /** The same with the chunk numbers themselves, from a checker that has marked nobody. */
  lemma {:induction false} RoundsLeaveEnough(sps: map<nat, Provider>, events: seq<Event>, data: nat, parity: nat)
    requires data + parity < TWO_32 && forall i :: 0 <= i < |events| ==> events[i].Round?
    requires forall i :: 0 <= i < |events| && events[i].params.Some? ==> events[i].params.value == Params(data, parity)
    ensures var marks := AfterEvents(sps, map[], events).1;
            var rejected := set k | k in sps && k in marks;
            rejected == {} || |sps| - |rejected| >= data + parity
  {
    assert Rejected(sps, map[]) == {};
    RoundsKeepQuorum(sps, map[], events, data + parity);
    var marks := AfterEvents(sps, map[], events).1;
    assert (set k | k in sps && k in marks) == Rejected(sps, marks);
    hide AfterEvents;
  }

  /** When members leave while others are marked, the quorum is lost, and a check does not bring it back as
      long as the marked member stays down and too few members are up. */
  lemma LeavingMembersBreakQuorum(a: Provider, b: Provider, c: Provider, probe: Probe, params: Params, first: Event, second: Event)
    requires a.id == 1 && b.id == 2 && c.id == 3 && b.inService && c.inService
    requires !probe(a) && probe(b) && probe(c) && params.Need() == 2
    requires first == Members([a, b, c]) && second == Round(probe, Some(params))
    ensures var (sps, marks) := AfterEvents(map[], map[], [first, second]);
            && Quorum(sps, marks, 2)
            && !Quorum(MembersOf([a, b]), marks, 2)
            && AfterCheck(MembersOf([a, b]), marks, probe, Some(params)) == marks
  {
    MembersOfThree(a, b, c);
    FirstIsMarked(a, b, c, probe, params);
    hide AfterCheck, Quorum, MembersOf;
    var three := MembersOf([a, b, c]);
    assert [first, second][1..] == [second] && [second][1..] == [];
    assert AfterEvents(map[], map[], [first, second]) == AfterEvents(three, map[], [second]);
    assert AfterEvents(three, map[], [second]) == AfterEvents(three, map[1 := a], []);
  }

  lemma FirstIsMarked(a: Provider, b: Provider, c: Provider, probe: Probe, params: Params)
    requires a.id == 1 && b.id == 2 && c.id == 3 && b.inService && c.inService
    requires !probe(a) && probe(b) && probe(c) && params.Need() == 2
    ensures var three, two, marks := map[1 := a, 2 := b, 3 := c], map[1 := a, 2 := b], map[1 := a];
            && AfterCheck(three, map[], probe, Some(params)) == marks
            && AfterCheck(two, marks, probe, Some(params)) == marks
            && Quorum(three, marks, 2) && !Quorum(two, marks, 2)
  {
    hide Params.Need, DownProviders, UpIds, Rejected;
    FirstIsDown(a, b, c, probe);
    CountThree(a, b, c);
  }

  lemma FirstIsDown(a: Provider, b: Provider, c: Provider, probe: Probe)
    requires b.inService && c.inService && !probe(a) && probe(b) && probe(c)
    ensures DownProviders(map[1 := a, 2 := b, 3 := c], probe) == map[1 := a]
    ensures DownProviders(map[1 := a, 2 := b], probe) == map[1 := a]
    ensures UpIds(map[1 := a, 2 := b], probe) == {2}
  {
  }

  lemma CountThree(a: Provider, b: Provider, c: Provider)
    ensures var three, two, marks := map[1 := a, 2 := b, 3 := c], map[1 := a, 2 := b], map[1 := a];
            && |three| == 3 && |two| == 2 && |marks| == 1 && marks - {2} == marks && marks != map[]
            && Rejected(three, marks) == {1} && Rejected(two, marks) == {1}
  {
    assert map[1 := a].Keys == {1};
  }

  lemma MembersOfThree(a: Provider, b: Provider, c: Provider)
    requires a.id == 1 && b.id == 2 && c.id == 3
    ensures MembersOf([a, b, c]) == map[1 := a, 2 := b, 3 := c]
    ensures MembersOf([a, b]) == map[1 := a, 2 := b]
  {
    assert [a, b, c][..2] == [a, b] && [a, b][..1] == [a] && [a][..0] == [];
    assert MembersOf([]) == map[];
    assert MembersOf([a]) == MembersOf([a][..0])[1 := a];
    assert MembersOf([a, b]) == MembersOf([a, b][..1])[2 := b];
    assert MembersOf([a, b, c]) == MembersOf([a, b, c][..2])[3 := c];
  }

  // ----- freeze pool -----

  const FREEZING_PERIOD := 300

  datatype JoinedGroup = JoinedGroup(id: nat, family: nat)
  datatype Stats = Stats(joined: seq<JoinedGroup>, until: int)
  type Pool = map<nat, Stats>

  function StillFrozen(pool: Pool, now: int): Pool {
    map k | k in pool && now <= pool[k].until :: pool[k]
  }

  function Alive(others: seq<Provider>): nat {
    if others == [] then 0 else Alive(others[..|others| - 1]) + if others[|others| - 1].inService then 1 else 0
  }

  /** The positions of the providers in service. */
  ghost function InService(others: seq<Provider>): set<nat> {
    set i: nat | i < |others| && others[i].inService
  }

  lemma {:induction false} AliveCounts(others: seq<Provider>)
    ensures Alive(others) == |InService(others)|
  {
    if others == [] {
      assert InService(others) == {};
    } else {
      var n := |others| - 1;
      AliveCounts(others[..n]);
      assert InService(others) == InService(others[..n]) + if others[n].inService then {n} else {};
    }
  }

  /** What happens to the pool: a provider is frozen, the release loop ticks, or everything is released. */
  datatype PoolEvent =
    | Frozen(sp: nat, joined: seq<JoinedGroup>, now: int)
    | Ticked(now: int, others: Option<seq<Provider>>, params: Option<Params>)
    | Emptied

  /** A tick finds that too few providers in service would be left beside those still frozen. */
  predicate TooFewLeft(pool: Pool, e: PoolEvent)
    requires e.Ticked?
  {
    && e.others.Some? && e.params.Some?
    && Alive(e.others.value) - |StillFrozen(pool, e.now)| < e.params.value.Need()
  }

  function AfterEvent(pool: Pool, e: PoolEvent): Pool {
    match e
    case Frozen(sp, joined, now) => pool[sp := Stats(joined, now + FREEZING_PERIOD)]
    case Ticked(now, others, params) =>
      if others.None? then pool else if TooFewLeft(pool, e) then map[] else StillFrozen(pool, now)
    case Emptied => map[]
  }

  /** The pool after the first `n` events of a run that starts with an empty one. */
  function PoolAfter(events: seq<PoolEvent>, n: nat): Pool
    requires n <= |events|
  {
    if n == 0 then map[] else AfterEvent(PoolAfter(events, n - 1), events[n - 1])
  }

  /** Event number `k` ends the stay of a provider frozen until `until`: it is frozen anew, the pool is emptied,
      or a tick comes after its time. */
  predicate EndsStay(events: seq<PoolEvent>, k: nat, sp: nat, until: int)
    requires k < |events|
  {
    match events[k]
    case Frozen(id, _, _) => id == sp
    case Ticked(now, others, _) => others.Some? && (now > until || TooFewLeft(PoolAfter(events, k), events[k]))
    case Emptied => true
  }

  /** When a provider frozen by this event is to be released. */
  function Until(e: PoolEvent): int
    requires e.Frozen?
  {
    e.now + 300
  }

  /** Event number `j` freezes the provider and none after it, up to the first `n`, ends its stay. */
  predicate StaysFrom(events: seq<PoolEvent>, j: nat, n: nat, sp: nat)
    requires n <= |events|
  {
    && j < n && events[j].Frozen? && events[j].sp == sp
    && forall k :: j < k < n ==> !EndsStay(events, k, sp, Until(events[j]))
  }

  /** In every run a provider is in the pool exactly when some event froze it and none since ended its stay;
      its entry is then what that event stored. */
  lemma {:induction false} FrozenExactly(events: seq<PoolEvent>, n: nat, sp: nat)
    requires n <= |events|
    ensures sp in PoolAfter(events, n) <==> exists j: nat :: StaysFrom(events, j, n, sp)
    ensures forall j: nat :: StaysFrom(events, j, n, sp) ==>
              sp in PoolAfter(events, n) && PoolAfter(events, n)[sp] == Stats(events[j].joined, Until(events[j]))
  {
    if n > 0 {
      FrozenExactly(events, n - 1, sp);
      forall j: nat | StaysFrom(events, j, n, sp)
        ensures sp in PoolAfter(events, n)
        ensures PoolAfter(events, n)[sp] == Stats(events[j].joined, Until(events[j]))
      {
        if j < n - 1 {
          assert StaysFrom(events, j, n - 1, sp);
          assert !EndsStay(events, n - 1, sp, Until(events[j]));
        }
      }
      if sp in PoolAfter(events, n) {
        if events[n - 1].Frozen? && events[n - 1].sp == sp {
          assert StaysFrom(events, n - 1, n, sp);
        } else {
          var j: nat :| StaysFrom(events, j, n - 1, sp);
          assert !EndsStay(events, n - 1, sp, Until(events[j]));
          assert StaysFrom(events, j, n, sp);
        }
      }
    }
  }

  class FreezePool {
    var pool: Pool

    constructor ()
      ensures pool == map[]
    {
      pool := map[];
    }

    method Freeze(sp: nat, joined: seq<JoinedGroup>, now: int)
      modifies this
      ensures pool == AfterEvent(old(pool), Frozen(sp, joined, now))
    {
      pool := pool[sp := Stats(joined, now + FREEZING_PERIOD)];
    }

    /** The groups of a family that some frozen provider has joined. */
    method FrozenGroups(family: nat) returns (ids: set<nat>)
      ensures forall id :: id in ids <==>
                exists k, i :: k in pool && 0 <= i < |pool[k].joined| && pool[k].joined[i] == JoinedGroup(id, family)
    {
      var keys := AnyOrder(pool);
      OrderIsExact(pool, keys);
      ids := {};
      for n := 0 to |keys|
        invariant forall id :: id in ids <==>
                    exists k, i :: k in keys[..n] && 0 <= i < |pool[k].joined| && pool[k].joined[i] == JoinedGroup(id, family)
      {
        assert keys[..n + 1] == keys[..n] + [keys[n]];
        var some := InFamily(pool[keys[n]].joined, family);
        ids := ids + some;
      }
      assert keys[..|keys|] == keys;
    }

    /** ReleaseSP: exactly the entries whose time has passed are released. */
    method ReleaseExpired(now: int)
      modifies this
      ensures pool == StillFrozen(old(pool), now)
    {
      var keys := AnyOrder(pool);
      OrderIsExact(pool, keys);
      for i := 0 to |keys|
        invariant forall k :: k in pool <==> k in old(pool) && (k in keys[..i] ==> now <= old(pool)[k].until)
        invariant forall k :: k in pool ==> pool[k] == old(pool)[k]
      {
        assert keys[..i + 1] == keys[..i] + [keys[i]];
        if now > pool[keys[i]].until {
          pool := pool - {keys[i]};
        }
      }
      assert keys[..|keys|] == keys;
    }

    method ReleaseAll()
      modifies this
      ensures pool == AfterEvent(old(pool), Emptied)
    {
      pool := map[];
    }

    /** One tick of the release loop: expired entries go, and all go if too few providers in service
        would be left; nothing happens before the first refresh. */
    method Tick(now: int, others: Option<seq<Provider>>, params: Option<Params>)
      modifies this
      ensures pool == AfterEvent(old(pool), Ticked(now, others, params))
      ensures others.None? ==> pool == old(pool)
      ensures others.Some? ==> forall k :: k in pool ==> now <= pool[k].until && k in old(pool) && pool[k] == old(pool)[k]
      ensures others.Some? && params.Some? && params.value.data + params.value.parity < TWO_32 ==>
                var left, need := |InService(others.value)| - |StillFrozen(old(pool), now)|, params.value.data + params.value.parity;
                pool == if left < need then map[] else StillFrozen(old(pool), now)
      ensures others.Some? ==>
                pool == StillFrozen(old(pool), now) ||
                (pool == map[] && params.Some? && Alive(others.value) - |StillFrozen(old(pool), now)| < params.value.Need())
    {
      if others.None? {
        return;
      }
      AliveCounts(others.value);
      ReleaseExpired(now);
      var alive := CountAlive(others.value);
      if params.None? {
        return;
      }
      if alive - |pool| < params.value.Need() {
        ReleaseAll();
      }
    }
  }

  method InFamily(joined: seq<JoinedGroup>, family: nat) returns (ids: set<nat>)
    ensures forall id :: id in ids <==> JoinedGroup(id, family) in joined
  {
    ids := {};
    for i := 0 to |joined|
      invariant forall id :: id in ids <==> JoinedGroup(id, family) in joined[..i]
    {
      assert joined[..i + 1] == joined[..i] + [joined[i]];
      if joined[i].family == family {
        ids := ids + {joined[i].id};
      }
    }
    assert joined[..|joined|] == joined;
  }

  method CountAlive(others: seq<Provider>) returns (n: nat)
    ensures n == Alive(others)
  {
    n := 0;
    for i := 0 to |others|
      invariant n == Alive(others[..i])
    {
      assert others[..i + 1][..i] == others[..i];
      if others[i].inService {
        n := n + 1;
      }
    }
    assert others[..|others|] == others;
  }
}
