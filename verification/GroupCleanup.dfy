/** Deleting empty global virtual groups and topping up full ones, one call per group seen
    (base/gfspvgmgr/virtual_group_manager.go:573-665). Clock readings, chain answers and the outcome of
    transactions are inputs of the call. */
module GroupCleanup {
  import opened FixedWidth
  import opened Maps
  import opened Options
  import opened WeightedPick

  const SAFE_DELETE_PERIOD := 86400
  const EXPIRY_SLACK := 60

  datatype GroupInfo = GroupInfo(id: nat, stored: U64, staked: U64, secondary: seq<nat>)

  /** One call: the group as seen, the chain's answer if it is asked (None when the query fails). */
  datatype Call = Call(now: int, seen: GroupInfo, byChain: bool, answer: Option<GroupInfo>, deleteOk: bool, depositOk: bool) {
    /** The group the call goes on with once the chain has been asked where that is needed. */
    function Confirmed(): Option<GroupInfo> {
      if byChain then Some(seen) else answer
    }
  }

  datatype Report = Report(deposited: bool, deleted: bool, failed: bool)

  const NOTHING_DONE := Report(false, false, false)
  const FAILED := Report(false, false, true)

  /** When each empty group may be deleted. */
  type Schedule = map<nat, int>

  /** The schedule without the entries that ran out. */
  function Unexpired(gc: Schedule, now: int): Schedule {
    map k | k in gc && now <= gc[k] + EXPIRY_SLACK :: gc[k]
  }

  /** The schedule and the report after a call. */
  function Observe(gc: Schedule, c: Call): (Schedule, Report) {
    if c.seen.stored == 0 then
      var kept := Unexpired(gc, c.now);
      match c.Confirmed()
      case None => (kept, FAILED)
      case Some(g) =>
        if g.stored != 0 then (kept, NOTHING_DONE)
        else if g.id !in kept then (kept[g.id := c.now + SAFE_DELETE_PERIOD], NOTHING_DONE)
        else if c.now < kept[g.id] then (kept, NOTHING_DONE)
        else if !c.deleteOk then (kept, FAILED)
        else (kept - {g.id}, Report(false, true, false))
    else if HasRoom(c.seen.stored, c.seen.staked) then (gc, NOTHING_DONE)
    else
      match c.Confirmed()
      case None => (gc, FAILED)
      case Some(g) =>
        if HasRoom(g.stored, g.staked) then (gc, NOTHING_DONE)
        else if !c.depositOk then (gc, FAILED)
        else (gc, Report(true, false, false))
  }

  /** The call finds group `id` empty: it saw it empty, and where it did not ask the chain in the first place
      the chain says so too. */
  predicate FoundEmpty(c: Call, id: nat) {
    && c.seen.stored == 0
    && if c.byChain then c.seen.id == id
       else c.answer.Some? && c.answer.value.id == id && c.answer.value.stored == 0
  }

  /** At least 95 per cent of what is staked is used. */
  predicate NearlyFull(g: GroupInfo) {
    20 * g.stored >= 19 * g.staked
  }

  lemma RoomOrNearlyFull(g: GroupInfo)
    ensures HasRoom(g.stored, g.staked) <==> !NearlyFull(g)
  {
    RoomMeans(g.stored, g.staked);
  }

  /** The monitor call fails: the chain does not answer, or a transaction that is due does not pass. */
  predicate MonitorFails(gc: Schedule, c: Call) {
    if c.seen.stored == 0 then
      || (!c.byChain && c.answer.None?)
      || (!c.deleteOk && exists id :: id in gc && FoundEmpty(c, id) && gc[id] <= c.now <= gc[id] + 60)
    else
      && NearlyFull(c.seen)
      && if c.byChain then !c.depositOk else c.answer.None? || (NearlyFull(c.answer.value) && !c.depositOk)
  }

  predicate Deposits(c: Call) {
    && c.seen.stored != 0 && NearlyFull(c.seen) && c.depositOk
    && (c.byChain || (c.answer.Some? && NearlyFull(c.answer.value)))
  }

  /** When a call fails and when it deposits, in terms of the schedule and its inputs. */
  lemma ReportsExactly(gc: Schedule, c: Call)
    ensures var r := Observe(gc, c).1; (r.failed <==> MonitorFails(gc, c)) && (r.deposited <==> Deposits(c))
    ensures Observe(gc, c).1.deleted ==> !Observe(gc, c).1.failed && !Observe(gc, c).1.deposited
  {
    hide HasRoom, NearlyFull;
    RoomOrNearlyFull(c.seen);
    if c.answer.Some? {
      RoomOrNearlyFull(c.answer.value);
    }
    var id := if c.byChain then c.seen.id else if c.answer.Some? then c.answer.value.id else 0;
    assert forall k :: FoundEmpty(c, k) ==> k == id;
  }

  class GroupMonitor {
    var gc: Schedule

    constructor ()
      ensures gc == map[]
    {
      gc := map[];
    }

    /** Removes the entries that ran out, in any order. */
    method DropExpired(now: int)
      modifies this
      ensures gc == Unexpired(old(gc), now)
    {
      var keys := AnyOrder(gc);
      OrderIsExact(gc, keys);
      for i := 0 to |keys|
        invariant forall k :: k in gc <==> k in old(gc) && (k in keys[..i] ==> now <= old(gc)[k] + EXPIRY_SLACK)
        invariant forall k :: k in gc ==> gc[k] == old(gc)[k]
      {
        assert keys[..i + 1] == keys[..i] + [keys[i]];
        if now > gc[keys[i]] + EXPIRY_SLACK {
          gc := gc - {keys[i]};
        }
      }
      assert keys[..|keys|] == keys;
    }

    /** monitorGVGUsage. */
    method Monitor(c: Call) returns (r: Report)
      modifies this
      ensures (gc, r) == Observe(old(gc), c)
    {
      var g := c.seen;
      if g.stored == 0 {
        DropExpired(c.now);
        if !c.byChain {
          if c.answer.None? {
            return FAILED;
          }
          g := c.answer.value;
          if g.stored != 0 {
            return NOTHING_DONE;
          }
        }
        if g.id !in gc {
          gc := gc[g.id := c.now + SAFE_DELETE_PERIOD];
          return NOTHING_DONE;
        }
        var safeDeleteTime := gc[g.id];
        if c.now < safeDeleteTime {
          return NOTHING_DONE;
        }
        if !c.deleteOk {
          return FAILED;
        }
        gc := gc - {g.id};
        return Report(false, true, false);
      }
      if HasRoom(g.stored, g.staked) {
        return NOTHING_DONE;
      }
      if !c.byChain {
        if c.answer.None? {
          return FAILED;
        }
        g := c.answer.value;
        if HasRoom(g.stored, g.staked) {
          return NOTHING_DONE;
        }
      }
      if !c.depositOk {
        return FAILED;
      }
      return Report(true, false, false);
    }
  }

  // ----- whole runs -----

  /** The schedule after the first `n` calls of a run that starts with an empty one. */
  function After(calls: seq<Call>, n: nat): Schedule
    requires n <= |calls|
  {
    if n == 0 then map[] else Observe(After(calls, n - 1), calls[n - 1]).0
  }

  /** Call number `i` deletes group `id`, which is empty according to what it goes by. */
  predicate Deletes(calls: seq<Call>, i: nat, id: nat)
    requires i < |calls|
  {
    Observe(After(calls, i), calls[i]).1.deleted && FoundEmpty(calls[i], id)
  }

  /** Call number `j` finds group `id` empty and puts it on the schedule. */
  predicate Records(calls: seq<Call>, j: nat, id: nat)
    requires j < |calls|
  {
    FoundEmpty(calls[j], id) && id !in Unexpired(After(calls, j), calls[j].now)
  }

  /** Call number `k` drops an entry for time `due`: it sees some empty group more than a minute past it. */
  predicate Prunes(calls: seq<Call>, k: nat, due: int)
    requires k < |calls|
  {
    calls[k].seen.stored == 0 && calls[k].now > due + EXPIRY_SLACK
  }

  /** Call number `k` neither prunes the entry nor deletes the group. */
  predicate Spares(calls: seq<Call>, k: nat, due: int, id: nat)
    requires k < |calls|
  {
    !Prunes(calls, k, due) && !Deletes(calls, k, id)
  }

  /** When the group that this call records may be deleted. */
  function Due(c: Call): int {
    c.now + SAFE_DELETE_PERIOD
  }

  /** An entry outlives a call exactly when the call neither prunes it nor deletes the group. Whether the
      group is seen in use plays no part. */
  lemma EntryOutlives(calls: seq<Call>, k: nat, id: nat)
    requires k < |calls| && id in After(calls, k)
    ensures var due := After(calls, k)[id];
            id in After(calls, k + 1) && After(calls, k + 1)[id] == due <==> Spares(calls, k, due, id)
  {
  }

  /** The entry recorded by call number `j` is still there before call number `n`. */
  predicate Lasts(calls: seq<Call>, j: nat, n: nat, id: nat)
    requires j < n <= |calls|
  {
    forall k :: j < k < n ==> Spares(calls, k, Due(calls[j]), id)
  }

  /** Every entry on the schedule comes from a call that recorded it and whose entry lasts. */
  lemma {:induction false} EntriesAreRecorded(calls: seq<Call>, n: nat, id: nat) returns (j: nat)
    requires n <= |calls| && id in After(calls, n)
    ensures j < n && Records(calls, j, id) && After(calls, n)[id] == Due(calls[j])
    ensures Lasts(calls, j, n, id)
  {
    if Records(calls, n - 1, id) {
      j := n - 1;
    } else {
      assert id in After(calls, n - 1) && After(calls, n)[id] == After(calls, n - 1)[id];
      j := EntriesAreRecorded(calls, n - 1, id);
      EntryOutlives(calls, n - 1, id);
      forall k | j < k < n
        ensures Spares(calls, k, Due(calls[j]), id)
      {
      }
    }
  }

  /** And an entry that lasts is on the schedule. */
  lemma {:induction false} RecordedEntriesLast(calls: seq<Call>, j: nat, n: nat, id: nat)
    requires j < n <= |calls| && Records(calls, j, id) && Lasts(calls, j, n, id)
    ensures id in After(calls, n) && After(calls, n)[id] == Due(calls[j])
  {
    if n > j + 1 {
      assert Lasts(calls, j, n - 1, id);
      RecordedEntriesLast(calls, j, n - 1, id);
      hide Observe;
      EntryOutlives(calls, n - 1, id);
    }
  }

  /** The call finds the group empty, on chain where it asks, and its transaction would pass. */
  predicate CanDelete(c: Call, id: nat) {
    c.deleteOk && FoundEmpty(c, id)
  }

  /** Call number `i` comes a day after the recording by call number `j`, to the minute. */
  predicate InItsMinute(calls: seq<Call>, j: nat, i: nat)
    requires j < |calls| && i < |calls|
  {
    calls[j].now + 86400 <= calls[i].now <= calls[j].now + 86460
  }

  /** In every run a call deletes a group exactly when it can and some earlier call recorded the group a day
      before, to the minute, in an entry that lasts. Nothing is asked about the calls that saw the group in
      use in between. */
  lemma {:induction false} RunDeletesExactly(calls: seq<Call>, i: nat, id: nat)
    requires i < |calls|
    ensures Deletes(calls, i, id) <==>
            && CanDelete(calls[i], id)
            && exists j :: 0 <= j < i && Records(calls, j, id) && InItsMinute(calls, j, i) && Lasts(calls, j, i, id)
  {
    hide Lasts, Records;
    DeletesExactly(After(calls, i), calls[i]);
    if Deletes(calls, i, id) {
      hide Observe;
      var j := EntriesAreRecorded(calls, i, id);
      assert InItsMinute(calls, j, i);
    }
    if j :| 0 <= j < i && Records(calls, j, id) && InItsMinute(calls, j, i) && Lasts(calls, j, i, id) {
      RecordedEntriesLast(calls, j, i, id);
    }
  }

  /** Every deletion is of a group that was recorded as empty a day before, to the minute, and is empty
      again now; and one recording never serves two deletions. */
  lemma {:induction false} DeletionIsDelayed(calls: seq<Call>, i: nat, id: nat) returns (j: nat)
    requires i < |calls| && Deletes(calls, i, id)
    ensures j < i && Records(calls, j, id)
    ensures calls[j].now + 86400 <= calls[i].now <= calls[j].now + 86460
    ensures forall k :: j < k < i ==> !Deletes(calls, k, id)
  {
    DeletesExactly(After(calls, i), calls[i]);
    j := EntriesAreRecorded(calls, i, id);
    forall k | j < k < i
      ensures !Deletes(calls, k, id)
    {
      assert Spares(calls, k, Due(calls[j]), id);
    }
  }

  /** With a clock that does not run backwards, two deletions of one group are at least a day apart. */
  lemma {:induction false} DeletionsAreADayApart(calls: seq<Call>, a: nat, b: nat, id: nat)
    requires a < b < |calls| && Deletes(calls, a, id) && Deletes(calls, b, id)
    requires forall i, j :: 0 <= i <= j < |calls| ==> calls[i].now <= calls[j].now
    ensures calls[a].now + 86400 <= calls[b].now
  {
    var j := DeletionIsDelayed(calls, b, id);
    assert a <= j;
  }

  /** A report of a deletion always names a group that is empty according to what the call goes by. */
  lemma DeletedMeansDeletes(calls: seq<Call>, i: nat)
    requires i < |calls| && Observe(After(calls, i), calls[i]).1.deleted
    ensures var c := calls[i];
            && c.seen.stored == 0
            && (c.byChain ==> Deletes(calls, i, c.seen.id))
            && (!c.byChain ==> c.answer.Some? && c.answer.value.stored == 0 && Deletes(calls, i, c.answer.value.id))
  {
  }

  /** A call deletes exactly when it finds the group empty within its minute and the transaction passes. */
  lemma DeletesExactly(gc: Schedule, c: Call)
    ensures Observe(gc, c).1.deleted <==>
            c.deleteOk && exists id :: id in gc && FoundEmpty(c, id) && gc[id] <= c.now <= gc[id] + 60
    ensures Observe(gc, c).1.deleted ==>
              && c.seen.stored == 0
              && (c.byChain || (c.answer.Some? && c.answer.value.stored == 0 && c.answer.value.id in gc))
  {
    if Observe(gc, c).1.deleted {
      var id := if c.byChain then c.seen.id else c.answer.value.id;
      assert id in gc && FoundEmpty(c, id);
    }
  }

  /** What the chain says decides: a call that cannot learn it fails, and one that learns that the group holds
      data neither records nor deletes it. */
  lemma ChainDecides(gc: Schedule, c: Call)
    requires c.seen.stored == 0 && !c.byChain
    ensures c.answer.None? ==> Observe(gc, c).1.failed
    ensures c.answer.Some? && c.answer.value.stored != 0 ==>
              && !Observe(gc, c).1.failed && !Observe(gc, c).1.deleted
              && forall k :: k in Observe(gc, c).0 <==> k in gc && c.now <= gc[k] + 60
  {
  }

  /** The schedule does not forget a group that is seen in use in between: a group found empty, then
      holding data, then empty a day later is deleted. */
  lemma DeletedThoughUsedMeanwhile(id: nat, calls: seq<Call>)
    requires |calls| == 3
    requires calls[0] == Call(0, GroupInfo(id, 0, 100, []), true, None, true, true)
    requires calls[1] == Call(1000, GroupInfo(id, 5, 100, []), true, None, true, true)
    requires calls[2] == Call(SAFE_DELETE_PERIOD, GroupInfo(id, 0, 100, []), true, None, true, true)
    ensures Deletes(calls, 2, id)
  {
    assert After(calls, 0) == map[];
    assert After(calls, 1) == map[id := SAFE_DELETE_PERIOD];
    assert After(calls, 2) == map[id := SAFE_DELETE_PERIOD];
  }
}
