/** Runs of a new resource manager in which an undisciplined call breaks the accounting. */
module ForestExamples {
  import opened FixedWidth
  import opened Options
  import opened Resources
  import opened Forest

  const ROOMY: Limit := Limit(1000, 10, 10, 10, 10, 10, 10, 10, 10)
  const SMALL: Limit := Limit(1000, 1, 10, 10, 10, 10, 10, 10, 10)
  const UNLIMITED_MEMORY: Limit := Limit(MAX_I64, 10, 10, 10, 10, 10, 10, 10, 10)

  lemma TaskCheck(limit: Limit, n: I64)
    requires 0 <= limit.tasksHigh && 0 <= limit.tasksMedium && n <= limit.tasksLow
    ensures Try(limit, NOTHING, Tasks(n, Unknown)) ==
            if n <= limit.tasks then Attempt(None, NOTHING.(low := n)) else Attempt(Some(TaskExceeded), NOTHING)
  {
  }

  /** A service with a limit of its own below a new system. */
  lemma OneService(f: State, system: Limit, own: Limit)
    requires f == Step(Start(system), OpenService(Some(own)))
    ensures |f| == 2 && f[0] == Fresh(system, Root).(refCnt := 1) && f[1] == Fresh(own, Edge(0)) && Parent(f, 1) == 0
  {
  }

  /** A service whose task request of unknown priority the system refuses keeps counting the tasks. */
  lemma RefusedUnknownPriorityStaysCounted(f: State, r: Request)
    requires f == Step(Start(SMALL), OpenService(Some(ROOMY))) && r == Tasks(5, Unknown)
    ensures Answer(f, 1, r) == Some(TaskExceeded) && Step(f, Reserve(1, r))[1].rc.low == 5
  {
    hide Try, Step;
    OneService(f, SMALL, ROOMY);
    TaskCheck(SMALL, 5);
    TaskCheck(ROOMY, 5);
    assert Answer(f, 0, r) == Some(TaskExceeded);
    assert PartOf(f, 1, 1, r) == Granting;
    var u: Counters := NOTHING.(low := 5);
    assert Charge(NOTHING, r.Amount()) == u;
    assert Undone(NOTHING, r) == u;
    Settles(f, 1, r, 1);
  }

  lemma Settles(f: State, i: nat, r: Request, x: nat)
    requires WellFormed(f) && i < |f| && x < |f|
    ensures Step(f, Reserve(i, r))[x].rc == Settled(f[x].limit, f[x].rc, r, PartOf(f, i, x, r), Answer(f, i, r).None?)
    ensures Step(f, Reserve(i, r))[x] == f[x].(rc := Step(f, Reserve(i, r))[x].rc)
  {
  }

  lemma UnlimitedGrant(f: State, r: Request)
    requires |f| == 1 && WellFormed(f) && f[0].limit == UNLIMITED_MEMORY && !f[0].done
    requires r == Memory(MAX_I64, ALWAYS)
    ensures Answer(f, 0, r).None?
    ensures Step(f, Reserve(0, r)) == [f[0].(rc := Charge(f[0].rc, r.Amount()))]
  {
    hide Charge, Released;
    assert Try(f[0].limit, f[0].rc, r).err == None;
    assert PartOf(f, 0, 0, r) == Granting && Answer(f, 0, r).None?;
  }

  /** With an unlimited memory a second grant leaves the counter negative. */
  lemma UnlimitedMemoryWraps(f: State, g: State, r: Request)
    requires f == Start(UNLIMITED_MEMORY) && r == Memory(MAX_I64, ALWAYS) && g == Step(f, Reserve(0, r))
    ensures Answer(f, 0, r).None? && Answer(g, 0, r).None? && Step(g, Reserve(0, r))[0].rc.memory == -2
  {
    UnlimitedGrant(f, r);
    assert g[0].rc.memory == MAX_I64;
    UnlimitedGrant(g, r);
  }

  lemma OneThenMany(u: Counters, one: Request, r: Request)
    requires u == NOTHING.(low := 1) && one == Tasks(1, Low) && r == Tasks(MAX_I64, Low)
    ensures Try(ROOMY, NOTHING, one).err.None? && Charge(NOTHING, one.Amount()) == u
    ensures Try(ROOMY, u, r).err.None? && Charge(u, r.Amount()).low == MIN_I64
  {
    hide WrapI64;
    WrapSum(0, 0);
    WrapSum(0, 1);
    WrapSum(0, MAX_I64);
    WrapSum(1, MAX_I64);
  }

  /** A count that wraps past MaxInt64 is granted, and leaves the counter at the least int64. */
  lemma HugeCountIsGranted(f: State, g: State, one: Request, r: Request)
    requires f == Start(ROOMY) && one == Tasks(1, Low) && r == Tasks(MAX_I64, Low) && g == Step(f, Reserve(0, one))
    ensures Answer(g, 0, r).None? && Step(g, Reserve(0, r))[0].rc.low == MIN_I64
  {
    hide Step, Charge, Try;
    var u: Counters := NOTHING.(low := 1);
    OneThenMany(u, one, r);
    assert PartOf(f, 0, 0, one) == Granting && Answer(f, 0, one).None?;
    Settles(f, 0, one, 0);
    assert PartOf(g, 0, 0, r) == Granting && Answer(g, 0, r).None?;
    Settles(g, 0, r, 0);
  }

  /** A negative release raises the counter past the limit without any check. */
  lemma NegativeReleasePassesTheLimit(limit: Limit, f: State, g: State, ten: Request, r: Request)
    requires limit.memory == 10 && ten == Memory(10, ALWAYS) && r == Memory(-5, ALWAYS)
    requires f == Start(limit) && g == Step(f, Reserve(0, ten))
    ensures Answer(f, 0, ten).None? && Step(g, Release(0, r))[0].rc.memory == 15
  {
    TenBytes(ten);
    hide Charge;
    CheckMemoryExact(0, limit.memory, 10, ALWAYS);
    assert Try(limit, NOTHING, ten).err.None?;
    assert PartOf(f, 0, 0, ten) == Granting && Answer(f, 0, ten).None?;
    assert Reach(g, 0) == {0};
    DropValue(10, -5);
  }

  lemma SmallBulk(u: Counters, st: Counters)
    requires u == NOTHING.(medium := 1) && st == NOTHING.(medium := -3, low := 5)
    ensures Try(ROOMY, u, Bulk(st)).err.None?
    ensures Try(SMALL, u, Bulk(st)) == Attempt(Some(TaskExceeded), NOTHING.(medium := 3))
    ensures Undone(u, Bulk(st)) == NOTHING.(medium := 3)
  {
    assert u.InRange() && st.InRange();
    CheckMemoryExact(0, 1000, 0, ALWAYS);
    var v: Counters := NOTHING.(medium := -2);
    var w: Counters := NOTHING.(medium := -2, low := 5);
    assert PlusTasks(u, 0, 0, 0) == u && PlusTasks(u, 0, -3, 0) == v && PlusTasks(v, 0, 0, 5) == w;
    assert MinusTasks(v, 0, 0, 0) == NOTHING && MinusTasks(NOTHING, 0, -3, 0) == NOTHING.(medium := 3);
    assert Charge(u, st) == w;
  }

  lemma OneMedium(limit: Limit)
    requires limit == ROOMY || limit == SMALL
    ensures Try(limit, NOTHING, Tasks(1, Medium)) == Attempt(None, NOTHING.(medium := 1))
    ensures Charge(NOTHING, Tasks(1, Medium).Amount()) == NOTHING.(medium := 1)
  {
  }

  /** A bulk request with a negative count, refused by the system, leaves more medium tasks counted than there
      were, in the service and in the system, where they exceed the limit of one task. */
  lemma RefusedBulkMiscounts(f: State, g: State, one: Request, r: Request)
    requires f == Step(Start(SMALL), OpenService(Some(ROOMY)))
    requires one == Tasks(1, Medium) && r == Bulk(NOTHING.(medium := -3, low := 5)) && g == Step(f, Reserve(1, one))
    ensures Answer(g, 1, r) == Some(TaskExceeded)
    ensures var h := Step(g, Reserve(1, r)); h[0].rc.medium == 3 && h[1].rc.medium == 3
  {
    hide Try, Step, Undone, Charge;
    OneService(f, SMALL, ROOMY);
    OneMedium(SMALL);
    OneMedium(ROOMY);
    assert Answer(f, 0, one) == None && PartOf(f, 0, 0, one) == Granting;
    assert Answer(f, 1, one) == None && PartOf(f, 1, 1, one) == Granting && PartOf(f, 1, 0, one) == Granting;
    Settles(f, 1, one, 0);
    Settles(f, 1, one, 1);
    assert Parent(g, 1) == 0;
    SmallBulk(g[0].rc, r.stat);
    assert Answer(g, 0, r) == Some(TaskExceeded) && PartOf(g, 0, 0, r) == Refusing;
    assert PartOf(g, 1, 1, r) == Granting && PartOf(g, 1, 0, r) == Refusing;
    Settles(g, 1, r, 0);
    Settles(g, 1, r, 1);
  }

  /** Releasing at the owner what a span holds leaves the owner counting less than its open span. */
  lemma ReleaseAtTheOwnerLosesTheSpan(f: State, g: State, ten: Request)
    requires ten == Memory(10, ALWAYS)
    requires f == Step(Start(ROOMY), BeginSpan(0)) && g == Step(f, Reserve(1, ten))
    ensures var h := Step(g, Release(0, ten)); !h[1].done && h[0].rc.memory == 0 && h[1].rc.memory == 10
  {
    hide Try, Charge, Step, Released;
    TenBytes(ten);
    OneSpan(f);
    assert Parent(f, 1) == 0;
    assert Answer(f, 0, ten) == None && PartOf(f, 0, 0, ten) == Granting;
    assert Answer(f, 1, ten) == None && PartOf(f, 1, 1, ten) == Granting && PartOf(f, 1, 0, ten) == Granting;
    Settles(f, 1, ten, 0);
    Settles(f, 1, ten, 1);
    assert Reach(g, 0) == {0};
    ReleasedAt(g, 0, ten);
    DropValue(10, 10);
    MemoryReleased(g[0].rc, ten);
  }

  lemma TenBytes(ten: Request)
    requires ten == Memory(10, ALWAYS)
    ensures Try(ROOMY, NOTHING, ten) == Attempt(None, NOTHING.(memory := 10))
    ensures Charge(NOTHING, ten.Amount()) == NOTHING.(memory := 10)
  {
    CheckMemoryExact(0, 1000, 10, ALWAYS);
  }

  lemma OneSpan(f: State)
    requires f == Step(Start(ROOMY), BeginSpan(0))
    ensures |f| == 2 && f[0] == Fresh(ROOMY, Root).(refCnt := 1, spanID := 1) && f[1] == Fresh(ROOMY, Span(0))
  {
  }

  lemma MemoryReleased(u: Counters, r: Request)
    requires r.Memory?
    ensures Released(u, r) == u.(memory := Drop(u.memory, r.size))
  {
  }

  lemma ReleasedAt(f: State, i: nat, r: Request)
    requires WellFormed(f) && i < |f|
    ensures forall x :: 0 <= x < |f| ==>
              Step(f, Release(i, r))[x] == f[x].(rc := if x in Reach(f, i) then Released(f[x].rc, r) else f[x].rc)
  {
  }

  /** Closing a service without a limit of its own drops a reference that was never raised. */
  lemma ClosingAnUncountedServiceOverdraws()
    ensures var f := Step(Start(ROOMY), OpenService(None));
            f[0].refCnt == 0 && Step(f, Done(1))[0].refCnt == -1
  {
    var f := Step(Start(ROOMY), OpenService(None));
    assert Parent(f, 1) == 0;
  }
}
