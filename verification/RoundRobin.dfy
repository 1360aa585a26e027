/** The create-time cursor that both task queues share, and its fairness over whole histories. */
module RoundRobin {
  import opened Options
  import opened Resources

  type TKey = string

  /** A queued task; `id` stands for its identity as a pointer. */
  datatype Task = Task(id: nat, key: TKey, createTime: int, estimate: Limit)

  /** The task a selection may return: the least create time above the cursor or, when there is none,
      the least of all. Equal create times leave a choice. */
  ghost predicate IsPick(eligible: set<Task>, cursor: int, t: Task) {
    && t in eligible
    && if exists e :: e in eligible && e.createTime > cursor
       then t.createTime > cursor && forall e :: e in eligible && e.createTime > cursor ==> t.createTime <= e.createTime
       else forall e :: e in eligible ==> t.createTime <= e.createTime
  }

  /** One successful selection. */
  datatype Serve = Serve(cursor: int, eligible: set<Task>, task: Task) {
    /** No eligible task lay above the cursor, so the selection started over. */
    ghost predicate Wraps() {
      forall e :: e in eligible ==> e.createTime <= cursor
    }
  }

  /** A queue's selections in order, whatever pushes, pops and retirements happened in between. */
  ghost predicate History(h: seq<Serve>) {
    && (forall j :: 0 <= j < |h| ==> IsPick(h[j].eligible, h[j].cursor, h[j].task))
    && (forall j :: 0 < j < |h| ==> h[j].cursor == h[j - 1].task.createTime)
  }

  /** The outcome of a selection: nothing when nothing is eligible, otherwise a pick, to which the cursor
      moves and which the history records. */
  ghost predicate Selected(eligible: set<Task>, cursor: int, h: seq<Serve>, t: Option<Task>, cursor': int, h': seq<Serve>) {
    if t.None? then eligible == {} && cursor' == cursor && h' == h
    else IsPick(eligible, cursor, t.value) && cursor' == t.value.createTime && h' == h + [Serve(cursor, eligible, t.value)]
  }

  /** Where the cursor stands after a history. */
  ghost predicate CursorAt(h: seq<Serve>, cursor: int) {
    cursor == if h == [] then 0 else h[|h| - 1].task.createTime
  }

  lemma SelectionExtendsHistory(eligible: set<Task>, cursor: int, h: seq<Serve>, t: Option<Task>, cursor': int, h': seq<Serve>)
    requires History(h) && CursorAt(h, cursor) && Selected(eligible, cursor, h, t, cursor', h')
    ensures History(h') && CursorAt(h', cursor')
    ensures t.None? <==> eligible == {}
    ensures t.None? ==> h' == h
  {
    hide IsPick;
    if t.Some? {
      forall j | 0 <= j < |h'|
        ensures IsPick(h'[j].eligible, h'[j].cursor, h'[j].task)
      {
        if j < |h| {
          assert h'[j] == h[j];
        }
      }
    }
    assert t.Some? ==> t.value in eligible by {
      if t.Some? {
        PickIsEligible(eligible, cursor, t.value);
      }
    }
  }

  lemma PickIsEligible(eligible: set<Task>, cursor: int, t: Task)
    requires IsPick(eligible, cursor, t)
    ensures t in eligible
  {
  }

  /** The task stays eligible at every selection from `a` to `b` until its create time is served. */
  ghost predicate WaitsThrough(h: seq<Serve>, a: nat, b: nat, x: Task)
    requires b < |h|
  {
    forall j :: a <= j <= b && (forall i :: a <= i < j ==> h[i].task.createTime != x.createTime) ==> x in h[j].eligible
  }

  /** As long as a waiting create time is not served, the cursor stays below it. */
  lemma {:induction false} CursorStaysBelow(h: seq<Serve>, a: nat, b: nat, x: Task, j: nat)
    requires History(h) && a < j <= b < |h| && h[a].Wraps()
    requires WaitsThrough(h, a, b, x)
    requires forall i :: a <= i < b ==> h[i].task.createTime != x.createTime
    ensures h[j].cursor < x.createTime
  {
    assert h[j].cursor == h[j - 1].task.createTime;
    assert x in h[j - 1].eligible;
    assert IsPick(h[j - 1].eligible, h[j - 1].cursor, h[j - 1].task);
    if j - 1 > a {
      CursorStaysBelow(h, a, b, x, j - 1);
    }
  }

  /** Between two wrap-arounds of the cursor, every create time that waits is served. */
  lemma {:induction false} CursorNeverSkips(h: seq<Serve>, a: nat, b: nat, x: Task)
    requires History(h) && a < b < |h| && h[a].Wraps() && h[b].Wraps()
    requires WaitsThrough(h, a, b, x)
    ensures exists j :: a <= j < b && h[j].task.createTime == x.createTime
  {
    if forall j :: a <= j < b ==> h[j].task.createTime != x.createTime {
      CursorStaysBelow(h, a, b, x, b);
    }
  }

  /** When create times are distinct, the waiting task itself is served. */
  lemma {:induction false} DistinctTasksAreServed(h: seq<Serve>, a: nat, b: nat, x: Task)
    requires History(h) && a < b < |h| && h[a].Wraps() && h[b].Wraps()
    requires WaitsThrough(h, a, b, x)
    requires forall j, e :: a <= j < b && e in h[j].eligible && e.createTime == x.createTime ==> e == x
    ensures exists j :: a <= j < b && h[j].task == x
  {
    CursorNeverSkips(h, a, b, x);
    var j :| a <= j < b && h[j].task.createTime == x.createTime;
    assert IsPick(h[j].eligible, h[j].cursor, h[j].task);
  }

  /** Between wrap-arounds the served create times strictly increase, so none is served twice. */
  lemma {:induction false} RoundsAscend(h: seq<Serve>, i: nat, j: nat)
    requires History(h) && i < j < |h|
    requires forall k :: i < k <= j ==> !h[k].Wraps()
    ensures h[i].task.createTime < h[j].task.createTime
  {
    assert h[j].cursor == h[j - 1].task.createTime;
    assert IsPick(h[j].eligible, h[j].cursor, h[j].task);
    if i < j - 1 {
      RoundsAscend(h, i, j - 1);
    }
  }

  function TimesServed(h: seq<Serve>, i: nat, j: nat): set<int>
    requires i <= j <= |h|
  {
    if i == j then {} else TimesServed(h, i, j - 1) + {h[j - 1].task.createTime}
  }

  lemma {:induction false} AscendingRoundIsLong(h: seq<Serve>, i: nat, j: nat, times: set<int>)
    requires History(h) && i < j <= |h|
    requires forall k :: i < k < j ==> !h[k].Wraps()
    requires forall k :: i <= k < |h| ==> h[k].task.createTime in times
    ensures |TimesServed(h, i, j)| == j - i && TimesServed(h, i, j) <= times
    ensures forall t :: t in TimesServed(h, i, j) ==> t <= h[j - 1].task.createTime
  {
    hide History, IsPick, Serve.Wraps;
    if i < j - 1 {
      AscendingRoundIsLong(h, i, j - 1, times);
      RoundsAscend(h, j - 2, j - 1);
      assert h[j - 1].task.createTime !in TimesServed(h, i, j - 1);
    } else {
      assert TimesServed(h, i, j - 1) == {};
    }
  }

  lemma SubsetIsSmaller(a: set<int>, b: set<int>)
    requires a <= b
    ensures |a| <= |b|
  {
    assert b == a + (b - a) && |b| == |a| + |b - a|;
  }

  /** Where only `times` are ever served, the cursor starts over within |times| selections. */
  lemma {:induction false} WrapsWithin(h: seq<Serve>, i: nat, times: set<int>) returns (w: nat)
    requires History(h) && i + |times| < |h|
    requires forall k :: i <= k < |h| ==> h[k].task.createTime in times
    ensures i < w <= i + |times| && h[w].Wraps()
  {
    if forall k :: i < k <= i + |times| ==> !h[k].Wraps() {
      AscendingRoundIsLong(h, i, i + |times| + 1, times);
      SubsetIsSmaller(TimesServed(h, i, i + |times| + 1), times);
    }
    w :| i < w <= i + |times| && h[w].Wraps();
  }

  /** No starvation: with `times` the create times in play, a task that stays eligible has its create
      time served within 2 * |times| selections. */
  lemma {:induction false} WaitIsBounded(h: seq<Serve>, a: nat, x: Task, times: set<int>)
    requires History(h) && a + 2 * |times| < |h|
    requires forall k :: a <= k < |h| ==> h[k].task.createTime in times
    requires WaitsThrough(h, a, a + 2 * |times|, x)
    ensures exists j :: a <= j < a + 2 * |times| && h[j].task.createTime == x.createTime
  {
    var w := WrapsWithin(h, a, times);
    var v := WrapsWithin(h, w, times);
    if forall j :: a <= j < w ==> h[j].task.createTime != x.createTime {
      assert WaitsThrough(h, w, v, x);
      CursorNeverSkips(h, w, v, x);
    }
  }
}
