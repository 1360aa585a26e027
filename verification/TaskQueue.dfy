/** The bounded task queue with a retire strategy, a filter and a round-robin cursor
    (base/gfsptqueue/queue.go and queue_limit.go, which differ only in the limit test). */
module TaskQueue {
  import opened Maps
  import opened Options
  import opened Resources
  import opened Sorting
  import opened RoundRobin

  datatype PushError = TaskRepeated | QueueExceeded

  /** Every field of `have` covers the field of `need`. */
  predicate NotLess(have: Limit, need: Limit) {
    && have.memory >= need.memory && have.fd >= need.fd
    && have.tasks >= need.tasks && have.tasksHigh >= need.tasksHigh
    && have.tasksMedium >= need.tasksMedium && have.tasksLow >= need.tasksLow
    && have.conns >= need.conns && have.connsIn >= need.connsIn && have.connsOut >= need.connsOut
  }

  /** The estimate exceeds the limit in no field. */
  ghost predicate Within(estimate: Limit, limit: Limit) {
    && estimate.memory <= limit.memory && estimate.fd <= limit.fd
    && estimate.tasks <= limit.tasks && estimate.tasksHigh <= limit.tasksHigh
    && estimate.tasksMedium <= limit.tasksMedium && estimate.tasksLow <= limit.tasksLow
    && estimate.conns <= limit.conns && estimate.connsIn <= limit.connsIn && estimate.connsOut <= limit.connsOut
  }

  predicate Keyed(tasks: map<TKey, Task>) {
    forall k :: k in tasks ==> tasks[k].key == k
  }

  lemma StillKeyed(tasks: map<TKey, Task>, gone: set<TKey>)
    requires Keyed(tasks)
    ensures Keyed(tasks - gone) && |tasks - gone| <= |tasks|
  {
    SmallerMaps(tasks, gone);
  }

  predicate EarlierOrSame(a: Task, b: Task) {
    a.createTime <= b.createTime
  }

  ghost predicate Ascending(keys: seq<TKey>) {
    forall i, j :: 0 <= i < j < |keys| ==> Before(keys[i], keys[j])
  }

  /** maps.SortKeys: the keys in ascending order, each once. */
  method SortKeys(tasks: map<TKey, Task>) returns (keys: seq<TKey>)
    ensures Ascending(keys) && multiset(keys) == multiset(tasks.Keys)
    ensures forall k :: k in keys ==> k in tasks
  {
    var found := AnyOrder(tasks);
    StringsAreOrdered();
    keys := Sort(StringLeq, found);
    forall i, j | 0 <= i < j < |keys|
      ensures Before(keys[i], keys[j])
    {
      StringLeqMeans(keys[i], keys[j]);
    }
    forall k | k in keys
      ensures k in tasks
    {
      assert k in multiset(keys);
    }
  }

  /** sort.Search: the first position whose create time is above the cursor. */
  method Search(xs: seq<Task>, cursor: int) returns (index: nat)
    requires SortedBy(EarlierOrSame, xs)
    ensures index <= |xs|
    ensures forall j :: 0 <= j < index ==> xs[j].createTime <= cursor
    ensures forall j :: index <= j < |xs| ==> xs[j].createTime > cursor
  {
    var i, j := 0, |xs|;
    while i < j
      invariant 0 <= i <= j <= |xs|
      invariant forall k :: 0 <= k < i ==> xs[k].createTime <= cursor
      invariant forall k :: j <= k < |xs| ==> xs[k].createTime > cursor
    {
      var mid := (i + j) / 2;
      if xs[mid].createTime > cursor {
        assert forall k :: mid < k < |xs| ==> EarlierOrSame(xs[mid], xs[k]);
        j := mid;
      } else {
        assert forall k :: 0 <= k < mid ==> EarlierOrSame(xs[k], xs[mid]);
        i := mid + 1;
      }
    }
    index := i;
  }

  lemma SortedPick(sorted: seq<Task>, index: nat, cursor: int)
    requires SortedBy(EarlierOrSame, sorted) && index <= |sorted| && sorted != []
    requires forall j :: 0 <= j < index ==> sorted[j].createTime <= cursor
    requires forall j :: index <= j < |sorted| ==> sorted[j].createTime > cursor
    ensures IsPick((set x | x in sorted), cursor, sorted[if index == |sorted| then 0 else index])
  {
    var i := if index == |sorted| then 0 else index;
    var all := set x | x in sorted;
    assert sorted[i] in all;
    forall e | e in all && (e.createTime > cursor || i == 0)
      ensures sorted[i].createTime <= e.createTime
    {
      var j :| 0 <= j < |sorted| && sorted[j] == e;
      assert i < j ==> EarlierOrSame(sorted[i], sorted[j]);
    }
  }

  /** Sorting by create time and searching past the cursor finds a pick. */
  method Choose(backup: seq<Task>, cursor: int) returns (t: Task)
    requires backup != []
    ensures IsPick((set x | x in backup), cursor, t)
  {
    hide SortedBy, IsPick;
    var sorted := Sort(EarlierOrSame, backup);
    SameMembers(sorted, backup);
    var index := Search(sorted, cursor);
    SortedPick(sorted, index, cursor);
    if index == |sorted| {
      index := 0;
    }
    t := sorted[index];
  }

  lemma SameMembers<T>(a: seq<T>, b: seq<T>)
    requires multiset(a) == multiset(b)
    ensures |a| == |b| && (set x | x in a) == (set x | x in b)
  {
    assert |multiset(a)| == |a| && |multiset(b)| == |b|;
    forall x
      ensures x in a <==> x in b
    {
      assert x in a <==> x in multiset(a);
      assert x in b <==> x in multiset(b);
    }
  }

  /** What a selection went by: the tasks queued, the order of its pass, the strategies and the limit. */
  datatype Pass = Pass(tasks: map<TKey, Task>, order: seq<TKey>, at: nat, retire: Option<(nat, Task) -> bool>,
                       filter: Option<Task -> bool>, limit: Option<Limit>)
  {
    /** The task is queued, does not retire when it is asked, and passes the limit and the filter. */
    ghost predicate Keeps(x: Task) {
      && x.key in tasks && tasks[x.key] == x
      && (forall i :: 0 <= i < |order| && order[i] == x.key && retire.Some? ==> !retire.value(at + i, x))
      && (limit.Some? ==> Within(x.estimate, limit.value)) && (filter.Some? ==> filter.value(x))
    }
  }

  /** A task that a pass keeps is eligible in the selection made from it. */
  ghost predicate Witnessed(h: seq<Serve>, passes: seq<Pass>) {
    && |passes| == |h|
    && forall j, x: Task :: 0 <= j < |h| && passes[j].Keeps(x) ==> x in h[j].eligible
  }

  lemma WitnessedNext(h: seq<Serve>, passes: seq<Pass>, s: Serve, p: Pass)
    requires Witnessed(h, passes) && forall x :: p.Keeps(x) ==> x in s.eligible
    ensures Witnessed(h + [s], passes + [p])
  {
    hide Pass.Keeps;
    forall j, x: Task | 0 <= j < |h| + 1 && (passes + [p])[j].Keeps(x)
      ensures x in (h + [s])[j].eligible
    {
      if j < |h| {
        assert passes[j].Keeps(x);
      }
    }
  }

  class TQueue {
    const cap: int
    var current: int
    var tasks: map<TKey, Task>
    /** The retire strategy, which may answer differently at every call. */
    var retire: Option<(nat, Task) -> bool>
    var filter: Option<Task -> bool>
    var clock: nat               // calls made to the retire strategy so far
    ghost var history: seq<Serve>  // successful selections so far
    ghost var passes: seq<Pass>    // what each of them went by

    /** Holds between any two calls, whatever the strategies answer. */
    ghost predicate Valid()
      reads this
    {
      && Keyed(tasks)
      && |tasks| <= Cap(cap)
      && History(history) && CursorAt(history, current)
      && Witnessed(history, passes)
    }

    constructor (cap: int)
      ensures Valid() && this.cap == cap && tasks == map[] && history == [] && passes == [] && retire.None? && filter.None?
    {
      this.cap := cap;
      current, tasks, retire, filter, clock, history, passes := 0, map[], None, None, 0, [], [];
    }

    /** Would the retire strategy, asked at call number `at`, retire what is stored under `key`? */
    ghost predicate Retires(at: nat, key: TKey)
      reads this`tasks, this`retire
    {
      key in tasks && retire.Some? && retire.value(at, tasks[key])
    }

    /** has: looking a key up retires what is stored there if the strategy says so. */
    method HasKey(key: TKey) returns (ok: bool)
      requires Keyed(tasks)
      modifies this`tasks, this`clock
      ensures tasks == if old(Retires(clock, key)) then old(tasks) - {key} else old(tasks)
      ensures ok <==> key in old(tasks) && !(retire.Some? && retire.value(old(clock), old(tasks)[key]))
      ensures ok <==> key in tasks
      ensures clock == if key in old(tasks) && retire.Some? then old(clock) + 1 else old(clock)
      ensures Keyed(tasks) && |tasks| <= |old(tasks)|
    {
      SmallerMaps(tasks, {key});
      ok := key in tasks;
      if ok && retire.Some? {
        var task := tasks[key];
        var gone := retire.value(clock, task);
        clock := clock + 1;
        if gone {
          tasks := tasks - {task.key};
          return false;
        }
      }
    }

    /** delete: whatever the strategy answers on the way, the key is gone. */
    method Delete(task: Task)
      requires Keyed(tasks)
      modifies this`tasks, this`clock
      ensures tasks == old(tasks) - {task.key}
      ensures Keyed(tasks) && |tasks| <= |old(tasks)|
    {
      StillKeyed(tasks, {task.key});
      var found := HasKey(task.key);
      if !found {
        return;
      }
      tasks := tasks - {task.key};
    }

    /** add: stores the task unless its key is taken by a task that is not retired on the way. */
    method Add(task: Task)
      requires Keyed(tasks)
      modifies this`tasks, this`clock
      ensures tasks == if task.key in old(tasks) && !old(Retires(clock, task.key)) then old(tasks)
                       else old(tasks)[task.key := task]
      ensures Keyed(tasks) && |tasks| <= |old(tasks)| + 1
    {
      AdditionGrows(tasks, task.key, task);
      var found := HasKey(task.key);
      if found {
        return;
      }
      tasks := tasks[task.key := task];
    }

    method Has(key: TKey) returns (ok: bool)
      requires Valid()
      modifies this`tasks, this`clock
      ensures Valid()
      ensures tasks == if old(Retires(clock, key)) then old(tasks) - {key} else old(tasks)
      ensures ok <==> key in tasks
    {
      ok := HasKey(key);
    }

    // ----- push -----

    /** The map after the key has been looked up. */
    ghost function AfterLookup(key: TKey): map<TKey, Task>
      reads this
    {
      if Retires(clock, key) then tasks - {key} else tasks
    }

    /** The keys in ascending order, and the first one whose task the strategy retires when asked from
        call `at` on. */
    ghost predicate FirstRetired(kept: map<TKey, Task>, at: nat, order: seq<TKey>, n: nat)
      requires retire.Some?
      reads this`retire
    {
      && Ascending(order) && multiset(order) == multiset(kept.Keys)
      && (forall k :: k in order ==> k in kept)
      && n <= |order|
      && (forall m :: 0 <= m < n ==> !retire.value(at + m, kept[order[m]]))
      && (n < |order| ==> retire.value(at + n, kept[order[n]]))
    }

    /** Whether a task can be added to `kept`, and what is kept then: a full queue gives up exactly one
        task, the first in key order that retires, or none and nothing is added. */
    ghost predicate Room(kept: map<TKey, Task>, at: nat, order: seq<TKey>, n: nat, ok: bool, left: map<TKey, Task>)
      reads this`retire
    {
      if |kept| < cap then ok && left == kept
      else if retire.None? then !ok && left == kept
      else
        && FirstRetired(kept, at, order, n)
        && (ok <==> n < |order|)
        && left == if ok then kept - {order[n]} else kept
    }

    /** Push refuses a key that is taken and a queue without room, and otherwise stores the task. */
    method Push(task: Task) returns (err: Option<PushError>, ghost order: seq<TKey>, ghost n: nat, ghost left: map<TKey, Task>)
      requires Valid()
      modifies this`tasks, this`clock
      ensures Valid()
      ensures var kept := old(AfterLookup(task.key));
              var at := if task.key in old(tasks) && retire.Some? then old(clock) + 1 else old(clock);
              if task.key in kept then err == Some(TaskRepeated) && tasks == kept
              else
                && Room(kept, at, order, n, err.None?, left)
                && tasks == (if err.None? then left[task.key := task] else left)
                && (err.Some? ==> err == Some(QueueExceeded))
      ensures task.key !in old(tasks) && |old(tasks)| < cap ==> err.None? && tasks == old(tasks)[task.key := task]
      ensures task.key !in old(tasks) && |old(tasks)| >= cap && retire.None? ==> err == Some(QueueExceeded) && tasks == old(tasks)
      ensures task.key in old(tasks) && retire.None? ==> err == Some(TaskRepeated) && tasks == old(tasks)
      ensures err.None? ==> task.key in tasks && tasks[task.key] == task
    {
      hide History, CursorAt, TQueue.FirstRetired, TQueue.Room;
      var repeated := HasKey(task.key);
      if repeated {
        return Some(TaskRepeated), [], 0, tasks;
      }
      var ok;
      ok, order, n := MakeRoom();
      left := tasks;
      if !ok {
        return Some(QueueExceeded), order, n, left;
      }
      Add(task);
      err := None;
    }

    method MakeRoom() returns (ok: bool, ghost order: seq<TKey>, ghost n: nat)
      requires Keyed(tasks) && |tasks| <= Cap(cap)
      modifies this`tasks, this`clock
      ensures Room(old(tasks), old(clock), order, n, ok, tasks)
      ensures Keyed(tasks) && tasks.Keys <= old(tasks).Keys && |tasks| <= |old(tasks)|
      ensures ok ==> |tasks| < cap
    {
      order, n := [], 0;
      if |tasks| >= cap {
        if retire.None? {
          return false, [], 0;
        }
        ok, order, n := RetireOne();
        return;
      }
      ok := true;
    }

    /** Asks for each task in key order and removes the first that retires. */
    method RetireOne() returns (cleared: bool, ghost order: seq<TKey>, ghost n: nat)
      requires Keyed(tasks) && retire.Some?
      modifies this`tasks, this`clock
      ensures FirstRetired(old(tasks), old(clock), order, n)
      ensures cleared <==> n < |order|
      ensures tasks == if cleared then old(tasks) - {order[n]} else old(tasks)
      ensures cleared ==> |tasks| == |old(tasks)| - 1
    {
      var keys := SortKeys(tasks);
      order := keys;
      var i := 0;
      cleared := false;
      while i < |keys|
        invariant 0 <= i <= |keys| && tasks == old(tasks) && clock == old(clock) + i
        invariant forall m :: 0 <= m < i ==> !retire.value(old(clock) + m, tasks[keys[m]])
      {
        var task := tasks[keys[i]];
        var gone := retire.value(clock, task);
        clock := clock + 1;
        if gone {
          n := i;
          RemovalShrinks(tasks, keys[i]);
          Delete(task);
          return true, order, i;
        }
        i := i + 1;
      }
      n := i;
    }

    // ----- selection -----

    /** The task passes the caller's limit, if one is given, and the filter, if one is set. */
    ghost predicate Suits(task: Task, limit: Option<Limit>)
      reads this`filter
    {
      (limit.Some? ==> Within(task.estimate, limit.value)) && (filter.Some? ==> filter.value(task))
    }

    /** `order` visits every key of the map once. */
    ghost predicate Visits(order: seq<TKey>)
      reads this`tasks
    {
      multiset(order) == multiset(tasks.Keys) && forall k :: k in order ==> k in tasks
    }

    /** The keys whose tasks retire when the pass in this order asks from call `at` on. */
    ghost function RetiredKeys(order: seq<TKey>, at: nat): set<TKey>
      reads this`tasks, this`retire
    {
      set i | 0 <= i < |order| && Retires(at + i, order[i]) :: order[i]
    }

    /** The tasks that do not retire in the pass and that suit. */
    ghost function Eligible(order: seq<TKey>, at: nat, limit: Option<Limit>): set<Task>
      requires Visits(order)
      reads this`tasks, this`retire, this`filter
    {
      set i | 0 <= i < |order| && !Retires(at + i, order[i]) && Suits(tasks[order[i]], limit) :: tasks[order[i]]
    }

    /** The two lists the pass has built after `n` tasks. */
    ghost function Backup(order: seq<TKey>, at: nat, limit: Option<Limit>, n: nat): seq<Task>
      requires Visits(order) && n <= |order|
      reads this`tasks, this`retire, this`filter
    {
      if n == 0 then []
      else Backup(order, at, limit, n - 1)
           + if !Retires(at + n - 1, order[n - 1]) && Suits(tasks[order[n - 1]], limit) then [tasks[order[n - 1]]] else []
    }

    ghost function Gone(order: seq<TKey>, at: nat, n: nat): seq<Task>
      requires Visits(order) && n <= |order|
      reads this`tasks, this`retire
    {
      if n == 0 then []
      else Gone(order, at, n - 1) + if Retires(at + n - 1, order[n - 1]) then [tasks[order[n - 1]]] else []
    }

    lemma {:induction false} BackupMembers(order: seq<TKey>, at: nat, limit: Option<Limit>, n: nat, t: Task)
      requires Visits(order) && n <= |order|
      ensures t in Backup(order, at, limit, n) <==>
              exists i :: 0 <= i < n && !Retires(at + i, order[i]) && Suits(tasks[order[i]], limit) && t == tasks[order[i]]
    {
      hide TQueue.Suits, TQueue.Retires;
      if n > 0 {
        BackupMembers(order, at, limit, n - 1, t);
      }
    }

    lemma {:induction false} GoneMembers(order: seq<TKey>, at: nat, n: nat, t: Task)
      requires Visits(order) && n <= |order|
      ensures t in Gone(order, at, n) <==> exists i :: 0 <= i < n && Retires(at + i, order[i]) && t == tasks[order[i]]
    {
      hide TQueue.Retires;
      if n > 0 {
        GoneMembers(order, at, n - 1, t);
      }
    }

    /** One task of the pass: asked for retirement first, then for the limit and the filter. */
    method Examine(task: Task, limit: Option<Limit>) returns (retired: bool, suits: bool)
      modifies this`clock
      ensures clock == if retire.Some? then old(clock) + 1 else old(clock)
      ensures retired <==> retire.Some? && retire.value(old(clock), task)
      ensures suits <==> !retired && Suits(task, limit)
    {
      retired, suits := false, false;
      if retire.Some? {
        retired := retire.value(clock, task);
        clock := clock + 1;
        if retired {
          return;
        }
      }
      if limit.None? || NotLess(limit.value, task.estimate) {
        if filter.Some? && !filter.value(task) {
          return;
        }
        suits := true;
      }
    }

    /** One pass over the map, in any order: every task is asked for retirement once. */
    method Scan(limit: Option<Limit>) returns (backup: seq<Task>, gone: seq<Task>, ghost order: seq<TKey>)
      modifies this`clock
      ensures Visits(order)
      ensures backup == Backup(order, old(clock), limit, |order|)
      ensures gone == Gone(order, old(clock), |order|)
    {
      hide TQueue.Suits;
      var keys := AnyOrder(tasks);
      order := keys;
      backup, gone := [], [];
      for i := 0 to |keys|
        invariant backup == Backup(keys, old(clock), limit, i) && gone == Gone(keys, old(clock), i)
        invariant retire.Some? ==> clock == old(clock) + i
      {
        var retired, suits := Examine(tasks[keys[i]], limit);
        if retired {
          gone := gone + [tasks[keys[i]]];
        } else if suits {
          backup := backup + [tasks[keys[i]]];
        }
      }
    }

    lemma ScanMeans(order: seq<TKey>, at: nat, limit: Option<Limit>)
      requires Visits(order) && Keyed(tasks)
      ensures (set t | t in Backup(order, at, limit, |order|)) == Eligible(order, at, limit)
      ensures (set t | t in Gone(order, at, |order|) :: t.key) == RetiredKeys(order, at)
    {
      hide TQueue.Suits, TQueue.Retires;
      var backup, gone := Backup(order, at, limit, |order|), Gone(order, at, |order|);
      forall t
        ensures t in backup <==> t in Eligible(order, at, limit)
      {
        BackupMembers(order, at, limit, |order|, t);
      }
      forall k
        ensures (exists t :: t in gone && t.key == k) <==> k in RetiredKeys(order, at)
      {
        forall t
          ensures t in gone <==> exists i :: 0 <= i < |order| && Retires(at + i, order[i]) && t == tasks[order[i]]
        {
          GoneMembers(order, at, |order|, t);
        }
      }
    }

    /** Drops the tasks on the list. */
    method Discard(gone: seq<Task>)
      modifies this`tasks
      ensures tasks == old(tasks) - set t | t in gone :: t.key
    {
      for i := 0 to |gone|
        invariant tasks == old(tasks) - set t | t in gone[..i] :: t.key
      {
        assert gone[..i + 1] == gone[..i] + [gone[i]];
        tasks := tasks - {gone[i].key};
      }
      assert gone[..|gone|] == gone;
    }

    /** The pass and the pick, before the retired tasks are dropped. */
    method Select(limit: Option<Limit>) returns (t: Option<Task>, gone: seq<Task>, ghost order: seq<TKey>)
      requires Keyed(tasks)
      modifies this`clock, this`current, this`history
      ensures Visits(order)
      ensures (set x | x in gone :: x.key) == RetiredKeys(order, old(clock))
      ensures Selected(Eligible(order, old(clock), limit), old(current), old(history), t, current, history)
    {
      hide IsPick, TQueue.Backup, TQueue.Gone;
      var backup;
      backup, gone, order := Scan(limit);
      ScanMeans(order, old(clock), limit);
      hide TQueue.Eligible, TQueue.RetiredKeys;
      t := None;
      assert backup == [] ==> (set x | x in backup) == {};
      if backup != [] {
        var chosen := Choose(backup, current);
        history := history + [Serve(current, (set x | x in backup), chosen)];
        current := chosen.createTime;
        t := Some(chosen);
      }
    }

    /** A task that the pass keeps is eligible in it. */
    lemma KeptIsEligible(order: seq<TKey>, at: nat, limit: Option<Limit>, x: Task)
      requires Visits(order) && Pass(tasks, order, at, retire, filter, limit).Keeps(x)
      ensures x in Eligible(order, at, limit)
    {
      OrderIsExact(tasks, order);
      var i :| 0 <= i < |order| && order[i] == x.key;
      assert !Retires(at + i, order[i]) && Suits(tasks[order[i]], limit);
    }

    lemma SelectionWitnessed(order: seq<TKey>, at: nat, limit: Option<Limit>, cursor: int, h: seq<Serve>, t: Option<Task>,
                             cursor': int, h': seq<Serve>, pass: Pass)
      requires Visits(order) && pass == Pass(tasks, order, at, retire, filter, limit)
      requires Witnessed(h, passes) && Selected(Eligible(order, at, limit), cursor, h, t, cursor', h') && t.Some?
      ensures Witnessed(h', passes + [pass])
    {
      hide IsPick, Witnessed, Pass.Keeps;
      var s := Serve(cursor, Eligible(order, at, limit), t.value);
      hide TQueue.Eligible, TQueue.Visits;
      forall x | pass.Keeps(x)
        ensures x in s.eligible
      {
        KeptIsEligible(order, at, limit, x);
      }
      WitnessedNext(h, passes, s, pass);
    }

    /** Fairness of the queue: between two selections that start over, the create time of a task that every
        pass keeps until then is served; with distinct create times the task itself is. */
    lemma {:induction false} KeptTaskIsServed(a: nat, b: nat, x: Task)
      requires Valid() && a < b < |history| && history[a].Wraps() && history[b].Wraps()
      requires forall j :: a <= j <= b && (forall i :: a <= i < j ==> history[i].task.createTime != x.createTime) ==> passes[j].Keeps(x)
      ensures exists j :: a <= j < b && history[j].task.createTime == x.createTime
      ensures (forall j, e :: a <= j < b && e in history[j].eligible && e.createTime == x.createTime ==> e == x) ==>
                exists j :: a <= j < b && history[j].task == x
    {
      hide History, CursorAt, IsPick, Pass.Keeps, Serve.Wraps;
      assert WaitsThrough(history, a, b, x);
      hide WaitsThrough;
      CursorNeverSkips(history, a, b, x);
      if forall j, e :: a <= j < b && e in history[j].eligible && e.createTime == x.createTime ==> e == x {
        DistinctTasksAreServed(history, a, b, x);
      }
    }

    /** The task is one of `queued`, exceeds the limit in no field and passes the filter. */
    ghost predicate Fair(t: Task, queued: map<TKey, Task>, limit: Option<Limit>)
      reads this`filter
    {
      && t.key in queued && queued[t.key] == t
      && (limit.Some? ==> Within(t.estimate, limit.value)) && (filter.Some? ==> filter.value(t))
    }

    lemma SelectedIsFair(order: seq<TKey>, at: nat, limit: Option<Limit>, cursor: int, h: seq<Serve>, t: Option<Task>,
                         cursor': int, h': seq<Serve>)
      requires Visits(order) && Keyed(tasks) && t.Some?
      requires Selected(Eligible(order, at, limit), cursor, h, t, cursor', h')
      ensures Fair(t.value, tasks, limit)
    {
      PickIsEligible(Eligible(order, at, limit), cursor, t.value);
    }

    /** A selection together with its place in the history, before the retired tasks are dropped. */
    method Turn(limit: Option<Limit>) returns (t: Option<Task>, gone: seq<Task>, ghost order: seq<TKey>)
      requires Valid()
      modifies this`clock, this`current, this`history, this`passes
      ensures Valid() && Visits(order)
      ensures (set x | x in gone :: x.key) == RetiredKeys(order, old(clock))
      ensures Selected(Eligible(order, old(clock), limit), old(current), old(history), t, current, history)
      ensures t.Some? ==> Fair(t.value, tasks, limit)
      ensures passes == if t.Some? then old(passes) + [Pass(tasks, order, old(clock), retire, filter, limit)] else old(passes)
    {
      hide Selected, History, CursorAt, Keyed, Witnessed, Pass.Keeps, TQueue.Eligible, TQueue.RetiredKeys, TQueue.Visits;
      t, gone, order := Select(limit);
      SelectionExtendsHistory(Eligible(order, old(clock), limit), old(current), old(history), t, current, history);
      if t.Some? {
        ghost var pass := Pass(tasks, order, old(clock), retire, filter, limit);
        SelectionWitnessed(order, old(clock), limit, old(current), old(history), t, current, history, pass);
        SelectedIsFair(order, old(clock), limit, old(current), old(history), t, current, history);
        passes := passes + [pass];
      }
    }

    /** top and topByLimit: no task exactly when none is eligible, otherwise a round-robin pick among
        the eligible ones; either way the map loses exactly the tasks that retired in the pass. */
    method Top(limit: Option<Limit>) returns (t: Option<Task>, ghost order: seq<TKey>)
      requires Valid()
      modifies this`tasks, this`clock, this`current, this`history, this`passes
      ensures Valid()
      ensures old(Visits(order))
      ensures tasks == old(tasks) - old(RetiredKeys(order, clock))
      ensures passes == if t.Some? then old(passes) + [Pass(old(tasks), order, old(clock), retire, filter, limit)] else old(passes)
      ensures Selected(old(Eligible(order, clock, limit)), old(current), old(history), t, current, history)
      ensures t.Some? ==> Fair(t.value, old(tasks), limit)
    {
      hide Selected, History, CursorAt, Keyed, Witnessed, Within, TQueue.Eligible, TQueue.RetiredKeys, TQueue.Visits;
      var gone;
      t, gone, order := Turn(limit);
      StillKeyed(tasks, set x | x in gone :: x.key);
      Discard(gone);
    }

    /** Delete on a queue that is in order, which it leaves in order. */
    method Remove(task: Task)
      requires Valid()
      modifies this`tasks, this`clock
      ensures Valid() && tasks == old(tasks) - {task.key}
    {
      hide History, CursorAt, Witnessed, Keyed;
      Delete(task);
    }

    /** Pop and PopByLimit: as Top, and the returned task is gone. */
    method Pop(limit: Option<Limit>) returns (t: Option<Task>, ghost order: seq<TKey>)
      requires Valid()
      modifies this`tasks, this`clock, this`current, this`history, this`passes
      ensures Valid()
      ensures old(Visits(order))
      ensures passes == if t.Some? then old(passes) + [Pass(old(tasks), order, old(clock), retire, filter, limit)] else old(passes)
      ensures Selected(old(Eligible(order, clock, limit)), old(current), old(history), t, current, history)
      ensures t.Some? ==> Fair(t.value, old(tasks), limit)
      ensures var left := old(tasks) - old(RetiredKeys(order, clock));
              tasks == if t.Some? then left - {t.value.key} else left
    {
      hide Selected, Pass.Keeps, TQueue.Valid, TQueue.Fair, TQueue.Eligible, TQueue.RetiredKeys, TQueue.Visits;
      t, order := Top(limit);
      if t.Some? {
        Remove(t.value);
      }
    }

    /** PopByKey returns what is stored under the key unless the lookup retires it; the key is gone. */
    method PopByKey(key: TKey) returns (t: Option<Task>)
      requires Valid()
      modifies this`tasks, this`clock
      ensures Valid()
      ensures t == if key in old(tasks) && !old(Retires(clock, key)) then Some(old(tasks)[key]) else None
      ensures tasks == old(tasks) - {key}
    {
      hide History, CursorAt, Witnessed;
      var found := HasKey(key);
      if !found {
        return None;
      }
      var task := tasks[key];
      Delete(task);
      t := Some(task);
    }

    /** PopTask removes the task exactly when it is the very one stored under its key. */
    method PopTask(task: Task) returns (popped: bool)
      requires Valid()
      modifies this`tasks, this`clock
      ensures Valid()
      ensures popped <==> task.key in old(tasks) && old(tasks)[task.key] == task
      ensures tasks == if popped then old(tasks) - {task.key} else old(tasks)
    {
      hide History, CursorAt, Witnessed;
      if task.key !in tasks || tasks[task.key] != task {
        return false;
      }
      Remove(task);
      popped := true;
    }
  }
}
