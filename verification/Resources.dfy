/** The counters of one scope, their limits, and the checks made before they grow
    (base/gfsprcmgr/resource.go). All sums wrap like Go's 64-bit integers. */
module Resources {
  import opened FixedWidth
  import opened Options

  datatype LimitFields = Limit(
    memory: int,
    tasks: int, tasksHigh: int, tasksMedium: int, tasksLow: int,
    conns: int, connsIn: int, connsOut: int, fd: int)

  /** A configured limit: memory is an int64, every other field an int32. */
  type Limit = l: LimitFields |
    && IsI64(l.memory)
    && IsI32(l.tasks) && IsI32(l.tasksHigh) && IsI32(l.tasksMedium) && IsI32(l.tasksLow)
    && IsI32(l.conns) && IsI32(l.connsIn) && IsI32(l.connsOut) && IsI32(l.fd)
    witness Limit(0, 0, 0, 0, 0, 0, 0, 0, 0)

  /** Amounts of every resource, in unbounded arithmetic. */
  datatype Usage = Usage(
    memory: int, high: int, medium: int, low: int, connsIn: int, connsOut: int, fd: int)
  {
    predicate InRange() {
      && IsI64(memory) && IsI64(high) && IsI64(medium) && IsI64(low)
      && IsI64(connsIn) && IsI64(connsOut) && IsI64(fd)
    }

    predicate NonNegative() {
      0 <= memory && 0 <= high && 0 <= medium && 0 <= low && 0 <= connsIn && 0 <= connsOut && 0 <= fd
    }

    predicate AtMost(other: Usage) {
      && memory <= other.memory && high <= other.high && medium <= other.medium && low <= other.low
      && connsIn <= other.connsIn && connsOut <= other.connsOut && fd <= other.fd
    }

    function Plus(other: Usage): Usage {
      Usage(memory + other.memory, high + other.high, medium + other.medium, low + other.low,
            connsIn + other.connsIn, connsOut + other.connsOut, fd + other.fd)
    }

    function Minus(other: Usage): Usage {
      Usage(memory - other.memory, high - other.high, medium - other.medium, low - other.low,
            connsIn - other.connsIn, connsOut - other.connsOut, fd - other.fd)
    }
  }

  const NOTHING := Usage(0, 0, 0, 0, 0, 0, 0)

  /** What a scope has reserved; also the shape of a bulk request (ScopeStat). Every field is 64 bits. */
  type Counters = u: Usage | u.InRange() witness NOTHING

  datatype TaskPriority = Unknown | High | Medium | Low
  datatype Direction = AnyDirection | Inbound | Outbound
  datatype Error = ScopeClosed | NegativeMemory | MemoryExceeded | TaskExceeded | ConnExceeded

  type ReservePriority = x: int | 0 <= x <= 255

  /** ReservationPriorityAlways. */
  const ALWAYS: ReservePriority := 255

  datatype Request =
    | Memory(size: I64, prio: ReservePriority)
    | Tasks(num: I64, taskPrio: TaskPriority)
    | Conn(dir: Direction)
    | Bulk(stat: Counters)
  {
    /** What a granted request adds to each charged scope; an unknown task priority counts as low. */
    function Amount(): Counters {
      match this
      case Memory(size, _) => NOTHING.(memory := size)
      case Tasks(num, High) => NOTHING.(high := num)
      case Tasks(num, Medium) => NOTHING.(medium := num)
      case Tasks(num, _) => NOTHING.(low := num)
      case Conn(Inbound) => NOTHING.(connsIn := 1, fd := 1)
      case Conn(_) => NOTHING.(connsOut := 1, fd := 1)
      case Bulk(stat) => stat
    }

    /** What releasing the same request takes away; an unknown task priority takes nothing. */
    function Refund(): Counters {
      if Leaks() then NOTHING else Amount()
    }

    /** Taking back a task request of unknown priority takes nothing. */
    predicate Leaks() {
      this.Tasks? && taskPrio == Unknown
    }

    /** Counts of things: not negative, and too small to wrap when added to an admitted counter. */
    predicate Countable() {
      var a := Amount();
      && 0 <= a.high <= MAX_COUNT && 0 <= a.medium <= MAX_COUNT && 0 <= a.low <= MAX_COUNT
      && 0 <= a.connsIn <= MAX_COUNT && 0 <= a.connsOut <= MAX_COUNT && 0 <= a.fd <= MAX_COUNT
    }
  }

  const MAX_COUNT := 0x4000_0000_0000_0000

  // ----- memory -----

  /** checkMemory: the overflow tests, the big-integer fallback (a right shift by 8), the comparison. */
  function CheckMemory(memory: int, limit: int, rsvp: int, prio: int): Option<Error> {
    if rsvp < 0 then Some(NegativeMemory)
    else if limit == MAX_I64 then None
    else
      var (newMem, addOk) := AddWithOverflow(memory, rsvp);
      var (product, mulOk) := MulWithOverflow(1 + prio, limit);
      var threshold :=
        if mulOk then TruncDiv(product, 256)
        else
          var shifted := (1 + prio) * limit / 256;
          if IsI64(shifted) then shifted else limit;
      if !addOk || newMem > threshold then Some(MemoryExceeded) else None
  }

  /** The share of `limit` open to a reservation of priority `prio`, in unbounded arithmetic. */
  function Threshold(limit: int, prio: int): int {
    TruncDiv((1 + prio) * limit, 256)
  }

  predicate MemoryFits(memory: int, limit: int, rsvp: int, prio: int) {
    0 <= rsvp && (limit == MAX_I64 || memory + rsvp <= Threshold(limit, prio))
  }

  lemma ProductBounds(limit: int, k: int)
    requires 1 <= k <= 256
    ensures 0 <= limit ==> 0 <= k * limit <= 256 * limit
    ensures limit < 0 ==> k * limit <= limit
  {
    MulMonotone(if limit < 0 then -limit else limit, 1, k);
    MulMonotone(if limit < 0 then -limit else limit, k, 256);
  }

  lemma ThresholdBounds(limit: int, prio: int)
    requires 0 <= prio <= 255
    ensures 0 <= limit ==> Threshold(limit, prio) == (1 + prio) * limit / 256 <= limit
    ensures limit < 0 ==> (1 + prio) * limit / 256 <= Threshold(limit, prio) <= 0
    ensures (1 + prio) * limit <= -256 ==> Threshold(limit, prio) < 0
  {
    ProductBounds(limit, 1 + prio);
  }

  /** The limit computation in wrapping arithmetic refuses exactly what the unbounded one refuses,
      for every limit, priority and reservation. */
  lemma CheckMemoryExact(memory: int, limit: int, rsvp: int, prio: int)
    requires 0 <= memory <= MAX_I64 && IsI64(limit) && IsI64(rsvp) && 0 <= prio <= 255
    ensures CheckMemory(memory, limit, rsvp, prio) ==
            if rsvp < 0 then Some(NegativeMemory)
            else if MemoryFits(memory, limit, rsvp, prio) then None else Some(MemoryExceeded)
  {
    if 0 <= rsvp && limit != MAX_I64 {
      hide WrapI64;
      AddOverflowExact(memory, rsvp);
      MulOverflowExact(1 + prio, limit);
      ProductBounds(limit, 1 + prio);
      ThresholdBounds(limit, prio);
    }
  }

  // ----- what the code computes, for all counters and amounts -----

  /** A counter after `b` is taken away; a negative outcome is the reported bug, reset to zero. */
  function Drop(a: I64, b: I64): I64 {
    var d := WrapI64(a - b);
    if d < 0 then 0 else d
  }

  function PlusTasks(u: Counters, high: I64, medium: I64, low: I64): Counters {
    u.(high := WrapI64(u.high + high), medium := WrapI64(u.medium + medium), low := WrapI64(u.low + low))
  }

  function MinusTasks(u: Counters, high: I64, medium: I64, low: I64): Counters {
    u.(high := Drop(u.high, high), medium := Drop(u.medium, medium), low := Drop(u.low, low))
  }

  function PlusConns(u: Counters, ins: I64, outs: I64, fds: I64): Counters {
    u.(connsIn := WrapI64(u.connsIn + ins), connsOut := WrapI64(u.connsOut + outs), fd := WrapI64(u.fd + fds))
  }

  function MinusConns(u: Counters, ins: I64, outs: I64, fds: I64): Counters {
    u.(connsIn := Drop(u.connsIn, ins), connsOut := Drop(u.connsOut, outs), fd := Drop(u.fd, fds))
  }

  predicate TasksPass(limit: Limit, u: Counters, high: I64, medium: I64, low: I64) {
    && WrapI64(u.high + u.medium + u.low + high + medium + low) <= limit.tasks
    && WrapI64(high + u.high) <= limit.tasksHigh
    && WrapI64(medium + u.medium) <= limit.tasksMedium
    && WrapI64(low + u.low) <= limit.tasksLow
  }

  /** Directions and descriptors that are not asked for are not compared with their limit. */
  predicate ConnsPass(limit: Limit, u: Counters, ins: I64, outs: I64, fds: I64) {
    && (ins > 0 ==> WrapI64(u.connsIn + ins) <= limit.connsIn)
    && (outs > 0 ==> WrapI64(u.connsOut + outs) <= limit.connsOut)
    && WrapI64(u.connsIn + ins + u.connsOut + outs) <= limit.conns
    && (fds > 0 ==> WrapI64(u.fd + fds) <= limit.fd)
  }

  /** The answer of one scope to a request, and its counters after it. */
  datatype Attempt = Attempt(err: Option<Error>, rc: Counters)

  function TryTasks(limit: Limit, u: Counters, high: I64, medium: I64, low: I64): Attempt {
    if TasksPass(limit, u, high, medium, low) then Attempt(None, PlusTasks(u, high, medium, low))
    else Attempt(Some(TaskExceeded), u)
  }

  function TryConns(limit: Limit, u: Counters, ins: I64, outs: I64, fds: I64): Attempt {
    if ConnsPass(limit, u, ins, outs, fds) then Attempt(None, PlusConns(u, ins, outs, fds))
    else Attempt(Some(ConnExceeded), u)
  }

  function TryMemory(limit: Limit, u: Counters, size: I64, prio: ReservePriority): Attempt {
    var err := CheckMemory(u.memory, limit.memory, size, prio);
    if err.None? then Attempt(None, u.(memory := WrapI64(u.memory + size))) else Attempt(err, u)
  }

  /** High, medium, then low tasks; a refusal undoes the stages before it one at a time. */
  function TryStages(limit: Limit, u: Counters, high: I64, medium: I64, low: I64): Attempt {
    var first := TryTasks(limit, u, high, 0, 0);
    if first.err.Some? then first
    else
      var second := TryTasks(limit, first.rc, 0, medium, 0);
      if second.err.Some? then Attempt(second.err, MinusTasks(second.rc, high, 0, 0))
      else
        var third := TryTasks(limit, second.rc, 0, 0, low);
        if third.err.Some? then Attempt(third.err, MinusTasks(MinusTasks(third.rc, high, 0, 0), 0, medium, 0))
        else third
  }

  /** Memory, connections, then tasks in stages. */
  function TryBulk(limit: Limit, u: Counters, st: Counters): Attempt {
    var m := TryMemory(limit, u, st.memory, ALWAYS);
    if m.err.Some? then m
    else
      var c := TryConns(limit, m.rc, st.connsIn, st.connsOut, st.fd);
      if c.err.Some? then Attempt(c.err, c.rc.(memory := Drop(c.rc.memory, st.memory)))
      else
        var t := TryStages(limit, c.rc, st.high, st.medium, st.low);
        if t.err.None? then t
        else Attempt(t.err, MinusConns(t.rc.(memory := Drop(t.rc.memory, st.memory)), st.connsIn, st.connsOut, st.fd))
  }

  function Try(limit: Limit, u: Counters, r: Request): Attempt {
    match r
    case Memory(size, prio) => TryMemory(limit, u, size, prio)
    case Tasks(num, High) => TryTasks(limit, u, num, 0, 0)
    case Tasks(num, Medium) => TryTasks(limit, u, 0, num, 0)
    case Tasks(num, _) => TryTasks(limit, u, 0, 0, num)
    case Conn(Inbound) => TryConns(limit, u, 1, 0, 1)
    case Conn(_) => TryConns(limit, u, 0, 1, 1)
    case Bulk(st) => TryBulk(limit, u, st)
  }

  function Check(limit: Limit, u: Counters, r: Request): Option<Error> {
    Try(limit, u, r).err
  }

  /** The counters after a request is released: each kind touches only its own counters. */
  function Released(u: Counters, r: Request): Counters {
    match r
    case Memory(size, _) => u.(memory := Drop(u.memory, size))
    case Tasks(num, High) => MinusTasks(u, num, 0, 0)
    case Tasks(num, Medium) => MinusTasks(u, 0, num, 0)
    case Tasks(num, Low) => MinusTasks(u, 0, 0, num)
    case Tasks(num, Unknown) => u
    case Conn(Inbound) => MinusConns(u, 1, 0, 1)
    case Conn(_) => MinusConns(u, 0, 1, 1)
    case Bulk(st) =>
      var v := MinusConns(u.(memory := Drop(u.memory, st.memory)), st.connsIn, st.connsOut, st.fd);
      MinusTasks(MinusTasks(MinusTasks(v, st.high, 0, 0), 0, st.medium, 0), 0, 0, st.low)
  }

  /** The counters of a scope that granted a request which was then refused further up. */
  function Undone(u: Counters, r: Request): Counters {
    Released(Charge(u, r.Amount()), r)
  }

  // ----- the same, counter by counter -----

  function Charge(u: Counters, v: Counters): Counters {
    Usage(WrapI64(u.memory + v.memory),
          WrapI64(u.high + v.high), WrapI64(u.medium + v.medium), WrapI64(u.low + v.low),
          WrapI64(u.connsIn + v.connsIn), WrapI64(u.connsOut + v.connsOut), WrapI64(u.fd + v.fd))
  }

  function Discharge(u: Counters, v: Counters): Counters {
    Usage(Drop(u.memory, v.memory),
          Drop(u.high, v.high), Drop(u.medium, v.medium), Drop(u.low, v.low),
          Drop(u.connsIn, v.connsIn), Drop(u.connsOut, v.connsOut), Drop(u.fd, v.fd))
  }

  /** A grant adds the amount to every counter. */
  lemma GrantCharges(limit: Limit, u: Counters, r: Request)
    requires Check(limit, u, r).None?
    ensures Try(limit, u, r).rc == Charge(u, r.Amount())
  {
    hide WrapI64, CheckMemory, TasksPass, ConnsPass;
  }

  /** Which counters a granted request raises: a task request the one of its priority, low when that is unknown;
      a connection the one of its direction, outbound unless it is inbound, and the descriptors. */
  lemma CountedAs(limit: Limit, u: Counters, r: Request)
    requires Check(limit, u, r).None?
    ensures var v := Try(limit, u, r).rc;
            && (r.Tasks? && r.taskPrio == High ==> v == u.(high := WrapI64(u.high + r.num)))
            && (r.Tasks? && r.taskPrio == Medium ==> v == u.(medium := WrapI64(u.medium + r.num)))
            && (r.Tasks? && r.taskPrio != High && r.taskPrio != Medium ==> v == u.(low := WrapI64(u.low + r.num)))
            && (r == Conn(Inbound) ==> v == u.(connsIn := WrapI64(u.connsIn + 1), fd := WrapI64(u.fd + 1)))
            && (r.Conn? && r.dir != Inbound ==> v == u.(connsOut := WrapI64(u.connsOut + 1), fd := WrapI64(u.fd + 1)))
  {
    hide WrapI64, TasksPass, ConnsPass;
  }

  lemma DropNothing(a: I64)
    requires 0 <= a
    ensures Drop(a, 0) == a
  {
  }

  lemma DropValue(a: I64, b: I64)
    requires 0 <= a
    ensures Drop(a, b) == if b > a || a - b > MAX_I64 then 0 else a - b
  {
  }

  lemma DropUndoes(a: I64, b: I64)
    requires 0 <= a
    ensures Drop(WrapI64(a + b), b) == a
  {
    WrapSum(a, b);
  }

  /** From counters that are not negative, a release takes the amount from every counter. */
  lemma ReleaseDischarges(u: Counters, r: Request)
    requires u.NonNegative()
    ensures Released(u, r) == Discharge(u, r.Refund())
  {
    hide Drop;
    DropNothing(u.memory);
    DropNothing(u.high);
    DropNothing(u.medium);
    DropNothing(u.low);
    DropNothing(u.connsIn);
    DropNothing(u.connsOut);
    DropNothing(u.fd);
    if r.Bulk? {
      DropValue(u.high, r.stat.high);
      DropNothing(Drop(u.high, r.stat.high));
      DropValue(u.medium, r.stat.medium);
      DropNothing(Drop(u.medium, r.stat.medium));
    }
  }

  // ----- what the checks mean -----

  function Cap(x: int): nat {
    if x < 0 then 0 else x
  }

  /** No counter is negative or above its limit; a negative limit keeps its counter at zero. */
  predicate Sound(limit: Limit, u: Usage) {
    && u.NonNegative()
    && u.memory <= Cap(limit.memory)
    && u.high + u.medium + u.low <= Cap(limit.tasks)
    && u.high <= Cap(limit.tasksHigh) && u.medium <= Cap(limit.tasksMedium) && u.low <= Cap(limit.tasksLow)
    && u.connsIn + u.connsOut <= Cap(limit.conns)
    && u.connsIn <= Cap(limit.connsIn) && u.connsOut <= Cap(limit.connsOut) && u.fd <= Cap(limit.fd)
  }

  predicate TasksFit(limit: Limit, u: Usage) {
    && u.high + u.medium + u.low <= limit.tasks
    && u.high <= limit.tasksHigh && u.medium <= limit.tasksMedium && u.low <= limit.tasksLow
  }

  predicate ConnsFit(limit: Limit, u: Usage, ins: int, outs: int, fds: int) {
    && u.connsIn + ins + u.connsOut + outs <= limit.conns
    && (ins > 0 ==> u.connsIn + ins <= limit.connsIn)
    && (outs > 0 ==> u.connsOut + outs <= limit.connsOut)
    && (fds > 0 ==> u.fd + fds <= limit.fd)
  }

  /** The request is within every limit, all checked at once in unbounded arithmetic. */
  predicate Fits(limit: Limit, u: Usage, r: Request) {
    var a := r.Amount();
    && (r.Memory? ==> MemoryFits(u.memory, limit.memory, r.size, r.prio))
    && (r.Bulk? ==> 0 <= a.memory && (limit.memory == MAX_I64 || u.memory + a.memory <= limit.memory))
    && (r.Conn? || r.Bulk? ==> ConnsFit(limit, u, a.connsIn, a.connsOut, a.fd))
    && (r.Tasks? || r.Bulk? ==> TasksFit(limit, u.Plus(a)))
  }

  /** Task counters that an int32 limit admits. */
  predicate FewTasks(u: Usage) {
    0 <= u.high <= MAX_I32 && 0 <= u.medium <= MAX_I32 && 0 <= u.low <= MAX_I32
  }

  lemma TasksPassMeansFit(limit: Limit, u: Counters, high: I64, medium: I64, low: I64)
    requires FewTasks(u) && 0 <= high <= MAX_COUNT && 0 <= medium <= MAX_COUNT && 0 <= low <= MAX_COUNT
    ensures TasksPass(limit, u, high, medium, low) <==>
            TasksFit(limit, u.(high := u.high + high, medium := u.medium + medium, low := u.low + low))
    ensures TasksPass(limit, u, high, medium, low) ==>
              && PlusTasks(u, high, medium, low) == u.(high := u.high + high, medium := u.medium + medium, low := u.low + low)
              && FewTasks(PlusTasks(u, high, medium, low))
  {
  }

  lemma ConnsPassMeansFit(limit: Limit, u: Counters, ins: I64, outs: I64, fds: I64)
    requires 0 <= u.connsIn <= MAX_I32 && 0 <= u.connsOut <= MAX_I32 && 0 <= u.fd <= MAX_I32
    requires 0 <= ins <= MAX_COUNT && 0 <= outs <= MAX_COUNT && 0 <= fds <= MAX_COUNT
    ensures ConnsPass(limit, u, ins, outs, fds) <==> ConnsFit(limit, u, ins, outs, fds)
  {
  }

  /** For counts, the three stages answer like one simultaneous check. */
  lemma StagesMeanFit(limit: Limit, u: Counters, high: I64, medium: I64, low: I64)
    requires FewTasks(u) && 0 <= high <= MAX_COUNT && 0 <= medium <= MAX_COUNT && 0 <= low <= MAX_COUNT
    ensures TryStages(limit, u, high, medium, low).err.None? <==>
            TasksFit(limit, u.(high := u.high + high, medium := u.medium + medium, low := u.low + low))
  {
    hide TasksPass, PlusTasks, MinusTasks, WrapI64;
    TasksPassMeansFit(limit, u, high, 0, 0);
    if TasksPass(limit, u, high, 0, 0) {
      var v := PlusTasks(u, high, 0, 0);
      TasksPassMeansFit(limit, v, 0, medium, 0);
      if TasksPass(limit, v, 0, medium, 0) {
        TasksPassMeansFit(limit, PlusTasks(v, 0, medium, 0), 0, 0, low);
      }
    }
  }

  /** The highest priority may use the whole limit. */
  lemma WholeLimit(limit: int)
    ensures Threshold(limit, ALWAYS) == limit
  {
    TruncDivExact(limit, 256, 256 * limit);
  }

  /** The checks accept exactly the counts that fit. */
  lemma CheckMeansFits(limit: Limit, u: Counters, r: Request)
    requires Sound(limit, u) && r.Countable()
    ensures Check(limit, u, r).None? <==> Fits(limit, u, r)
  {
    hide CheckMemory, Threshold, TasksPass, ConnsPass, TryStages, PlusTasks, PlusConns, MinusTasks, MinusConns, WrapI64, Drop;
    var a := r.Amount();
    CheckMemoryExact(u.memory, limit.memory, a.memory, if r.Memory? then r.prio else ALWAYS);
    ConnsPassMeansFit(limit, u, a.connsIn, a.connsOut, a.fd);
    TasksPassMeansFit(limit, u, a.high, a.medium, a.low);
    if r.Bulk? {
      WholeLimit(limit.memory);
      BulkLooksAt(limit, u, r.stat);
      StagesMeanFit(limit, u, a.high, a.medium, a.low);
    }
  }

  lemma BulkLooksAt(limit: Limit, u: Counters, st: Counters)
    ensures TryBulk(limit, u, st).err.None? <==>
            && CheckMemory(u.memory, limit.memory, st.memory, ALWAYS).None?
            && ConnsPass(limit, u, st.connsIn, st.connsOut, st.fd)
            && TryStages(limit, u, st.high, st.medium, st.low).err.None?
  {
    hide CheckMemory, WrapI64, Drop, TryStages;
    var m := TryMemory(limit, u, st.memory, ALWAYS);
    if m.err.None? {
      SameStages(limit, u, PlusConns(m.rc, st.connsIn, st.connsOut, st.fd), st.high, st.medium, st.low);
    }
  }

  /** A granted count leaves the scope sound, and only an unlimited memory can wrap. */
  lemma ChargeKeepsSound(limit: Limit, u: Counters, r: Request)
    requires Sound(limit, u) && r.Countable()
    requires Check(limit, u, r).None?
    requires limit.memory == MAX_I64 ==> u.memory + r.Amount().memory <= MAX_I64
    ensures Sound(limit, u.Plus(r.Amount()))
    ensures 0 <= r.Amount().memory
  {
    hide WrapI64, CheckMemory, Threshold, Try;
    CheckMeansFits(limit, u, r);
    ThresholdBounds(limit.memory, if r.Memory? then r.prio else ALWAYS);
  }

  /** A charge from sound counters ends in sound counters exactly when the plain sum is sound: a sum that
      wraps turns negative. */
  lemma ChargeIsPlus(limit: Limit, u: Counters, v: Counters)
    requires u.NonNegative()
    ensures Sound(limit, Charge(u, v)) <==> Sound(limit, u.Plus(v))
    ensures Sound(limit, u.Plus(v)) ==> Charge(u, v) == u.Plus(v)
  {
    hide WrapI64;
    WrapSum(u.memory, v.memory);
    WrapSum(u.high, v.high);
    WrapSum(u.medium, v.medium);
    WrapSum(u.low, v.low);
    WrapSum(u.connsIn, v.connsIn);
    WrapSum(u.connsOut, v.connsOut);
    WrapSum(u.fd, v.fd);
  }

  // ----- taking a request back -----

  lemma WrapMoves(a: I64, b: I64)
    ensures WrapI64(a + b) == a <==> b == 0
  {
  }

  /** Adding `b` to the counter `a` ends in 0..MaxInt64, or it is zero and the least int64, which meet again
      by accident. */
  predicate StaysUp(a: I64, b: I64) {
    0 <= a + b <= MAX_I64 || (a == 0 && b == MIN_I64)
  }

  /** What taking a granted request back needs, from counters that are not negative: a leaking request has
      no tasks, and a bulk request leaves neither the medium nor the low counter negative. */
  predicate Undoable(u: Counters, r: Request) {
    && (r.Leaks() ==> r.num == 0)
    && (r.Bulk? ==> StaysUp(u.medium, r.stat.medium) && StaysUp(u.low, r.stat.low))
  }

  /** Taking the high tasks back also resets a negative medium or low counter, so the later stages of a bulk
      refund start from the wrong value. */
  lemma StagedRefund(a: I64, b: I64)
    requires 0 <= a
    ensures Drop(Drop(WrapI64(a + b), 0), b) == a <==> StaysUp(a, b)
  {
    WrapSum(a, b);
    if a + b > MAX_I64 {
      DropValue(0, b);
    } else if a + b < 0 {
      assert Drop(a + b, 0) == 0;
      DropValue(0, b);
    } else {
      DropNothing(a + b);
      DropValue(a + b, b);
    }
  }

  lemma DropsAreUp(a: I64, b: I64)
    ensures 0 <= Drop(a, b) && Drop(Drop(a, b), 0) == Drop(a, b)
  {
  }

  /** Taking a request back restores the counters exactly when it is undoable, however far a sum wrapped. */
  lemma UndoneExactly(u: Counters, r: Request)
    requires u.NonNegative()
    ensures Undone(u, r) == u <==> Undoable(u, r)
  {
    if r.Bulk? {
      StagedUndo(u, r.stat);
    } else {
      OtherUndo(u, r);
    }
  }

  lemma OtherUndo(u: Counters, r: Request)
    requires u.NonNegative() && !r.Bulk?
    ensures Undone(u, r) == u <==> Undoable(u, r)
  {
    hide WrapI64, Drop;
    var a := r.Amount();
    DropUndoes(u.memory, a.memory);
    DropUndoes(u.high, a.high);
    DropUndoes(u.medium, a.medium);
    DropUndoes(u.low, a.low);
    DropUndoes(u.connsIn, a.connsIn);
    DropUndoes(u.connsOut, a.connsOut);
    DropUndoes(u.fd, a.fd);
    WrapMoves(u.low, a.low);
  }

  lemma StagedUndo(u: Counters, st: Counters)
    requires u.NonNegative()
    ensures Undone(u, Bulk(st)) == u <==> Undoable(u, Bulk(st))
  {
    hide WrapI64, Drop;
    DropUndoes(u.memory, st.memory);
    DropUndoes(u.high, st.high);
    DropNothing(u.high);
    DropUndoes(u.connsIn, st.connsIn);
    DropUndoes(u.connsOut, st.connsOut);
    DropUndoes(u.fd, st.fd);
    StagedRefund(u.medium, st.medium);
    StagedRefund(u.low, st.low);
    var m, l := WrapI64(u.medium + st.medium), WrapI64(u.low + st.low);
    DropsAreUp(l, 0);
    DropsAreUp(Drop(m, 0), st.medium);
  }

  /** A bulk request that passes every stage but the last. */
  predicate LowRefused(limit: Limit, u: Counters, st: Counters) {
    var v := PlusTasks(u, st.high, 0, 0);
    && CheckMemory(u.memory, limit.memory, st.memory, ALWAYS).None?
    && ConnsPass(limit, u, st.connsIn, st.connsOut, st.fd)
    && TasksPass(limit, u, st.high, 0, 0) && TasksPass(limit, v, 0, st.medium, 0)
    && !TasksPass(limit, PlusTasks(v, 0, st.medium, 0), 0, 0, st.low)
  }

  /** What a scope that refuses needs to end with the counters it had: when the last stage refuses, the one
      before it has not left the medium counter negative. */
  predicate Recoverable(limit: Limit, u: Counters, r: Request) {
    r.Bulk? && LowRefused(limit, u, r.stat) ==> StaysUp(u.medium, r.stat.medium)
  }

  lemma PlusNoTasks(u: Counters, high: I64, medium: I64)
    ensures PlusTasks(PlusTasks(u, high, 0, 0), 0, medium, 0) == u.(high := WrapI64(u.high + high), medium := WrapI64(u.medium + medium))
    ensures PlusTasks(u, high, 0, 0) == u.(high := WrapI64(u.high + high))
  {
  }

  lemma StagesRestore(limit: Limit, u: Counters, high: I64, medium: I64, low: I64)
    requires 0 <= u.high && 0 <= u.medium && 0 <= u.low
    requires TryStages(limit, u, high, medium, low).err.Some?
    ensures var v := PlusTasks(u, high, 0, 0);
            TryStages(limit, u, high, medium, low).rc == u <==>
            (TasksPass(limit, u, high, 0, 0) && TasksPass(limit, v, 0, medium, 0) ==> StaysUp(u.medium, medium))
    ensures TryStages(limit, u, high, medium, low).rc == u.(medium := TryStages(limit, u, high, medium, low).rc.medium)
  {
    hide WrapI64, Drop, TasksPass, PlusTasks, StaysUp;
    PlusNoTasks(u, high, medium);
    DropUndoes(u.high, high);
    DropNothing(u.high);
    DropNothing(u.medium);
    DropNothing(u.low);
    StagedRefund(u.medium, medium);
  }

  /** A refusal leaves the counters of the scope that refuses as they were, exactly when it is recoverable. */
  lemma RefusalRestores(limit: Limit, u: Counters, r: Request)
    requires u.NonNegative() && Check(limit, u, r).Some?
    ensures Try(limit, u, r).rc == u <==> Recoverable(limit, u, r)
  {
    hide WrapI64, Drop, CheckMemory, TasksPass, ConnsPass, PlusTasks, MinusTasks, TryStages, StaysUp;
    if r.Bulk? {
      BulkRestores(limit, u, r.stat);
    }
  }

  lemma ConnsLookAtConns(limit: Limit, u: Counters, v: Counters, st: Counters)
    requires u.connsIn == v.connsIn && u.connsOut == v.connsOut && u.fd == v.fd
    ensures ConnsPass(limit, u, st.connsIn, st.connsOut, st.fd) == ConnsPass(limit, v, st.connsIn, st.connsOut, st.fd)
  {
    hide WrapI64;
  }

  /** Stages look at the task counters only. */
  lemma SameStages(limit: Limit, u: Counters, v: Counters, high: I64, medium: I64, low: I64)
    requires u.high == v.high && u.medium == v.medium && u.low == v.low
    ensures TasksPass(limit, u, high, 0, 0) == TasksPass(limit, v, high, 0, 0)
    ensures var u1, v1 := PlusTasks(u, high, 0, 0), PlusTasks(v, high, 0, 0);
            && TasksPass(limit, u1, 0, medium, 0) == TasksPass(limit, v1, 0, medium, 0)
            && TasksPass(limit, PlusTasks(u1, 0, medium, 0), 0, 0, low) == TasksPass(limit, PlusTasks(v1, 0, medium, 0), 0, 0, low)
    ensures TryStages(limit, u, high, medium, low).err == TryStages(limit, v, high, medium, low).err
    ensures TryStages(limit, u, high, medium, low).err.None? <==>
            var u1 := PlusTasks(u, high, 0, 0);
            && TasksPass(limit, u, high, 0, 0) && TasksPass(limit, u1, 0, medium, 0)
            && TasksPass(limit, PlusTasks(u1, 0, medium, 0), 0, 0, low)
  {
    hide WrapI64, Drop;
  }

  lemma BulkRestores(limit: Limit, u: Counters, st: Counters)
    requires u.NonNegative() && TryBulk(limit, u, st).err.Some?
    ensures TryBulk(limit, u, st).rc == u <==> Recoverable(limit, u, Bulk(st))
  {
    hide WrapI64, Drop, CheckMemory, TasksPass, ConnsPass, PlusTasks, MinusTasks, TryStages, StaysUp;
    DropUndoes(u.memory, st.memory);
    BulkLooksAt(limit, u, st);
    var m := TryMemory(limit, u, st.memory, ALWAYS);
    assert ConnsPass(limit, m.rc, st.connsIn, st.connsOut, st.fd) == ConnsPass(limit, u, st.connsIn, st.connsOut, st.fd) by {
      ConnsLookAtConns(limit, u, m.rc, st);
    }
    if m.err.None? && ConnsPass(limit, u, st.connsIn, st.connsOut, st.fd) {
      var c := PlusConns(m.rc, st.connsIn, st.connsOut, st.fd);
      SameStages(limit, u, c, st.high, st.medium, st.low);
      StagesRestore(limit, c, st.high, st.medium, st.low);
      DropUndoes(u.connsIn, st.connsIn);
      DropUndoes(u.connsOut, st.connsOut);
      DropUndoes(u.fd, st.fd);
    }
  }

  /** A count that passes can be taken back, unless it leaks, and a count that is refused leaves no trace. */
  lemma CountsAreUndone(limit: Limit, u: Counters, r: Request)
    requires Sound(limit, u) && r.Countable()
    ensures Check(limit, u, r).None? ==> (Undoable(u, r) <==> (r.Leaks() ==> r.num == 0))
    ensures Recoverable(limit, u, r)
  {
    hide WrapI64, CheckMemory, TasksPass, ConnsPass, TryStages, Try, Threshold, PlusTasks, ConnsFit;
    CheckMeansFits(limit, u, r);
    if r.Bulk? {
      var st := r.stat;
      TasksPassMeansFit(limit, u, st.high, 0, 0);
      if TasksPass(limit, u, st.high, 0, 0) {
        TasksPassMeansFit(limit, PlusTasks(u, st.high, 0, 0), 0, st.medium, 0);
      }
    }
  }

  /** What a bulk reservation means for the scope it is made on. */
  lemma BulkMeans(limit: Limit, u: Counters, st: Counters)
    ensures var t := TryBulk(limit, u, st);
            && (t.err.None? ==> t.rc == Charge(u, st))
            && (t.err.Some? && u.NonNegative() ==> (t.rc == u <==> Recoverable(limit, u, Bulk(st))))
            && (Bulk(st).Countable() && Sound(limit, u) ==>
                  (t.err.None? <==> Fits(limit, u, Bulk(st))) && (t.err.Some? ==> t.rc == u))
  {
    hide TryBulk, Charge, Fits, Recoverable;
    var r := Bulk(st);
    if Check(limit, u, r).None? {
      GrantCharges(limit, u, r);
    } else if u.NonNegative() {
      RefusalRestores(limit, u, r);
    }
    if r.Countable() && Sound(limit, u) {
      CheckMeansFits(limit, u, r);
      CountsAreUndone(limit, u, r);
    }
  }

  // ----- releasing -----

  /** A release after which the plain difference is within the limits neither resets nor wraps. */
  lemma DischargeIsMinus(limit: Limit, u: Counters, v: Counters)
    requires u.NonNegative() && Sound(limit, u.Minus(v))
    ensures Discharge(u, v) == u.Minus(v)
  {
    hide Drop;
    DropValue(u.memory, v.memory);
    DropValue(u.high, v.high);
    DropValue(u.medium, v.medium);
    DropValue(u.low, v.low);
    DropValue(u.connsIn, v.connsIn);
    DropValue(u.connsOut, v.connsOut);
    DropValue(u.fd, v.fd);
  }

  /** Giving back at most what is counted stays within the limits. */
  lemma LessIsSound(limit: Limit, u: Usage, v: Usage)
    requires Sound(limit, u) && v.NonNegative() && v.AtMost(u)
    ensures Sound(limit, u.Minus(v))
  {
  }

  lemma DropOrZero(a: I64, b: I64, held: int)
    requires 0 <= held <= a && b <= held && held - b <= Drop(a, b)
    ensures Drop(a, b) == a - b
  {
    DropValue(a, b);
  }

  /** Where at least `held` was counted and at least the rest of it is counted afterwards, nothing was reset. */
  lemma NothingReset(u: Counters, v: Counters, held: Usage)
    requires held.NonNegative() && held.AtMost(u) && v.AtMost(held) && held.Minus(v).AtMost(Discharge(u, v))
    ensures Discharge(u, v) == u.Minus(v)
  {
    hide Drop;
    DropOrZero(u.memory, v.memory, held.memory);
    DropOrZero(u.high, v.high, held.high);
    DropOrZero(u.medium, v.medium, held.medium);
    DropOrZero(u.low, v.low, held.low);
    DropOrZero(u.connsIn, v.connsIn, held.connsIn);
    DropOrZero(u.connsOut, v.connsOut, held.connsOut);
    DropOrZero(u.fd, v.fd, held.fd);
  }

  // ----- a scope's part in a reservation -----

  /** A scope on the way up grants the request, refuses it, or is not asked or closed. */
  datatype Part = Granting | Refusing | Outside

  /** The counters of a scope after a reservation in which it had this part. */
  function Settled(limit: Limit, u: Counters, r: Request, part: Part, granted: bool): Counters {
    match part
    case Granting => if granted then Charge(u, r.Amount()) else Undone(u, r)
    case Refusing => Try(limit, u, r).rc
    case Outside => u
  }
}
