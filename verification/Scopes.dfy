/** Resource scopes (base/gfsprcmgr/scope.go): linked objects that charge every reservation to
    themselves and to everything above them, and undo it when any of those refuses. */
module Scopes {
  import opened FixedWidth
  import opened Options
  import opened Resources

  class Scope {
    const limit: Limit
    const owner: Scope?        // set in span scopes
    const edges: seq<Scope>    // set in service scopes
    ghost const id: nat        // position in order of creation
    ghost const up: set<Scope> // this scope and all the scopes it charges

    var done: bool
    var refCnt: int
    var spanID: int
    var rc: Counters

    /** The links are built once: a scope charges itself and its owner's scopes, or else its edges. */
    ghost predicate Shaped()
      decreases up
    {
      && this in up
      && if owner != null
         then edges == [] && this !in owner.up && up == {this} + owner.up && owner.Shaped()
         else this !in edges && up == {this} + Elements(edges) && Distinct(edges)
    }

    /** The error this one scope answers with, if any. */
    function Refusal(r: Request): Option<Error>
      reads this
    {
      if done then Some(ScopeClosed) else Check(limit, rc, r)
    }

    /** The edges a request is passed on to: all of them, but only the first for a bulk request. */
    ghost function Asked(r: Request): seq<Scope> {
      if r.Bulk? && edges != [] then edges[..1] else edges
    }

    /** The first error on the way up, if any. */
    ghost function Answer(r: Request): Option<Error>
      requires Shaped()
      reads up
      decreases up
    {
      if Refusal(r).Some? then Refusal(r)
      else if owner != null then owner.Answer(r) else EdgeAnswer(Asked(r), r)
    }

    /** What a scope on the way up does: those before the first error grant, the one that gives it refuses. */
    ghost function PartOf(x: Scope, r: Request): Part
      requires Shaped()
      reads up
      decreases up
    {
      if Refusal(r).Some? then if x == this && !done then Refusing else Outside
      else if x == this then Granting
      else if owner != null then owner.PartOf(x, r) else EdgePart(Asked(r), x, r)
    }

    /** The scopes that a release started here reaches: it stops at the first closed owner and
        passes over closed edges. */
    ghost function Reach(): set<Scope>
      requires Shaped()
      reads up
      decreases up
    {
      if done then {}
      else {this} + if owner != null then owner.Reach() else set e | e in edges && !e.done
    }

    constructor (limit: Limit, owner: Scope?, edges: seq<Scope>, ghost id: nat)
      requires owner != null ==> edges == [] && owner.Shaped()
      requires Distinct(edges)
      ensures this.limit == limit && this.owner == owner && this.edges == edges && this.id == id
      ensures Shaped()
      ensures !done && refCnt == 0 && spanID == 0 && rc == NOTHING
    {
      this.limit, this.owner, this.edges, this.id := limit, owner, edges, id;
      up := {this} + if owner != null then owner.up else Elements(edges);
      done, refCnt, spanID, rc := false, 0, 0, NOTHING;
    }

    // ----- this scope's own counters (resource.go) -----

    method ReserveMemoryHere(size: I64, prio: ReservePriority) returns (err: Option<Error>)
      modifies this`rc
      ensures Attempt(err, rc) == TryMemory(limit, old(rc), size, prio)
    {
      err := CheckMemory(rc.memory, limit.memory, size, prio);
      if err.None? {
        rc := rc.(memory := WrapI64(rc.memory + size));
      }
    }

    method ReleaseMemoryHere(size: I64)
      modifies this`rc
      ensures rc == old(rc).(memory := Drop(old(rc).memory, size))
    {
      rc := rc.(memory := WrapI64(rc.memory - size));
      if rc.memory < 0 {
        rc := rc.(memory := 0);
      }
    }

    method AddTasksHere(high: I64, medium: I64, low: I64) returns (err: Option<Error>)
      modifies this`rc
      ensures Attempt(err, rc) == TryTasks(limit, old(rc), high, medium, low)
    {
      if WrapI64(rc.high + rc.medium + rc.low + high + medium + low) > limit.tasks {
        return Some(TaskExceeded);
      }
      if WrapI64(high + rc.high) > limit.tasksHigh {
        return Some(TaskExceeded);
      }
      if WrapI64(medium + rc.medium) > limit.tasksMedium {
        return Some(TaskExceeded);
      }
      if WrapI64(low + rc.low) > limit.tasksLow {
        return Some(TaskExceeded);
      }
      rc := rc.(high := WrapI64(rc.high + high), medium := WrapI64(rc.medium + medium), low := WrapI64(rc.low + low));
      err := None;
    }

    method RemoveTasksHere(high: I64, medium: I64, low: I64)
      modifies this`rc
      ensures rc == MinusTasks(old(rc), high, medium, low)
    {
      rc := rc.(high := WrapI64(rc.high - high), medium := WrapI64(rc.medium - medium), low := WrapI64(rc.low - low));
      if rc.high < 0 {
        rc := rc.(high := 0);
      }
      if rc.medium < 0 {
        rc := rc.(medium := 0);
      }
      if rc.low < 0 {
        rc := rc.(low := 0);
      }
    }

    method AddConnsHere(ins: I64, outs: I64, fds: I64) returns (err: Option<Error>)
      modifies this`rc
      ensures Attempt(err, rc) == TryConns(limit, old(rc), ins, outs, fds)
    {
      if ins > 0 && WrapI64(rc.connsIn + ins) > limit.connsIn {
        return Some(ConnExceeded);
      }
      if outs > 0 && WrapI64(rc.connsOut + outs) > limit.connsOut {
        return Some(ConnExceeded);
      }
      if WrapI64(rc.connsIn + ins + rc.connsOut + outs) > limit.conns {
        return Some(ConnExceeded);
      }
      if fds > 0 && WrapI64(rc.fd + fds) > limit.fd {
        return Some(ConnExceeded);
      }
      rc := rc.(connsIn := WrapI64(rc.connsIn + ins), connsOut := WrapI64(rc.connsOut + outs), fd := WrapI64(rc.fd + fds));
      err := None;
    }

    method RemoveConnsHere(ins: I64, outs: I64, fds: I64)
      modifies this`rc
      ensures rc == MinusConns(old(rc), ins, outs, fds)
    {
      rc := rc.(connsIn := WrapI64(rc.connsIn - ins), connsOut := WrapI64(rc.connsOut - outs), fd := WrapI64(rc.fd - fds));
      if rc.connsIn < 0 {
        rc := rc.(connsIn := 0);
      }
      if rc.connsOut < 0 {
        rc := rc.(connsOut := 0);
      }
      if rc.fd < 0 {
        rc := rc.(fd := 0);
      }
    }

    /** The last three stages of a bulk reservation: high, medium, then low tasks, a failure undoing
        the stages before it. */
    method AddTasksInStages(high: I64, medium: I64, low: I64) returns (err: Option<Error>)
      modifies this`rc
      ensures Attempt(err, rc) == TryStages(limit, old(rc), high, medium, low)
    {
      hide TasksPass, PlusTasks, MinusTasks;
      err := AddTasksHere(high, 0, 0);
      if err.Some? {
        return;
      }
      err := AddTasksHere(0, medium, 0);
      if err.Some? {
        RemoveTasksHere(high, 0, 0);
        return;
      }
      err := AddTasksHere(0, 0, low);
      if err.Some? {
        RemoveTasksHere(high, 0, 0);
        RemoveTasksHere(0, medium, 0);
      }
    }

    /** The staged bulk reservation: memory, connections, tasks, each failure undoing the stages before it.
        From counters that are not negative a refusal leaves no trace exactly when it is recoverable; for
        counts from sound counters it answers like one simultaneous check and always recovers. */
    method ReserveBulkHere(st: Counters) returns (err: Option<Error>)
      modifies this`rc
      ensures Attempt(err, rc) == TryBulk(limit, old(rc), st)
      ensures err.None? ==> rc == Charge(old(rc), st)
      ensures err.Some? && old(rc).NonNegative() ==> (rc == old(rc) <==> Recoverable(limit, old(rc), Bulk(st)))
      ensures Bulk(st).Countable() && Sound(limit, old(rc)) ==>
                && (err.None? <==> Fits(limit, old(rc), Bulk(st)))
                && (err.Some? ==> rc == old(rc))
    {
      hide CheckMemory, WrapI64, Drop, TasksPass, ConnsPass, TryStages, PlusConns, MinusConns, Charge, Sound, Fits, Recoverable;
      BulkMeans(limit, rc, st);
      err := ReserveMemoryHere(st.memory, ALWAYS);
      if err.Some? {
        return;
      }
      err := AddConnsHere(st.connsIn, st.connsOut, st.fd);
      if err.Some? {
        ReleaseMemoryHere(st.memory);
        return;
      }
      err := AddTasksInStages(st.high, st.medium, st.low);
      if err.Some? {
        ReleaseMemoryHere(st.memory);
        RemoveConnsHere(st.connsIn, st.connsOut, st.fd);
      }
    }

    method ReserveHere(r: Request) returns (err: Option<Error>)
      modifies this`rc
      ensures Attempt(err, rc) == Try(limit, old(rc), r)
    {
      hide TryMemory, TryTasks, TryConns, TryBulk;
      match r
      case Memory(size, prio) => err := ReserveMemoryHere(size, prio);
      case Tasks(num, High) => err := AddTasksHere(num, 0, 0);
      case Tasks(num, Medium) => err := AddTasksHere(0, num, 0);
      case Tasks(num, _) => err := AddTasksHere(0, 0, num);
      case Conn(Inbound) => err := AddConnsHere(1, 0, 1);
      case Conn(_) => err := AddConnsHere(0, 1, 1);
      case Bulk(st) => err := ReserveBulkHere(st);
    }

    method ReleaseHere(r: Request)
      modifies this`rc
      ensures rc == Released(old(rc), r)
    {
      hide WrapI64, Drop, MinusTasks, MinusConns;
      match r
      case Memory(size, _) => ReleaseMemoryHere(size);
      case Tasks(num, High) => RemoveTasksHere(num, 0, 0);
      case Tasks(num, Medium) => RemoveTasksHere(0, num, 0);
      case Tasks(num, Low) => RemoveTasksHere(0, 0, num);
      case Tasks(num, Unknown) =>
      case Conn(Inbound) => RemoveConnsHere(1, 0, 1);
      case Conn(_) => RemoveConnsHere(0, 1, 1);
      case Bulk(st) =>
        ReleaseMemoryHere(st.memory);
        RemoveConnsHere(st.connsIn, st.connsOut, st.fd);
        RemoveTasksHere(st.high, 0, 0);
        RemoveTasksHere(0, st.medium, 0);
        RemoveTasksHere(0, 0, st.low);
    }

    // ----- the way up -----

    /** ReserveMemory, AddTask, AddConn and ReserveResources: granted exactly when no scope on the way up
        refuses, and otherwise answered with the first refusal. Every scope settles according to its part. */
    method Reserve(r: Request) returns (err: Option<Error>)
      requires Shaped()
      modifies up`rc
      ensures err == old(Answer(r))
      ensures forall x :: x in up ==> x.rc == Settled(x.limit, old(x.rc), r, old(PartOf(x, r)), err.None?)
      decreases up, 1
    {
      hide Try, Charge, Released;
      if done {
        return Some(ScopeClosed);
      }
      err := ReserveHere(r);
      if err.Some? {
        return;
      }
      GrantCharges(limit, old(rc), r);
      err := ReserveForEdges(r);
      if err.Some? {
        ReleaseHere(r);
      }
    }

    method ReserveForEdges(r: Request) returns (err: Option<Error>)
      requires Shaped()
      modifies (up - {this})`rc
      ensures err == old(if owner != null then owner.Answer(r) else EdgeAnswer(Asked(r), r))
      ensures forall x :: x in up - {this} ==>
                x.rc == Settled(x.limit, old(x.rc), r,
                                old(if owner != null then owner.PartOf(x, r) else EdgePart(Asked(r), x, r)), err.None?)
      decreases up, 0
    {
      hide Try, Charge, Released;
      if owner != null {
        err := owner.Reserve(r);
        return;
      }
      if r.Bulk? {
        err := None;
        if |edges| > 0 {
          assert edges[..1] == [edges[0]] && edges[..1][1..] == [];
          if !edges[0].done && edges[0].Refusal(r).None? {
            GrantCharges(edges[0].limit, edges[0].rc, r);
          }
          err := edges[0].ReserveForChild(r);
        }
        return;
      }
      err := ReserveOverEdges(r);
    }

    /** Every edge is asked in turn; on a refusal the edges already charged are undone. */
    method ReserveOverEdges(r: Request) returns (err: Option<Error>)
      requires Distinct(edges)
      modifies edges`rc
      ensures err == old(EdgeAnswer(edges, r))
      ensures forall x :: x in edges ==> x.rc == Settled(x.limit, old(x.rc), r, old(EdgePart(edges, x, r)), err.None?)
    {
      hide Settled, EdgePart, EdgeAnswer, Grants, PartAfter, Scope.Refusal;
      AnswerAt(edges, r);
      PartsAt(edges, r);
      err := SettleEdges(r);
    }

    /** The same, edge by edge: the first `n` grant and the next one, if any, refuses. */
    method SettleEdges(r: Request) returns (err: Option<Error>)
      requires Distinct(edges)
      modifies edges`rc
      ensures var n := old(Grants(edges, r)); err == if n < |edges| then old(edges[n].Refusal(r)) else None
      ensures forall j :: 0 <= j < |edges| ==>
                edges[j].rc == Settled(edges[j].limit, old(edges[j].rc), r, PartAfter(old(Grants(edges, r)), j, edges[j].done), err.None?)
    {
      hide Try, Charge, Released, Grants, Request.Amount, Scope.Refusal;
      ghost var before: seq<Counters> := seq(|edges|, j requires 0 <= j < |edges| => old(edges[j].rc));
      var reserved;
      err, reserved := ChargeEdges(r);
      if err.Some? {
        UndoEdges(reserved, r, before[..reserved]);
      }
    }

    /** The loop over the edges, up to the first refusal. */
    method ChargeEdges(r: Request) returns (err: Option<Error>, reserved: nat)
      requires Distinct(edges)
      modifies edges`rc
      ensures reserved == old(Grants(edges, r)) && forall j :: 0 <= j < reserved ==> !edges[j].done
      ensures err == if reserved < |edges| then old(edges[reserved].Refusal(r)) else None
      ensures forall j :: 0 <= j < |edges| ==>
                edges[j].rc == if j < reserved then Charge(old(edges[j].rc), r.Amount())
                               else if j == reserved && !edges[j].done then Try(edges[j].limit, old(edges[j].rc), r).rc
                               else old(edges[j].rc)
    {
      hide Try, Charge, Grants;
      ghost var n := Grants(edges, r);
      reserved, err := 0, None;
      while reserved < |edges|
        invariant 0 <= reserved <= n && err.None? && forall j :: 0 <= j < reserved ==> !edges[j].done
        invariant forall j :: 0 <= j < |edges| ==>
                    edges[j].rc == if j < reserved then Charge(old(edges[j].rc), r.Amount()) else old(edges[j].rc)
      {
        var e := edges[reserved];
        if !e.done && e.Refusal(r).None? {
          GrantCharges(e.limit, e.rc, r);
        }
        err := e.ReserveForChild(r);
        if err.Some? {
          break;
        }
        reserved := reserved + 1;
      }
    }

    /** Undoes a granted request in the first `n` edges, whose counters were `before`. */
    method UndoEdges(n: nat, r: Request, ghost before: seq<Counters>)
      requires Distinct(edges)
      requires n == |before| <= |edges|
      requires forall j :: 0 <= j < n ==> !edges[j].done && edges[j].rc == Charge(before[j], r.Amount())
      modifies edges[..n]`rc
      ensures forall j :: 0 <= j < n ==> edges[j].rc == Undone(before[j], r)
    {
      hide Charge, Released;
      for i := 0 to n
        invariant forall j :: 0 <= j < n ==>
                    edges[j].rc == if i <= j then Charge(before[j], r.Amount()) else Undone(before[j], r)
      {
        edges[i].ReleaseForChild(r);
      }
    }

    /** A closed scope refuses and stays as it is; an open one is charged, or refuses and then, from counters
        that are not negative, stays as it is exactly when the refusal is recoverable. */
    method ReserveForChild(r: Request) returns (err: Option<Error>)
      modifies this`rc
      ensures err == old(Refusal(r))
      ensures rc == if done then old(rc) else Try(limit, old(rc), r).rc
      ensures err.None? ==> rc == Charge(old(rc), r.Amount())
      ensures err.Some? && old(rc).NonNegative() ==> (rc == old(rc) <==> done || Recoverable(limit, old(rc), r))
    {
      hide Try, Charge, Recoverable;
      if !done && Refusal(r).None? {
        GrantCharges(limit, rc, r);
      } else if !done && rc.NonNegative() {
        RefusalRestores(limit, rc, r);
      }
      if done {
        return Some(ScopeClosed);
      }
      err := ReserveHere(r);
    }

    method ReleaseForChild(r: Request)
      modifies this`rc
      ensures rc == if done then old(rc) else Released(old(rc), r)
    {
      if done {
        return;
      }
      ReleaseHere(r);
    }

    /** ReleaseMemory, RemoveTask, RemoveConn and ReleaseResources: a closed scope ignores the call,
        an open one takes the amount from itself and from all that the release reaches. */
    method Release(r: Request)
      requires Shaped()
      modifies up`rc
      ensures forall x :: x in up ==> x.rc == if x in old(Reach()) then Released(old(x.rc), r) else old(x.rc)
      decreases up
    {
      hide Released;
      if done {
        return;
      }
      ReleaseHere(r);
      if owner != null {
        owner.Release(r);
      } else {
        ReleaseOverEdges(r);
      }
    }

    method ReleaseOverEdges(r: Request)
      requires Distinct(edges)
      modifies edges`rc
      ensures forall x :: x in edges ==> x.rc == if x.done then old(x.rc) else Released(old(x.rc), r)
    {
      hide Released;
      for i := 0 to |edges|
        invariant forall j :: 0 <= j < |edges| ==>
                    edges[j].rc == if j < i && !edges[j].done then Released(old(edges[j].rc), r) else old(edges[j].rc)
      {
        edges[i].ReleaseForChild(r);
      }
    }

    /** Release gives back everything the counters of this scope show. */
    method ReleaseAll()
      requires Shaped()
      modifies up`rc
      ensures forall x :: x in up ==> x.rc == if x in old(Reach()) then Released(old(x.rc), Bulk(old(rc))) else old(x.rc)
    {
      Release(Bulk(rc));
    }

    // ----- opening and closing -----

    /** A service below the given edges, each of which counts one more reference. */
    static method NewService(limit: Limit, edges: seq<Scope>, ghost id: nat) returns (s: Scope)
      requires Distinct(edges)
      modifies edges`refCnt
      ensures fresh(s) && s.Shaped() && s.id == id && s.owner == null && s.edges == edges && s.limit == limit
      ensures !s.done && s.refCnt == 0 && s.spanID == 0 && s.rc == NOTHING
      ensures forall e :: e in edges ==> e.refCnt == old(e.refCnt) + 1
    {
      for i := 0 to |edges|
        invariant forall j :: 0 <= j < |edges| ==>
                    edges[j].refCnt == if j < i then old(edges[j].refCnt) + 1 else old(edges[j].refCnt)
      {
        edges[i].refCnt := edges[i].refCnt + 1;
      }
      s := new Scope(limit, null, edges, id);
    }

    /** A span of this scope: same limit, nothing reserved, one more reference here. */
    method BeginSpan(ghost id: nat) returns (span: Option<Scope>)
      requires Shaped()
      modifies this`refCnt, this`spanID
      ensures span.None? <==> old(done)
      ensures span.None? ==> refCnt == old(refCnt) && spanID == old(spanID)
      ensures span.Some? ==>
                && fresh(span.value) && span.value.Shaped() && span.value.id == id
                && span.value.owner == this && span.value.limit == limit
                && !span.value.done && span.value.refCnt == 0 && span.value.spanID == 0 && span.value.rc == NOTHING
                && refCnt == old(refCnt) + 1 && spanID == old(spanID) + 1
    {
      if done {
        return None;
      }
      refCnt := refCnt + 1;
      spanID := spanID + 1;
      var s := new Scope(limit, this, [], id);
      span := Some(s);
    }

    /** Closing gives back upward all that is counted here, drops one reference at the owner or at
        each edge, and clears every counter except the task counters. Closing twice does nothing. */
    method Done()
      requires Shaped()
      modifies up`rc, up`refCnt, this`done
      ensures done
      ensures old(done) ==> forall x :: x in up ==> x.rc == old(x.rc) && x.refCnt == old(x.refCnt)
      ensures !old(done) ==>
                && rc == old(rc).(memory := 0, connsIn := 0, connsOut := 0, fd := 0)
                && forall x :: x in up - {this} ==>
                     x.rc == if x in old(Reach()) then Released(old(x.rc), Bulk(old(rc))) else old(x.rc)
      ensures !old(done) ==>
                forall x :: x in up ==> x.refCnt == if x == owner || x in edges then old(x.refCnt) - 1 else old(x.refCnt)
    {
      hide Released;
      if done {
        return;
      }
      var stat := rc;
      if owner != null {
        owner.Release(Bulk(stat));
        owner.refCnt := owner.refCnt - 1;
      } else {
        for i := 0 to |edges|
          invariant forall j :: 0 <= j < |edges| ==>
                      && edges[j].refCnt == (if j < i then old(edges[j].refCnt) - 1 else old(edges[j].refCnt))
                      && edges[j].rc == if j < i && !edges[j].done then Released(old(edges[j].rc), Bulk(stat)) else old(edges[j].rc)
          modifies edges`rc, edges`refCnt
        {
          edges[i].ReleaseForChild(Bulk(stat));
          edges[i].refCnt := edges[i].refCnt - 1;
        }
      }
      rc := rc.(memory := 0, connsIn := 0, connsOut := 0, fd := 0);
      done := true;
    }
  }

  ghost predicate Distinct<T>(xs: seq<T>) {
    forall i, j :: 0 <= i < j < |xs| ==> xs[i] != xs[j]
  }

  ghost function Elements<T>(xs: seq<T>): set<T> {
    set x | x in xs
  }

  /** The first error in a list of edges, each asked on its own. */
  ghost function EdgeAnswer(es: seq<Scope>, r: Request): Option<Error>
    reads es
  {
    if es == [] then None
    else if es[0].Refusal(r).Some? then es[0].Refusal(r)
    else EdgeAnswer(es[1..], r)
  }

  ghost function EdgePart(es: seq<Scope>, x: Scope, r: Request): Part
    reads es
  {
    if es == [] then Outside
    else if es[0].Refusal(r).Some? then if x == es[0] && !x.done then Refusing else Outside
    else if x == es[0] then Granting
    else EdgePart(es[1..], x, r)
  }

  /** How many edges grant before the first that does not. */
  ghost function Grants(es: seq<Scope>, r: Request): (n: nat)
    reads es
    ensures n <= |es| && (forall k :: 0 <= k < n ==> es[k].Refusal(r).None?)
    ensures n < |es| ==> es[n].Refusal(r).Some?
  {
    if es == [] || es[0].Refusal(r).Some? then 0 else 1 + Grants(es[1..], r)
  }

  lemma {:induction false} AnswerAt(es: seq<Scope>, r: Request)
    ensures EdgeAnswer(es, r) == if Grants(es, r) < |es| then es[Grants(es, r)].Refusal(r) else None
  {
    hide Try;
    if es != [] {
      AnswerAt(es[1..], r);
    }
  }

  /** The part of the edge at position `j` when the first `n` grant. */
  function PartAfter(n: nat, j: nat, done: bool): Part {
    if j < n then Granting else if j == n && !done then Refusing else Outside
  }

  lemma {:induction false} PartAt(es: seq<Scope>, r: Request, j: nat)
    requires Distinct(es) && j < |es|
    ensures EdgePart(es, es[j], r) == PartAfter(Grants(es, r), j, es[j].done)
  {
    hide Try;
    if j > 0 {
      PartAt(es[1..], r, j - 1);
    }
  }

  lemma PartsAt(es: seq<Scope>, r: Request)
    requires Distinct(es)
    ensures forall j :: 0 <= j < |es| ==> EdgePart(es, es[j], r) == PartAfter(Grants(es, r), j, es[j].done)
  {
    hide EdgePart, Grants, PartAfter;
    forall j | 0 <= j < |es|
      ensures EdgePart(es, es[j], r) == PartAfter(Grants(es, r), j, es[j].done)
    {
      PartAt(es, r, j);
    }
  }
}
