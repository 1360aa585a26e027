/** The scopes of one resource manager as values, in order of creation, and every call a client can
    make on them as a step. Whole-run properties of the accounting are proved here. */
module Forest {
  import opened FixedWidth
  import opened Options
  import opened Resources

  datatype Link = Root | Span(owner: nat) | Edge(to: nat)

  datatype Node = Node(limit: Limit, link: Link, done: bool, refCnt: int, spanID: int, rc: Counters)

  type State = seq<Node>

  /** The shape a resource manager builds: scope 0 is the system, every other scope is a span of an
      earlier scope or a service with a single edge to the system. */
  predicate WellFormed(f: State) {
    && 0 < |f|
    && f[0].link == Root
    && forall i :: 0 < i < |f| ==> (f[i].link.Span? && f[i].link.owner < i) || f[i].link == Edge(0)
  }

  function Parent(f: State, i: nat): nat
    requires WellFormed(f) && 0 < i < |f|
  {
    match f[i].link
    case Span(p) => p
    case _ => 0
  }

  // ----- the way up -----

  /** The scope and everything it charges. */
  function Up(f: State, i: nat): set<nat>
    requires WellFormed(f) && i < |f|
    ensures i in Up(f, i)
  {
    {i} + if i == 0 then {} else Up(f, Parent(f, i))
  }

  function Refusal(n: Node, r: Request): Option<Error> {
    if n.done then Some(ScopeClosed) else Check(n.limit, n.rc, r)
  }

  /** The first error on the way up, if any. */
  function Answer(f: State, i: nat, r: Request): Option<Error>
    requires WellFormed(f) && i < |f|
  {
    if Refusal(f[i], r).Some? then Refusal(f[i], r)
    else if i == 0 then None else Answer(f, Parent(f, i), r)
  }

  /** What a scope on the way up does: those before the first error grant, the one that gives it refuses. */
  function PartOf(f: State, i: nat, x: nat, r: Request): Part
    requires WellFormed(f) && i < |f|
  {
    if Refusal(f[i], r).Some? then if x == i && !f[i].done then Refusing else Outside
    else if x == i then Granting
    else if i == 0 then Outside else PartOf(f, Parent(f, i), x, r)
  }

  /** The scopes a release reaches: it stops at the first closed one. */
  function Reach(f: State, i: nat): set<nat>
    requires WellFormed(f) && i < |f|
  {
    if f[i].done then {}
    else {i} + if i == 0 then {} else Reach(f, Parent(f, i))
  }

  lemma {:induction false} ReachIsUp(f: State, i: nat)
    requires WellFormed(f) && i < |f|
    ensures Reach(f, i) <= Up(f, i)
  {
    if i != 0 {
      ReachIsUp(f, Parent(f, i));
    }
  }

  // ----- steps -----

  datatype Op =
    | OpenService(own: Option<Limit>)
    | BeginSpan(at: nat)
    | Reserve(at: nat, r: Request)
    | Release(at: nat, r: Request)
    | ReleaseAll(at: nat)
    | Done(at: nat)

  /** A call on an existing scope. */
  predicate Callable(f: State, op: Op) {
    !op.OpenService? ==> op.at < |f|
  }

  function Fresh(limit: Limit, link: Link): Node {
    Node(limit, link, false, 0, 0, NOTHING)
  }

  predicate SameShape(f: State, g: State) {
    |f| == |g| && forall j :: 0 <= j < |f| ==> f[j].link == g[j].link
  }

  function ReserveAt(f: State, i: nat, r: Request): (g: State)
    requires WellFormed(f) && i < |f|
    ensures SameShape(f, g)
  {
    seq(|f|, x requires 0 <= x < |f| =>
      f[x].(rc := Settled(f[x].limit, f[x].rc, r, PartOf(f, i, x, r), Answer(f, i, r).None?)))
  }

  function ReleaseFrom(f: State, ids: set<nat>, r: Request): (g: State)
    ensures SameShape(f, g)
  {
    seq(|f|, j requires 0 <= j < |f| => if j in ids then f[j].(rc := Released(f[j].rc, r)) else f[j])
  }

  function Referenced(n: Node, change: int): Node {
    n.(refCnt := n.refCnt + change)
  }

  function Closed(n: Node): Node {
    n.(done := true, rc := n.rc.(memory := 0, connsIn := 0, connsOut := 0, fd := 0))
  }

  /** A scope after the open scope `i` closes. */
  function AfterClose(f: State, i: nat, x: nat): Node
    requires WellFormed(f) && i < |f| && x < |f|
  {
    if x == i then Closed(f[i])
    else f[x].(refCnt := if 0 < i && Parent(f, i) == x then f[x].refCnt - 1 else f[x].refCnt,
               rc := if x in Reach(f, i) then Released(f[x].rc, Bulk(f[i].rc)) else f[x].rc)
  }

  function Close(f: State, i: nat): (g: State)
    requires WellFormed(f) && i < |f|
    ensures SameShape(f, g)
  {
    if f[i].done then f
    else
      seq(|f|, x requires 0 <= x < |f| => AfterClose(f, i, x))
  }

  function Step(f: State, op: Op): (g: State)
    requires WellFormed(f) && Callable(f, op)
    ensures WellFormed(g)
    ensures |g| == if op.OpenService? || (op.BeginSpan? && !f[op.at].done) then |f| + 1 else |f|
  {
    match op
    case OpenService(None) => f[0 := f[0].(spanID := f[0].spanID + 1)] + [Fresh(f[0].limit, Span(0))]
    case OpenService(Some(l)) => f[0 := Referenced(f[0], 1)] + [Fresh(l, Edge(0))]
    case BeginSpan(i) =>
      if f[i].done then f
      else f[i := Referenced(f[i], 1).(spanID := f[i].spanID + 1)] + [Fresh(f[i].limit, Span(i))]
    case Reserve(i, r) => ReserveAt(f, i, r)
    case Release(i, r) => ReleaseFrom(f, Reach(f, i), r)
    case ReleaseAll(i) => ReleaseFrom(f, Reach(f, i), Bulk(f[i].rc))
    case Done(i) => Close(f, i)
  }

  /** A state that differs from `f` by what each scope settles is the state after the reservation. */
  lemma {:induction false} ReserveEffect(f: State, g: State, i: nat, r: Request)
    requires WellFormed(f) && i < |f| == |g|
    requires forall j :: 0 <= j < |f| ==>
               g[j] == f[j].(rc := Settled(f[j].limit, f[j].rc, r, PartOf(f, i, j, r), Answer(f, i, r).None?))
    ensures g == Step(f, Reserve(i, r))
  {
  }

  lemma {:induction false} ReleaseEffect(f: State, g: State, i: nat, r: Request)
    requires WellFormed(f) && i < |f| == |g|
    requires forall j :: 0 <= j < |f| ==>
               g[j] == f[j].(rc := if j in Reach(f, i) then Released(f[j].rc, r) else f[j].rc)
    ensures g == Step(f, Release(i, r))
    ensures r == Bulk(f[i].rc) ==> g == Step(f, ReleaseAll(i))
  {
  }

  lemma {:induction false} DoneEffect(f: State, g: State, i: nat)
    requires WellFormed(f) && i < |f| == |g| && !f[i].done
    requires forall x :: 0 <= x < |f| ==> g[x] == AfterClose(f, i, x)
    ensures g == Step(f, Done(i))
  {
    hide AfterClose;
  }

  lemma {:induction false} BeginSpanEffect(f: State, g: State, i: nat)
    requires WellFormed(f) && i < |f|
    requires f[i].done ==> g == f
    requires !f[i].done ==>
               && |g| == |f| + 1 && g[|f|] == Fresh(f[i].limit, Span(i))
               && forall j :: 0 <= j < |f| ==>
                    g[j] == if j == i then f[i].(refCnt := f[i].refCnt + 1, spanID := f[i].spanID + 1) else f[j]
    ensures g == Step(f, BeginSpan(i))
  {
  }

  lemma {:induction false} OpenServiceEffect(f: State, g: State, own: Option<Limit>)
    requires WellFormed(f) && |g| == |f| + 1
    requires g[|f|] == if own.Some? then Fresh(own.value, Edge(0)) else Fresh(f[0].limit, Span(0))
    requires g[0] == if own.Some? then f[0].(refCnt := f[0].refCnt + 1) else f[0].(spanID := f[0].spanID + 1)
    requires forall j :: 0 < j < |f| ==> g[j] == f[j]
    ensures g == Step(f, OpenService(own))
  {
  }

  lemma DoneTwice(f: State, i: nat)
    requires WellFormed(f) && i < |f| && f[i].done
    ensures Step(f, Done(i)) == f
  {
  }

  // ----- the client's own books -----

  /** For each scope, what was reserved and not released through it, and whether opening it raised
      its parent's reference count. */
  datatype Ledger = Ledger(held: seq<Usage>, counted: seq<bool>)

  function Record(f: State, led: Ledger, op: Op): (led': Ledger)
    requires WellFormed(f) && Callable(f, op) && |led.held| == |led.counted| == |f|
    ensures |led'.held| == |led'.counted| == |Step(f, op)|
  {
    match op
    case OpenService(own) => Ledger(led.held + [NOTHING], led.counted + [own.Some?])
    case BeginSpan(i) =>
      if f[i].done then led else Ledger(led.held + [NOTHING], led.counted + [true])
    case Reserve(i, r) =>
      if Answer(f, i, r).None? then led.(held := led.held[i := led.held[i].Plus(r.Amount())]) else led
    case Release(i, r) =>
      if f[i].done then led else led.(held := led.held[i := led.held[i].Minus(r.Refund())])
    case ReleaseAll(i) =>
      if f[i].done then led else led.(held := led.held[i := led.held[i].Minus(f[i].rc)])
    case Done(_) => led
  }

  /** What a scope adds to its parent's counters. */
  function Share(n: Node): Usage {
    if n.done then NOTHING else n.rc
  }

  predicate IsChild(f: State, c: nat, p: nat)
    requires WellFormed(f) && c < |f|
  {
    0 < c && Parent(f, c) == p
  }

  /** The counters of the open children of `p` among the first `k` scopes, added up. */
  function ChildSum(f: State, p: nat, k: nat): Usage
    requires WellFormed(f) && k <= |f|
  {
    if k == 0 then NOTHING
    else if IsChild(f, k - 1, p) then ChildSum(f, p, k - 1).Plus(Share(f[k - 1]))
    else ChildSum(f, p, k - 1)
  }

  /** References raised on behalf of the children of `p` among the first `k` scopes, less those dropped. */
  function RefSum(f: State, counted: seq<bool>, p: nat, k: nat): int
    requires WellFormed(f) && k <= |f| == |counted|
  {
    if k == 0 then 0
    else if IsChild(f, k - 1, p)
    then RefSum(f, counted, p, k - 1) + (if counted[k - 1] then 1 else 0) - (if f[k - 1].done then 1 else 0)
    else RefSum(f, counted, p, k - 1)
  }

  predicate Balanced(f: State, held: seq<Usage>, p: nat)
    requires WellFormed(f) && p < |f| == |held|
  {
    f[p].done || f[p].rc == held[p].Plus(ChildSum(f, p, |f|))
  }

  /** An open scope counts at least what its open children count together. */
  predicate Covered(f: State, p: nat)
    requires WellFormed(f) && p < |f|
  {
    f[p].done || ChildSum(f, p, |f|).AtMost(f[p].rc)
  }

  /** Conservation, limit safety and reference counts, together. */
  predicate Consistent(f: State, led: Ledger) {
    && WellFormed(f)
    && |led.held| == |led.counted| == |f|
    && (forall p :: 0 <= p < |f| ==> Sound(f[p].limit, f[p].rc))
    && (forall p :: 0 <= p < |f| ==> Covered(f, p))
    && (forall p :: 0 <= p < |f| ==> Balanced(f, led.held, p))
    && (forall p :: 0 <= p < |f| ==> f[p].refCnt == RefSum(f, led.counted, p, |f|))
  }

  // ----- the discipline -----

  /** An open scope with room for the request. Counts are compared with the limits in unbounded arithmetic;
      amounts that are negative or can wrap are put to the scope's own checks. */
  predicate Admits(n: Node, r: Request) {
    !n.done && if r.Countable() then Fits(n.limit, n.rc, r) else Check(n.limit, n.rc, r).None?
  }

  predicate Admitted(f: State, i: nat, r: Request)
    requires WellFormed(f) && i < |f|
  {
    forall x :: x in Up(f, i) ==> x < |f| && Admits(f[x], r)
  }

  /** The amount added to every scope on the way up stays within the limits and above zero. */
  predicate Affordable(f: State, led: Ledger, i: nat, a: Usage)
    requires WellFormed(f) && i < |f| == |led.held|
  {
    && led.held[i].Plus(a).NonNegative()
    && forall x :: x in Up(f, i) ==> x < |f| && Sound(f[x].limit, f[x].rc.Plus(a))
  }

  /** After a refusal the scope can be given back the counters it had. */
  predicate Restorable(f: State, i: nat, x: nat, r: Request)
    requires WellFormed(f) && i < |f| && x < |f|
  {
    match PartOf(f, i, x, r)
    case Granting => Undoable(f[x].rc, r)
    case Refusing => Recoverable(f[x].limit, f[x].rc, r)
    case Outside => true
  }

  /** No more is given back than was reserved through the scope, and what is "given back" with a negative
      sign stays within the limits of every scope it reaches. */
  predicate Returnable(f: State, led: Ledger, i: nat, a: Usage)
    requires WellFormed(f) && i < |f| == |led.held|
  {
    && a.AtMost(led.held[i])
    && forall x :: x in Reach(f, i) ==> x < |f| && Sound(f[x].limit, f[x].rc.Minus(a))
  }

  /** Exactly the calls that keep the books consistent, as the caller can tell beforehand. */
  predicate Disciplined(f: State, led: Ledger, op: Op)
    requires WellFormed(f) && Callable(f, op) && |led.held| == |f|
  {
    match op
    case Reserve(i, r) =>
      if Admitted(f, i, r) then Affordable(f, led, i, r.Amount())
      else forall x :: 0 <= x < |f| ==> Restorable(f, i, x, r)
    case Release(i, r) => f[i].done || Returnable(f, led, i, r.Refund())
    case ReleaseAll(i) => f[i].done || ChildSum(f, i, |f|) == NOTHING
    case _ => true
  }

  // ----- sums over children -----

  /** If the share of one child changes by `d` and no other child's does, so does the sum. */
  lemma {:induction false} SumShift(f: State, g: State, p: nat, c: nat, d: Usage, k: nat)
    requires WellFormed(f) && SameShape(f, g) && k <= |f|
    requires c < |f| && IsChild(f, c, p)
    requires Share(g[c]) == Share(f[c]).Plus(d)
    requires forall x :: 0 < x < |f| && x != c && Parent(f, x) == p ==> Share(g[x]) == Share(f[x])
    ensures WellFormed(g)
    ensures ChildSum(g, p, k) == if c < k then ChildSum(f, p, k).Plus(d) else ChildSum(f, p, k)
  {
    if k > 0 {
      SumShift(f, g, p, c, d, k - 1);
    }
  }

  lemma {:induction false} SumSame(f: State, g: State, p: nat, k: nat)
    requires WellFormed(f) && SameShape(f, g) && k <= |f|
    requires forall x :: 0 < x < |f| && Parent(f, x) == p ==> Share(g[x]) == Share(f[x])
    ensures WellFormed(g)
    ensures ChildSum(g, p, k) == ChildSum(f, p, k)
  {
    if k > 0 {
      SumSame(f, g, p, k - 1);
    }
  }

  /** The sum is non-negative and at least the share of any one child. */
  lemma {:induction false} SumCovers(f: State, p: nat, c: nat, k: nat)
    requires WellFormed(f) && k <= |f|
    requires forall x :: 0 <= x < |f| ==> f[x].rc.NonNegative()
    ensures ChildSum(f, p, k).NonNegative()
    ensures c < k && IsChild(f, c, p) ==> Share(f[c]).AtMost(ChildSum(f, p, k))
  {
    if k > 0 {
      SumCovers(f, p, c, k - 1);
    }
  }

  // ----- the path up from a scope -----

  /** The scope below `p` on the way up from `i`; it is the only child of `p` on that way. */
  function ChildOnPath(f: State, i: nat, p: nat): (c: nat)
    requires WellFormed(f) && i < |f| && p in Up(f, i) && p != i
    ensures c in Up(f, i) && c < |f| && IsChild(f, c, p)
    ensures forall x :: x in Up(f, i) && x < |f| && IsChild(f, x, p) ==> x == c
  {
    UpIsBelow(f, Parent(f, i));
    if Parent(f, i) == p then i else ChildOnPath(f, Parent(f, i), p)
  }

  lemma {:induction false} UpIsBelow(f: State, i: nat)
    requires WellFormed(f) && i < |f|
    ensures forall x :: x in Up(f, i) ==> x <= i
    ensures 0 in Up(f, i)
  {
    if i != 0 {
      UpIsBelow(f, Parent(f, i));
    }
  }

  /** `path` starts at `i` and goes up without a gap, ending below a closed scope or at the top. */
  predicate IsPath(f: State, g: State, i: nat, path: set<nat>)
    requires WellFormed(f) && i < |f| == |g|
  {
    && path <= Up(f, i)
    && (forall x :: x in path && 0 < x < |f| && !g[Parent(f, x)].done ==> Parent(f, x) in path)
    && (forall p :: p in path && p != i ==> ChildOnPath(f, i, p) in path)
  }

  /** When every share on a path changes by `d`, the sums at the scopes above its start change by `d`. */
  lemma {:induction false} PathShift(f: State, g: State, i: nat, path: set<nat>, d: Usage, p: nat)
    requires WellFormed(f) && SameShape(f, g) && i < |f| && p < |f|
    requires IsPath(f, g, i, path)
    requires !g[p].done
    requires forall x :: 0 <= x < |f| ==> Share(g[x]) == if x in path then Share(f[x]).Plus(d) else Share(f[x])
    ensures WellFormed(g)
    ensures ChildSum(g, p, |f|) == if p in path && p != i then ChildSum(f, p, |f|).Plus(d) else ChildSum(f, p, |f|)
  {
    UpIsBelow(f, i);
    if p in path && p != i {
      SumShift(f, g, p, ChildOnPath(f, i, p), d, |f|);
    } else {
      forall x | 0 < x < |f| && Parent(f, x) == p
        ensures x !in path
      {
      }
      SumSame(f, g, p, |f|);
    }
  }

  /** A request is granted exactly when every scope on the way up admits it. */
  lemma {:induction false} GrantedExactly(f: State, led: Ledger, i: nat, r: Request)
    requires Consistent(f, led) && i < |f|
    ensures Answer(f, i, r).None? <==> Admitted(f, i, r)
  {
    hide Try, Fits, Balanced, RefSum, Covered, Request.Countable;
    if r.Countable() {
      CheckMeansFits(f[i].limit, f[i].rc, r);
    }
    assert Refusal(f[i], r).None? <==> Admits(f[i], r);
    hide Admits, Refusal;
    if i != 0 {
      GrantedExactly(f, led, Parent(f, i), r);
      assert Up(f, i) == {i} + Up(f, Parent(f, i));
    }
  }

  /** A granted request is granted by every scope on the way up, and by no other. */
  lemma {:induction false} GrantPassesAll(f: State, i: nat, r: Request)
    requires WellFormed(f) && i < |f|
    requires Answer(f, i, r).None?
    ensures forall x :: PartOf(f, i, x, r) == if x in Up(f, i) then Granting else Outside
    ensures forall x :: x in Up(f, i) ==> x < |f| && !f[x].done && Check(f[x].limit, f[x].rc, r).None?
  {
    hide Try;
    if i != 0 {
      GrantPassesAll(f, Parent(f, i), r);
    }
  }

  /** Only open scopes on the way up take part. */
  lemma {:induction false} PartIsUp(f: State, i: nat, x: nat, r: Request)
    requires WellFormed(f) && i < |f| && PartOf(f, i, x, r) != Outside
    ensures x in Up(f, i) && x < |f| && !f[x].done
    ensures if PartOf(f, i, x, r) == Granting then Check(f[x].limit, f[x].rc, r).None? else Check(f[x].limit, f[x].rc, r).Some?
  {
    hide Try;
    if i != 0 && Refusal(f[i], r).None? && x != i {
      PartIsUp(f, Parent(f, i), x, r);
    }
  }

  lemma {:induction false} UpClosed(f: State, i: nat, x: nat)
    requires WellFormed(f) && i < |f|
    requires 0 < x < |f| && x in Up(f, i)
    ensures Parent(f, x) in Up(f, i)
  {
    if x != i {
      UpClosed(f, Parent(f, i), x);
    }
  }

  lemma {:induction false} UpIsPath(f: State, g: State, i: nat)
    requires WellFormed(f) && i < |f| == |g|
    ensures IsPath(f, g, i, Up(f, i))
  {
    forall x | x in Up(f, i) && 0 < x < |f|
      ensures Parent(f, x) in Up(f, i)
    {
      UpClosed(f, i, x);
    }
  }

  lemma {:induction false} ReachIsPath(f: State, g: State, i: nat)
    requires WellFormed(f) && i < |f| == |g|
    requires forall j :: 0 <= j < |f| && f[j].done ==> g[j].done
    ensures IsPath(f, g, i, Reach(f, i))
  {
    if i != 0 && !f[i].done {
      var p := Parent(f, i);
      ReachIsPath(f, g, p);
      forall q | q in Reach(f, i) && q != i
        ensures ChildOnPath(f, i, q) in Reach(f, i)
      {
      }
    }
  }

  /** Every scope a release reaches counts at least what the scope it started from counts. */
  lemma {:induction false} ReachCovers(f: State, led: Ledger, i: nat)
    requires Consistent(f, led) && i < |f|
    ensures forall x :: x in Reach(f, i) ==> x < |f| && !f[x].done && f[i].rc.AtMost(f[x].rc)
  {
    hide Sound;
    if i != 0 && !f[i].done {
      var p := Parent(f, i);
      ReachCovers(f, led, p);
      if !f[p].done {
        ChildIsCovered(f, led, i);
      }
    }
  }

  lemma {:induction false} ChildIsCovered(f: State, led: Ledger, c: nat)
    requires Consistent(f, led) && 0 < c < |f|
    requires !f[c].done && !f[Parent(f, c)].done
    ensures f[c].rc.AtMost(f[Parent(f, c)].rc)
  {
    var p := Parent(f, c);
    assert forall x :: 0 <= x < |f| ==> f[x].rc.NonNegative();
    SumCovers(f, p, c, |f|);
    assert Covered(f, p);
  }

  /** When the way up is open, the system counts at least what the scope counts. */
  lemma {:induction false} SystemCovers(f: State, led: Ledger, i: nat)
    requires Consistent(f, led) && i < |f|
    requires forall x :: x in Up(f, i) ==> x < |f| && !f[x].done
    ensures forall x :: x in Up(f, i) ==> f[x].rc.AtMost(f[0].rc)
  {
    hide Sound;
    if i != 0 {
      assert forall x :: x in Up(f, Parent(f, i)) ==> x in Up(f, i);
      SystemCovers(f, led, Parent(f, i));
      ChildIsCovered(f, led, i);
    }
  }

  lemma {:induction false} RefsSame(f: State, g: State, counted: seq<bool>, p: nat, k: nat)
    requires WellFormed(f) && SameShape(f, g) && k <= |f| == |counted|
    requires forall j :: 0 <= j < |f| ==> f[j].done == g[j].done
    ensures WellFormed(g) && RefSum(g, counted, p, k) == RefSum(f, counted, p, k)
  {
    if k > 0 {
      RefsSame(f, g, counted, p, k - 1);
    }
  }

  // ----- every step keeps the books, exactly when disciplined -----

  /** Moving `d` along an open path and booking it at the path's start keeps every balance. */
  lemma {:induction false} PathKeepsBalance(f: State, g: State, held: seq<Usage>, held': seq<Usage>, i: nat, path: set<nat>, d: Usage)
    requires WellFormed(f) && SameShape(f, g) && i < |f| == |held|
    requires forall p :: 0 <= p < |f| ==> Balanced(f, held, p)
    requires IsPath(f, g, i, path) && i in path
    requires forall j :: 0 <= j < |f| ==> f[j].done == g[j].done && (j in path ==> !f[j].done)
    requires forall j :: 0 <= j < |f| ==> g[j].rc == if j in path then f[j].rc.Plus(d) else f[j].rc
    requires held' == held[i := held[i].Plus(d)]
    ensures WellFormed(g)
    ensures forall p :: 0 <= p < |f| ==> Balanced(g, held', p)
  {
    assert WellFormed(g);
    forall p | 0 <= p < |f|
      ensures Balanced(g, held', p)
    {
      if !g[p].done {
        PathShift(f, g, i, path, d, p);
        assert Balanced(f, held, p);
      }
    }
  }

  /** In a balanced open scope, covering the children means holding no less than nothing. */
  lemma CoveredMeansHeld(f: State, held: seq<Usage>, p: nat)
    requires WellFormed(f) && p < |f| == |held| && Balanced(f, held, p) && !f[p].done
    ensures Covered(f, p) <==> held[p].NonNegative()
  {
    hide ChildSum;
  }

  /** The same with limits and references: what is left to check is one soundness per moved scope. */
  lemma {:induction false} PathKeepsBooks(f: State, g: State, led: Ledger, led': Ledger, i: nat, path: set<nat>, d: Usage)
    requires Consistent(f, led) && |f| == |g| && i < |f|
    requires IsPath(f, g, i, path) && i in path
    requires forall j :: 0 <= j < |f| ==> (j in path ==> !f[j].done) && g[j] == f[j].(rc := g[j].rc)
    requires forall j :: 0 <= j < |f| ==> g[j].rc == if j in path then f[j].rc.Plus(d) else f[j].rc
    requires forall j :: 0 <= j < |f| && j in path ==> Sound(f[j].limit, g[j].rc)
    requires led' == led.(held := led.held[i := led.held[i].Plus(d)]) && led'.held[i].NonNegative()
    ensures Consistent(g, led')
  {
    hide Sound, Covered, Balanced, RefSum, Usage.Plus, Usage.NonNegative;
    PathKeepsBalance(f, g, led.held, led'.held, i, path, d);
    forall p | 0 <= p < |f|
      ensures Covered(g, p)
    {
      if g[p].done {
        ClosedIsCovered(g, p);
      } else {
        CoveredMeansHeld(f, led.held, p);
        CoveredMeansHeld(g, led'.held, p);
      }
    }
    forall p | 0 <= p < |f|
      ensures g[p].refCnt == RefSum(g, led.counted, p, |f|)
    {
      RefsSame(f, g, led.counted, p, |f|);
    }
  }

  lemma ClosedIsCovered(f: State, p: nat)
    requires WellFormed(f) && p < |f| && f[p].done
    ensures Covered(f, p)
  {
  }

  /** A granted reservation keeps the books when the amount is affordable. */
  lemma {:induction false} GrantKeepsBooks(f: State, led: Ledger, i: nat, r: Request)
    requires Consistent(f, led) && i < |f|
    requires Answer(f, i, r).None? && Affordable(f, led, i, r.Amount())
    ensures Consistent(Step(f, Reserve(i, r)), Record(f, led, Reserve(i, r)))
  {
    hide Try, Charge, Sound, Balanced, RefSum, Covered, Undone, Answer, PartOf;
    var a := r.Amount();
    var g := Step(f, Reserve(i, r));
    GrantPassesAll(f, i, r);
    forall x | x in Up(f, i)
      ensures Charge(f[x].rc, a) == f[x].rc.Plus(a)
    {
      SoundIsNonNegative(f[x].limit, f[x].rc);
      ChargeIsPlus(f[x].limit, f[x].rc, a);
    }
    UpIsPath(f, g, i);
    PathKeepsBooks(f, g, led, Record(f, led, Reserve(i, r)), i, Up(f, i), a);
  }

  /** A scope's own holding is covered by every scope its release reaches: no counter is reset. */
  lemma {:induction false} ReachAffords(f: State, led: Ledger, i: nat, a: Usage)
    requires Consistent(f, led) && i < |f| && !f[i].done
    requires a.NonNegative() && a.AtMost(led.held[i])
    ensures Returnable(f, led, i, a)
    ensures forall x :: x in Reach(f, i) ==> x < |f| && a.AtMost(f[x].rc)
  {
    hide Sound, Balanced, RefSum, Covered;
    HeldIsCovered(f, led, i);
    ReachCovers(f, led, i);
    forall x | x in Reach(f, i)
      ensures a.AtMost(f[x].rc) && Sound(f[x].limit, f[x].rc.Minus(a))
    {
      LessIsSound(f[x].limit, f[x].rc, a);
    }
  }

  lemma MinusIsPlus(u: Usage, a: Usage)
    ensures u.Minus(a) == u.Plus(NOTHING.Minus(a))
  {
  }

  /** From sound counters, a release that ends within the limits is a plain subtraction. */
  lemma ReleaseIsMinus(limit: Limit, u: Counters, r: Request)
    requires Sound(limit, u) && Sound(limit, u.Minus(r.Refund()))
    ensures Released(u, r) == u.Minus(r.Refund())
  {
    hide Released, Discharge, Sound;
    SoundIsNonNegative(limit, u);
    ReleaseDischarges(u, r);
    DischargeIsMinus(limit, u, r.Refund());
  }

  /** A release keeps the books when the amount is returnable. */
  lemma {:induction false} ReleaseKeepsBooks(f: State, led: Ledger, i: nat, r: Request)
    requires Consistent(f, led) && i < |f| && !f[i].done
    requires Returnable(f, led, i, r.Refund())
    ensures Consistent(ReleaseFrom(f, Reach(f, i), r), led.(held := led.held[i := led.held[i].Minus(r.Refund())]))
  {
    hide Released, Sound, Balanced, RefSum, Covered;
    var a := r.Refund();
    var g := ReleaseFrom(f, Reach(f, i), r);
    ReachIsPath(f, g, i);
    ReachCovers(f, led, i);
    var d := NOTHING.Minus(a);
    forall j | j in Reach(f, i)
      ensures g[j].rc == f[j].rc.Plus(d) && Sound(f[j].limit, g[j].rc)
    {
      ReleaseIsMinus(f[j].limit, f[j].rc, r);
      MinusIsPlus(f[j].rc, a);
    }
    MinusIsPlus(led.held[i], a);
    assert led.held[i].Minus(a).NonNegative();
    hide Usage.Plus, Usage.Minus, Usage.NonNegative;
    PathKeepsBooks(f, g, led, led.(held := led.held[i := led.held[i].Minus(a)]), i, Reach(f, i), d);
  }

  lemma {:induction false} HeldIsCovered(f: State, led: Ledger, i: nat)
    requires Consistent(f, led) && i < |f| && !f[i].done
    ensures led.held[i].NonNegative() && led.held[i].AtMost(f[i].rc)
    ensures f[i].rc.AtMost(led.held[i]) <==> ChildSum(f, i, |f|) == NOTHING
  {
    assert forall x :: 0 <= x < |f| ==> f[x].rc.NonNegative();
    SumCovers(f, i, 0, |f|);
    assert Balanced(f, led.held, i) && Covered(f, i);
  }

  lemma {:induction false} RefsAfterClose(f: State, g: State, counted: seq<bool>, i: nat, p: nat, k: nat)
    requires WellFormed(f) && SameShape(f, g) && k <= |f| == |counted| && i < |f|
    requires !f[i].done && g[i].done
    requires forall j :: 0 <= j < |f| && j != i ==> f[j].done == g[j].done
    ensures WellFormed(g)
    ensures RefSum(g, counted, p, k) == RefSum(f, counted, p, k) - if i < k && IsChild(f, i, p) then 1 else 0
  {
    if k > 0 {
      RefsAfterClose(f, g, counted, i, p, k - 1);
    }
  }

  lemma SoundIsNonNegative(limit: Limit, u: Usage)
    requires Sound(limit, u)
    ensures u.NonNegative()
  {
  }

  lemma ClosedIsSound(n: Node)
    requires Sound(n.limit, n.rc)
    ensures Sound(n.limit, Closed(n).rc)
  {
  }

  lemma {:induction false} CloseAt(f: State, i: nat, x: nat)
    requires WellFormed(f) && i < |f| && !f[i].done && x < |f|
    ensures var g := Close(f, i);
            && g[x].limit == f[x].limit && g[x].link == f[x].link && g[x].done == (f[x].done || x == i)
            && g[x].refCnt == (if IsChild(f, i, x) then f[x].refCnt - 1 else f[x].refCnt)
            && g[x].rc == if x == i then Closed(f[i]).rc
                          else if x in Reach(f, i) then Released(f[x].rc, Bulk(f[i].rc)) else f[x].rc
  {
    hide Released, Reach;
  }

  /** What closing scope `i` does to each scope: nothing is reset on the way. */
  lemma {:induction false} CloseEffect(f: State, led: Ledger, i: nat, x: nat)
    requires Consistent(f, led) && i < |f| && !f[i].done && x < |f|
    ensures var g := Close(f, i);
            && g[x].limit == f[x].limit && g[x].link == f[x].link && g[x].done == (f[x].done || x == i)
            && Sound(g[x].limit, g[x].rc)
            && g[x].refCnt == (if IsChild(f, i, x) then f[x].refCnt - 1 else f[x].refCnt)
            && (x != i ==> g[x].rc == if x in Reach(f, i) then f[x].rc.Minus(f[i].rc) else f[x].rc)
  {
    hide Close, Released, Sound, Reach, Balanced, RefSum, Covered;
    CloseAt(f, i, x);
    ReachCovers(f, led, i);
    if x == i {
      ClosedIsSound(f[i]);
    } else if x in Reach(f, i) {
      SoundIsNonNegative(f[i].limit, f[i].rc);
      LessIsSound(f[x].limit, f[x].rc, f[i].rc);
      ReleaseIsMinus(f[x].limit, f[x].rc, Bulk(f[i].rc));
    }
  }

  lemma {:induction false} CloseKeepsBooks(f: State, led: Ledger, i: nat)
    requires Consistent(f, led) && i < |f| && !f[i].done
    ensures Consistent(Close(f, i), led)
  {
    hide Sound, Released, Close, Covered;
    var g := Close(f, i);
    forall x | 0 <= x < |f|
      ensures && |g| == |f| && g[x].limit == f[x].limit && g[x].link == f[x].link && g[x].done == (f[x].done || x == i)
              && Sound(g[x].limit, g[x].rc)
              && g[x].refCnt == (if IsChild(f, i, x) then f[x].refCnt - 1 else f[x].refCnt)
              && (x != i ==> g[x].rc == if x in Reach(f, i) then f[x].rc.Minus(f[i].rc) else f[x].rc)
    {
      CloseEffect(f, led, i, x);
    }
    ReachIsPath(f, g, i);
    ReachCovers(f, led, i);
    var d := NOTHING.Minus(f[i].rc);
    forall x | 0 <= x < |f|
      ensures Share(g[x]) == if x in Reach(f, i) then Share(f[x]).Plus(d) else Share(f[x])
    {
      if x in Reach(f, i) {
        MinusIsPlus(f[x].rc, f[i].rc);
      }
    }
    forall p | 0 <= p < |f|
      ensures Balanced(g, led.held, p) && Covered(g, p)
    {
      if g[p].done {
        ClosedIsCovered(g, p);
      } else {
        PathShift(f, g, i, Reach(f, i), d, p);
        assert Balanced(f, led.held, p);
        CoveredMeansHeld(f, led.held, p);
        CoveredMeansHeld(g, led.held, p);
      }
    }
    forall p | 0 <= p < |f|
      ensures g[p].refCnt == RefSum(g, led.counted, p, |f|)
    {
      RefsAfterClose(f, g, led.counted, i, p, |f|);
    }
  }

  lemma {:induction false} SumOfPrefix(f: State, g: State, p: nat, k: nat)
    requires WellFormed(f) && WellFormed(g) && k <= |f| <= |g|
    requires forall j :: 0 <= j < |f| ==> f[j].link == g[j].link && Share(f[j]) == Share(g[j])
    ensures ChildSum(g, p, k) == ChildSum(f, p, k)
    ensures p >= |f| ==> ChildSum(f, p, k) == NOTHING
  {
    hide Share;
    if k > 0 {
      SumOfPrefix(f, g, p, k - 1);
    }
  }

  lemma {:induction false} RefsOfPrefix(f: State, g: State, counted: seq<bool>, counted': seq<bool>, p: nat, k: nat)
    requires WellFormed(f) && WellFormed(g) && k <= |f| == |counted| && |f| <= |g| == |counted'|
    requires forall j :: 0 <= j < |f| ==> f[j].link == g[j].link && f[j].done == g[j].done
    requires forall j :: 0 <= j < |f| ==> counted[j] == counted'[j]
    ensures RefSum(g, counted', p, k) == RefSum(f, counted, p, k)
    ensures p >= |f| ==> RefSum(f, counted, p, k) == 0
  {
    if k > 0 {
      RefsOfPrefix(f, g, counted, counted', p, k - 1);
    }
  }

  /** `g` is `f` with a fresh scope at the end, and at most references and span ids changed elsewhere. */
  predicate Extends(f: State, g: State) {
    && WellFormed(f) && WellFormed(g) && |g| == |f| + 1
    && !g[|f|].done && g[|f|].refCnt == 0 && g[|f|].rc == NOTHING
    && forall j :: 0 <= j < |f| ==> g[j].limit == f[j].limit && g[j].link == f[j].link && g[j].done == f[j].done && g[j].rc == f[j].rc
  }

  lemma PlusNothing(u: Usage)
    ensures u.Plus(NOTHING) == u
  {
    match u
    case Usage(_, _, _, _, _, _, _) =>
  }

  lemma {:induction false} ExtensionSum(f: State, g: State, q: nat)
    requires Extends(f, g)
    ensures ChildSum(g, q, |g|) == if q < |f| then ChildSum(f, q, |f|) else NOTHING
  {
    hide Usage.Plus;
    SumOfPrefix(f, g, q, |f|);
    PlusNothing(ChildSum(g, q, |f|));
  }

  lemma {:induction false} ExtensionBalances(f: State, g: State, held: seq<Usage>, held': seq<Usage>, q: nat)
    requires Extends(f, g) && q < |g| == |held'| == |held| + 1
    requires q < |f| ==> Balanced(f, held, q) && held'[q] == held[q]
    requires q == |f| ==> held'[q] == NOTHING
    ensures Balanced(g, held', q)
  {
    hide ChildSum, Usage.Plus;
    ExtensionSum(f, g, q);
    PlusNothing(NOTHING);
  }

  lemma {:induction false} ExtensionCounts(f: State, g: State, led: Ledger, counted': seq<bool>, q: nat)
    requires Consistent(f, led) && Extends(f, g) && q < |g| == |counted'|
    requires forall j :: 0 <= j < |f| ==> counted'[j] == led.counted[j]
    requires q < |f| ==> g[q].refCnt == f[q].refCnt + if IsChild(g, |f|, q) && counted'[|f|] then 1 else 0
    ensures g[q].refCnt == RefSum(g, counted', q, |g|)
  {
    hide Sound, Balanced;
    RefsOfPrefix(f, g, led.counted, counted', q, |f|);
  }

  lemma FreshIsSound(limit: Limit)
    ensures Sound(limit, NOTHING)
  {
  }

  /** Opening a scope under `p`, with or without raising a reference at `p`, keeps the books. */
  lemma {:induction false} ExtensionKeepsBooks(f: State, led: Ledger, g: State, p: nat, counts: bool)
    requires Consistent(f, led) && Extends(f, g) && p < |f|
    requires IsChild(g, |f|, p)
    requires forall q :: 0 <= q < |f| ==> g[q].refCnt == f[q].refCnt + if q == p && counts then 1 else 0
    ensures Consistent(g, Ledger(led.held + [NOTHING], led.counted + [counts]))
  {
    hide Sound, Balanced, RefSum, Covered;
    FreshIsSound(g[|f|].limit);
    var held, counted := led.held + [NOTHING], led.counted + [counts];
    forall q | 0 <= q < |g|
      ensures Balanced(g, held, q) && Covered(g, q)
    {
      ExtensionBalances(f, g, led.held, held, q);
      if g[q].done {
        ClosedIsCovered(g, q);
      } else {
        CoveredMeansHeld(g, held, q);
        if q < |f| {
          CoveredMeansHeld(f, led.held, q);
        }
      }
    }
    forall q | 0 <= q < |g|
      ensures g[q].refCnt == RefSum(g, counted, q, |g|)
    {
      ExtensionCounts(f, g, led, counted, q);
    }
  }

  lemma {:induction false} OpeningKeepsBooks(f: State, led: Ledger, op: Op)
    requires Consistent(f, led) && Callable(f, op)
    requires op.OpenService? || (op.BeginSpan? && !f[op.at].done)
    ensures Consistent(Step(f, op), Record(f, led, op))
  {
    hide Sound, Balanced, RefSum, Covered;
    var g := Step(f, op);
    assert Extends(f, g);
    ExtensionKeepsBooks(f, led, g, if op.OpenService? then 0 else op.at, op.BeginSpan? || op.own.Some?);
  }

  /** After a refusal a scope has its counters back exactly when it is restorable. */
  lemma {:induction false} RefusedAt(f: State, led: Ledger, i: nat, x: nat, r: Request)
    requires Consistent(f, led) && i < |f| && x < |f| && Answer(f, i, r).Some?
    ensures Step(f, Reserve(i, r))[x] == f[x] <==> Restorable(f, i, x, r)
  {
    hide Undone, Try, Sound, Balanced, RefSum, Covered, Undoable, Recoverable, PartOf, Answer;
    SoundIsNonNegative(f[x].limit, f[x].rc);
    match PartOf(f, i, x, r)
    case Granting => UndoneExactly(f[x].rc, r);
    case Refusing =>
      PartIsUp(f, i, x, r);
      RefusalRestores(f[x].limit, f[x].rc, r);
    case Outside =>
  }

  /** All or nothing: a refused reservation leaves every scope as it was exactly when every scope that took
      part is restorable. */
  lemma {:induction false} AllOrNothing(f: State, led: Ledger, i: nat, r: Request)
    requires Consistent(f, led) && i < |f| && Answer(f, i, r).Some?
    ensures Step(f, Reserve(i, r)) == f <==> forall x :: 0 <= x < |f| ==> Restorable(f, i, x, r)
  {
    assert WellFormed(f);
    hide Consistent, Answer, Restorable, ReserveAt;
    var g := Step(f, Reserve(i, r));
    forall x | 0 <= x < |f|
      ensures g[x] == f[x] <==> Restorable(f, i, x, r)
    {
      RefusedAt(f, led, i, x, r);
    }
    if forall x :: 0 <= x < |f| ==> g[x] == f[x] {
      assert g == f;
    }
  }

  lemma {:induction false} ReservingKeepsBooks(f: State, led: Ledger, i: nat, r: Request)
    requires Consistent(f, led) && i < |f| && Disciplined(f, led, Reserve(i, r))
    ensures Consistent(Step(f, Reserve(i, r)), Record(f, led, Reserve(i, r)))
  {
    assert WellFormed(f) && |led.held| == |led.counted| == |f|;
    hide Consistent, Answer, Admitted, Affordable, Restorable, ReserveAt;
    GrantedExactly(f, led, i, r);
    if Answer(f, i, r).None? {
      GrantKeepsBooks(f, led, i, r);
    } else {
      AllOrNothing(f, led, i, r);
    }
  }

  lemma {:induction false} ReleasingKeepsBooks(f: State, led: Ledger, op: Op)
    requires Consistent(f, led) && Callable(f, op) && Disciplined(f, led, op)
    requires op.Release? || op.ReleaseAll?
    ensures Consistent(Step(f, op), Record(f, led, op))
  {
    hide Balanced, RefSum, Released, Covered, Sound, ChildSum, Returnable;
    var i := op.at;
    var r := if op.Release? then op.r else Bulk(f[i].rc);
    if f[i].done {
      assert ReleaseFrom(f, {}, r) == f;
    } else {
      if op.ReleaseAll? {
        HeldIsCovered(f, led, i);
        SoundIsNonNegative(f[i].limit, f[i].rc);
        ReachAffords(f, led, i, f[i].rc);
      }
      ReleaseKeepsBooks(f, led, i, r);
    }
  }

  /** Every disciplined call keeps the books consistent. */
  lemma {:induction false} StepKeepsBooks(f: State, led: Ledger, op: Op)
    requires Consistent(f, led) && Callable(f, op) && Disciplined(f, led, op)
    ensures Consistent(Step(f, op), Record(f, led, op))
  {
    hide Consistent, Disciplined;
    match op
    case OpenService(_) => OpeningKeepsBooks(f, led, op);
    case BeginSpan(i) =>
      if !f[i].done {
        OpeningKeepsBooks(f, led, op);
      }
    case Reserve(i, r) => ReservingKeepsBooks(f, led, i, r);
    case Release(_, _) => ReleasingKeepsBooks(f, led, op);
    case ReleaseAll(_) => ReleasingKeepsBooks(f, led, op);
    case Done(i) =>
      if !f[i].done {
        CloseKeepsBooks(f, led, i);
      }
  }

  // ----- every undisciplined step breaks them -----

  /** A grant that is not affordable leaves a counter outside its limits, or the scope with less than its
      open children count. */
  lemma {:induction false} GrantBreaksBooks(f: State, led: Ledger, i: nat, r: Request)
    requires Consistent(f, led) && i < |f|
    requires Answer(f, i, r).None? && !Affordable(f, led, i, r.Amount())
    ensures var g := Step(f, Reserve(i, r));
            (exists x :: x in Up(f, i) && x < |g| && !Sound(g[x].limit, g[x].rc)) || !Covered(g, i)
    ensures !Consistent(Step(f, Reserve(i, r)), Record(f, led, Reserve(i, r)))
  {
    hide Try, Charge, Sound, Balanced, RefSum, Covered, Undone, Answer, PartOf, Up;
    var g, a := Step(f, Reserve(i, r)), r.Amount();
    GrantPassesAll(f, i, r);
    assert i in Up(f, i);
    if forall x :: x in Up(f, i) ==> Sound(g[x].limit, g[x].rc) {
      forall x | x in Up(f, i)
        ensures Sound(f[x].limit, f[x].rc.Plus(a)) && g[x].rc == f[x].rc.Plus(a)
      {
        assert Sound(g[x].limit, g[x].rc);
        SoundIsNonNegative(f[x].limit, f[x].rc);
        ChargeIsPlus(f[x].limit, f[x].rc, a);
      }
      var held := led.held[i := led.held[i].Plus(a)];
      UpIsPath(f, g, i);
      PathKeepsBalance(f, g, led.held, held, i, Up(f, i), a);
      CoveredMeansHeld(g, held, i);
    }
  }

  /** The lowest scope on the way up that changed. */
  lemma {:induction false} LowestChange(f: State, g: State, i: nat, x: nat) returns (p: nat)
    requires WellFormed(f) && |f| == |g| && i < |f| && x < |f|
    requires x in Up(f, i) && g[x] != f[x]
    ensures p < |f| && p in Up(f, i) && g[p] != f[p]
    ensures forall y :: y in Up(f, i) && p < y < |f| ==> g[y] == f[y]
  {
    if g[i] != f[i] {
      p := i;
      UpIsBelow(f, i);
    } else {
      p := LowestChange(f, g, Parent(f, i), x);
    }
  }

  /** A scope whose counters changed while its children's did not is out of balance. */
  lemma {:induction false} ChangeBreaksBalance(f: State, g: State, held: seq<Usage>, p: nat)
    requires WellFormed(f) && SameShape(f, g) && p < |f| == |held| && Balanced(f, held, p)
    requires !f[p].done && !g[p].done && g[p].rc != f[p].rc
    requires forall y :: 0 < y < |f| && Parent(f, y) == p ==> g[y] == f[y]
    ensures WellFormed(g) && !Balanced(g, held, p)
  {
    SumSame(f, g, p, |f|);
    hide ChildSum;
  }

  /** A refusal after which some scope cannot be given back its counters leaves the lowest scope that changed
      out of balance. */
  lemma {:induction false} RefusalBreaksBooks(f: State, led: Ledger, i: nat, r: Request, x: nat) returns (p: nat)
    requires Consistent(f, led) && i < |f| && x < |f|
    requires Answer(f, i, r).Some? && !Restorable(f, i, x, r)
    ensures var g := Step(f, Reserve(i, r));
            && p < |f| && p in Up(f, i) && g[p] != f[p] && (forall y :: y in Up(f, i) && p < y < |f| ==> g[y] == f[y])
            && !Balanced(g, led.held, p)
    ensures !Consistent(Step(f, Reserve(i, r)), Record(f, led, Reserve(i, r)))
  {
    hide Settled, Sound, RefSum, Covered, Restorable, PartOf, Answer, Balanced, ChildSum, Refusal;
    var g := Step(f, Reserve(i, r));
    RefusedAt(f, led, i, x, r);
    forall y | 0 <= y < |f| && g[y] != f[y]
      ensures y in Up(f, i) && !f[y].done
    {
      assert Settled(f[y].limit, f[y].rc, r, Outside, false) == f[y].rc by { OutsideIsSame(f[y], r); }
      PartIsUp(f, i, y, r);
    }
    p := LowestChange(f, g, i, x);
    forall y | 0 < y < |f| && Parent(f, y) == p
      ensures g[y] == f[y]
    {
      assert p < y;
    }
    ChangeBreaksBalance(f, g, led.held, p);
  }

  lemma OutsideIsSame(n: Node, r: Request)
    ensures Settled(n.limit, n.rc, r, Outside, false) == n.rc
  {
  }

  /** A release of more than the scope's own holding is seen in the scope itself: a counter is reset, or it
      falls below what the open children count. */
  lemma {:induction false} OverReleaseShows(f: State, led: Ledger, i: nat, r: Request)
    requires Consistent(f, led) && i < |f| && !f[i].done
    requires r.Refund().NonNegative() && !r.Refund().AtMost(led.held[i])
    ensures var after := Released(f[i].rc, r);
            after != f[i].rc.Minus(r.Refund()) || !ChildSum(f, i, |f|).AtMost(after)
  {
    hide Released, Sound, RefSum, ChildSum;
    assert Balanced(f, led.held, i);
  }

  lemma {:induction false} SameReach(f: State, g: State, i: nat)
    requires WellFormed(f) && SameShape(f, g) && i < |f|
    requires forall j :: 0 <= j < |f| ==> f[j].done == g[j].done
    ensures WellFormed(g) && Reach(g, i) == Reach(f, i)
  {
    if i != 0 {
      SameReach(f, g, Parent(f, i));
    }
  }

  /** A scope that stays sound and keeps counting the rest of a holding was not reset. */
  lemma NotReset(limit: Limit, u: Counters, r: Request, held: Usage)
    requires Sound(limit, u) && Sound(limit, Released(u, r))
    requires held.NonNegative() && held.AtMost(u)
    requires r.Refund().AtMost(held) && held.Minus(r.Refund()).AtMost(Released(u, r))
    ensures Sound(limit, u.Minus(r.Refund()))
  {
    hide Released, Discharge, Sound;
    SoundIsNonNegative(limit, u);
    ReleaseDischarges(u, r);
    NothingReset(u, r.Refund(), held);
  }

  lemma AtMostTransitive(a: Usage, b: Usage, c: Usage)
    requires a.AtMost(b) && b.AtMost(c)
    ensures a.AtMost(c)
  {
  }

  /** If the books are consistent after a release, the amount was returnable. */
  lemma {:induction false} KeptMeansReturnable(f: State, led: Ledger, i: nat, r: Request)
    requires Consistent(f, led) && i < |f| && !f[i].done
    requires Consistent(ReleaseFrom(f, Reach(f, i), r), led.(held := led.held[i := led.held[i].Minus(r.Refund())]))
    ensures Returnable(f, led, i, r.Refund())
  {
    hide Released, Sound, Balanced, RefSum, Covered, Reach;
    var g, a := ReleaseFrom(f, Reach(f, i), r), r.Refund();
    var led' := led.(held := led.held[i := led.held[i].Minus(a)]);
    HeldIsCovered(f, led, i);
    HeldIsCovered(g, led', i);
    ReachCovers(f, led, i);
    SameReach(f, g, i);
    ReachCovers(g, led', i);
    assert a.AtMost(led.held[i]);
    hide Usage.AtMost, Usage.Minus, Usage.NonNegative, Request.Refund;
    forall x | x in Reach(f, i)
      ensures Sound(f[x].limit, f[x].rc.Minus(a))
    {
      AtMostTransitive(led.held[i], f[i].rc, f[x].rc);
      AtMostTransitive(led'.held[i], g[i].rc, g[x].rc);
      assert Sound(g[x].limit, g[x].rc);
      NotReset(f[x].limit, f[x].rc, r, led.held[i]);
    }
  }

  lemma {:induction false} ReleaseBreaksBooks(f: State, led: Ledger, i: nat, r: Request)
    requires Consistent(f, led) && i < |f| && !f[i].done && !Returnable(f, led, i, r.Refund())
    ensures !Consistent(Step(f, Release(i, r)), Record(f, led, Release(i, r)))
  {
    assert WellFormed(f) && |led.held| == |led.counted| == |f|;
    hide Consistent, Returnable, ReleaseFrom, Reach;
    if Consistent(Step(f, Release(i, r)), Record(f, led, Release(i, r))) {
      KeptMeansReturnable(f, led, i, r);
      assert false;
    }
  }

  lemma SameAsBulk(f: State, led: Ledger, i: nat)
    requires WellFormed(f) && |led.held| == |led.counted| == |f| && i < |f|
    ensures Step(f, ReleaseAll(i)) == Step(f, Release(i, Bulk(f[i].rc)))
    ensures Record(f, led, ReleaseAll(i)) == Record(f, led, Release(i, Bulk(f[i].rc)))
    ensures Bulk(f[i].rc).Refund() == f[i].rc
  {
    hide ReleaseFrom, Reach;
  }

  /** Releasing everything counted also gives back what open children hold. */
  lemma {:induction false} ReleaseAllBreaksBooks(f: State, led: Ledger, i: nat)
    requires Consistent(f, led) && i < |f| && !f[i].done && ChildSum(f, i, |f|) != NOTHING
    ensures !Consistent(Step(f, ReleaseAll(i)), Record(f, led, ReleaseAll(i)))
  {
    SameAsBulk(f, led, i);
    hide Consistent, Returnable, ChildSum, Step, Record, WellFormed, Usage.AtMost;
    HeldIsCovered(f, led, i);
    if Returnable(f, led, i, f[i].rc) {
      ReturnableIsHeld(f, led, i, f[i].rc);
      assert false;
    }
    ReleaseBreaksBooks(f, led, i, Bulk(f[i].rc));
  }

  lemma ReturnableIsHeld(f: State, led: Ledger, i: nat, a: Usage)
    requires WellFormed(f) && i < |f| == |led.held| && Returnable(f, led, i, a)
    ensures a.AtMost(led.held[i])
  {
  }

  /** The books stay consistent exactly under the discipline, which a caller can check beforehand. */
  lemma {:induction false} BooksKeptExactly(f: State, led: Ledger, op: Op)
    requires Consistent(f, led) && Callable(f, op)
    ensures Consistent(Step(f, op), Record(f, led, op)) <==> Disciplined(f, led, op)
  {
    if Disciplined(f, led, op) {
      StepKeepsBooks(f, led, op);
    } else {
      assert WellFormed(f) && |led.held| == |led.counted| == |f|;
      hide Consistent, Answer, Admitted, Affordable, Restorable, ReserveAt, ReleaseFrom, Returnable, ChildSum;
      match op
      case Reserve(i, r) =>
        GrantedExactly(f, led, i, r);
        if Answer(f, i, r).None? {
          GrantBreaksBooks(f, led, i, r);
        } else {
          var x :| 0 <= x < |f| && !Restorable(f, i, x, r);
          var _ := RefusalBreaksBooks(f, led, i, r, x);
        }
      case Release(i, r) => ReleaseBreaksBooks(f, led, i, r);
      case ReleaseAll(i) => ReleaseAllBreaksBooks(f, led, i);
    }
  }

  // ----- the discipline, for counts -----

  /** For counts the discipline is short: a grant must not take the system's memory past its 64 bits, and
      tasks of unknown priority must not be refused above the scope they are asked of. */
  lemma {:induction false} DisciplineOfCounts(f: State, led: Ledger, i: nat, r: Request)
    requires Consistent(f, led) && i < |f| && r.Countable()
    ensures Disciplined(f, led, Reserve(i, r)) <==>
            if Admitted(f, i, r) then f[0].rc.memory + r.Amount().memory <= MAX_I64
            else r.Leaks() && Admits(f[i], r) ==> r.num == 0
  {
    assert WellFormed(f) && |led.held| == |led.counted| == |f|;
    hide Consistent, Admitted, Affordable, Restorable, Admits;
    if Admitted(f, i, r) {
      AffordableCounts(f, led, i, r);
    } else {
      forall x | 0 <= x < |f|
        ensures Restorable(f, i, x, r) <==> (PartOf(f, i, x, r) == Granting && r.Leaks() ==> r.num == 0)
      {
        RestorableCounts(f, led, i, x, r);
      }
      GrantsAt(f, led, i, r);
    }
  }

  /** For counts a refused reservation leaves every scope as it was, unless tasks of unknown priority were
      admitted by the scope they were asked of. */
  lemma {:induction false} AllOrNothingOfCounts(f: State, led: Ledger, i: nat, r: Request)
    requires Consistent(f, led) && i < |f| && r.Countable() && Answer(f, i, r).Some?
    ensures Step(f, Reserve(i, r)) == f <==> (r.Leaks() && Admits(f[i], r) ==> r.num == 0)
  {
    assert WellFormed(f);
    hide Consistent, Restorable, Admits, PartOf, Answer, Step;
    AllOrNothing(f, led, i, r);
    forall x | 0 <= x < |f|
      ensures Restorable(f, i, x, r) <==> (PartOf(f, i, x, r) == Granting && r.Leaks() ==> r.num == 0)
    {
      RestorableCounts(f, led, i, x, r);
    }
    GrantsAt(f, led, i, r);
  }

  lemma {:induction false} GrantsAt(f: State, led: Ledger, i: nat, r: Request)
    requires Consistent(f, led) && i < |f| && r.Countable()
    ensures PartOf(f, i, i, r) == Granting <==> Admits(f[i], r)
    ensures PartOf(f, i, i, r) != Granting ==> forall x :: PartOf(f, i, x, r) != Granting
  {
    hide Try, Fits, Balanced, RefSum, Covered, Sound;
    CheckMeansFits(f[i].limit, f[i].rc, r);
  }

  lemma {:induction false} RestorableCounts(f: State, led: Ledger, i: nat, x: nat, r: Request)
    requires Consistent(f, led) && i < |f| && x < |f| && r.Countable()
    ensures Restorable(f, i, x, r) <==> (PartOf(f, i, x, r) == Granting && r.Leaks() ==> r.num == 0)
  {
    hide Try, Undoable, Recoverable, PartOf, Balanced, RefSum, Covered, Sound;
    if PartOf(f, i, x, r) != Outside {
      PartIsUp(f, i, x, r);
      CountsAreUndone(f[x].limit, f[x].rc, r);
    }
  }

  lemma {:induction false} AffordableCounts(f: State, led: Ledger, i: nat, r: Request)
    requires Consistent(f, led) && i < |f| && r.Countable() && Admitted(f, i, r)
    ensures Affordable(f, led, i, r.Amount()) <==> f[0].rc.memory + r.Amount().memory <= MAX_I64
  {
    hide Try, Sound, Balanced, RefSum, Covered, Admitted, Answer, Up;
    var a := r.Amount();
    GrantedExactly(f, led, i, r);
    GrantPassesAll(f, i, r);
    UpIsBelow(f, i);
    if f[0].rc.memory + a.memory <= MAX_I64 {
      SystemCovers(f, led, i);
      assert i in Up(f, i);
      forall x | x in Up(f, i)
        ensures Sound(f[x].limit, f[x].rc.Plus(a)) && a.NonNegative()
      {
        ChargeKeepsSound(f[x].limit, f[x].rc, r);
      }
      HeldIsCovered(f, led, i);
    } else {
      SoundIsSmall(f[0].limit, f[0].rc.Plus(a));
    }
  }

  lemma SoundIsSmall(limit: Limit, u: Usage)
    ensures Sound(limit, u) ==> u.memory <= MAX_I64
  {
  }

  // ----- whole runs -----

  predicate CallableRun(f: State, ops: seq<Op>)
    requires WellFormed(f)
    decreases |ops|
  {
    ops == [] || (Callable(f, ops[0]) && CallableRun(Step(f, ops[0]), ops[1..]))
  }

  /** The scopes and the books after any run of calls. */
  function Run(f: State, led: Ledger, ops: seq<Op>): (end: (State, Ledger))
    requires WellFormed(f) && |led.held| == |led.counted| == |f| && CallableRun(f, ops)
    decreases |ops|
  {
    if ops == [] then (f, led) else Run(Step(f, ops[0]), Record(f, led, ops[0]), ops[1..])
  }

  /** Every call of the run is disciplined at the moment it is made. */
  predicate DisciplinedRun(f: State, led: Ledger, ops: seq<Op>)
    requires WellFormed(f) && |led.held| == |led.counted| == |f| && CallableRun(f, ops)
    decreases |ops|
  {
    ops == [] ||
    (Disciplined(f, led, ops[0]) && DisciplinedRun(Step(f, ops[0]), Record(f, led, ops[0]), ops[1..]))
  }

  /** A new resource manager: only the system scope. */
  function Start(system: Limit): (f: State)
    ensures WellFormed(f)
  {
    [Fresh(system, Root)]
  }

  const NEW_LEDGER := Ledger([NOTHING], [true])

  lemma StartIsConsistent(system: Limit)
    ensures Consistent(Start(system), NEW_LEDGER)
  {
    hide Sound, Usage.Plus;
    FreshIsSound(system);
    PlusNothing(NOTHING);
    forall p | 0 <= p < 1
      ensures Balanced(Start(system), NEW_LEDGER.held, p) && Covered(Start(system), p)
    {
      assert ChildSum(Start(system), 0, 1) == NOTHING;
    }
    assert RefSum(Start(system), NEW_LEDGER.counted, 0, 1) == 0;
  }

  /** Conservation, limits and reference counts after every disciplined run. Each prefix of a
      disciplined run is one, so they hold in every state such a run passes through. */
  lemma {:induction false} RunsKeepBooks(f: State, led: Ledger, ops: seq<Op>)
    requires Consistent(f, led) && CallableRun(f, ops) && DisciplinedRun(f, led, ops)
    ensures Consistent(Run(f, led, ops).0, Run(f, led, ops).1)
    decreases |ops|
  {
    if ops != [] {
      StepKeepsBooks(f, led, ops[0]);
      RunsKeepBooks(Step(f, ops[0]), Record(f, led, ops[0]), ops[1..]);
    }
  }

  /** The scopes and the books after the first `k` calls of a run. */
  function Reached(f: State, led: Ledger, ops: seq<Op>, k: nat): (State, Ledger)
    requires WellFormed(f) && |led.held| == |led.counted| == |f| && CallableRun(f, ops) && k <= |ops|
    decreases k
  {
    if k == 0 then (f, led) else Reached(Step(f, ops[0]), Record(f, led, ops[0]), ops[1..], k - 1)
  }

  predicate KeptAt(f: State, led: Ledger, ops: seq<Op>, k: nat)
    requires WellFormed(f) && |led.held| == |led.counted| == |f| && CallableRun(f, ops) && k <= |ops|
  {
    Consistent(Reached(f, led, ops, k).0, Reached(f, led, ops, k).1)
  }

  /** The books are consistent in every state the run passes through. */
  predicate KeptThroughout(f: State, led: Ledger, ops: seq<Op>)
    requires WellFormed(f) && |led.held| == |led.counted| == |f| && CallableRun(f, ops)
  {
    forall k :: 0 <= k <= |ops| ==> KeptAt(f, led, ops, k)
  }

  lemma KeptLater(f: State, led: Ledger, ops: seq<Op>)
    requires WellFormed(f) && |led.held| == |led.counted| == |f| && CallableRun(f, ops) && ops != []
    ensures KeptThroughout(f, led, ops) <==>
            Consistent(f, led) && KeptThroughout(Step(f, ops[0]), Record(f, led, ops[0]), ops[1..])
  {
    hide Consistent, Step, Record, Callable;
    var g, led', rest := Step(f, ops[0]), Record(f, led, ops[0]), ops[1..];
    assert CallableRun(g, rest);
    assert KeptAt(f, led, ops, 0) <==> Consistent(f, led);
    forall k | 0 <= k <= |rest|
      ensures KeptAt(f, led, ops, k + 1) <==> KeptAt(g, led', rest, k)
    {
    }
    hide KeptAt;
    if Consistent(f, led) && KeptThroughout(g, led', rest) {
      forall k | 0 <= k <= |ops|
        ensures KeptAt(f, led, ops, k)
      {
        if k > 0 {
          assert KeptAt(g, led', rest, k - 1);
        }
      }
    }
  }

  /** The books are consistent throughout a run exactly when the run is disciplined. */
  lemma {:induction false} RunsKeptExactly(f: State, led: Ledger, ops: seq<Op>)
    requires Consistent(f, led) && CallableRun(f, ops)
    ensures KeptThroughout(f, led, ops) <==> DisciplinedRun(f, led, ops)
    decreases |ops|
  {
    assert WellFormed(f) && |led.held| == |led.counted| == |f|;
    hide Consistent, Disciplined, Step, Record, Callable;
    if ops == [] {
      assert KeptAt(f, led, ops, 0);
    } else {
      hide KeptThroughout;
      var g, led' := Step(f, ops[0]), Record(f, led, ops[0]);
      BooksKeptExactly(f, led, ops[0]);
      KeptLater(f, led, ops);
      if Consistent(g, led') {
        RunsKeptExactly(g, led', ops[1..]);
      } else {
        NotKept(g, led', ops[1..]);
      }
    }
  }

  lemma NotKept(f: State, led: Ledger, ops: seq<Op>)
    requires WellFormed(f) && |led.held| == |led.counted| == |f| && CallableRun(f, ops) && !Consistent(f, led)
    ensures !KeptThroughout(f, led, ops)
  {
    hide Consistent;
    assert !KeptAt(f, led, ops, 0);
  }
}
