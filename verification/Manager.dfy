/** The resource manager (base/gfsprcmgr/rcmgr.go) and the proof that its linked scopes step exactly
    as the forest of values does. */
module Manager {
  import opened Options
  import opened Resources
  import opened Scopes
  import Forest

  /** The calls a client can make on a scope. */
  datatype ScopeCall = BeginSpan | Reserve(r: Request) | Release(r: Request) | ReleaseAll | Done {
    function Op(i: nat): Forest.Op {
      match this
      case BeginSpan => Forest.BeginSpan(i)
      case Reserve(r) => Forest.Reserve(i, r)
      case Release(r) => Forest.Release(i, r)
      case ReleaseAll => Forest.ReleaseAll(i)
      case Done => Forest.Done(i)
    }
  }

  /** The value of one scope object. */
  ghost function NodeOf(s: Scope): Forest.Node
    reads s
  {
    var link := if s.owner != null then Forest.Span(s.owner.id)
                else if s.edges == [] then Forest.Root else Forest.Edge(s.edges[0].id);
    Forest.Node(s.limit, link, s.done, s.refCnt, s.spanID, s.rc)
  }

  ghost function Values(scopes: seq<Scope>): (f: Forest.State)
    reads scopes
    ensures |f| == |scopes| && forall i :: 0 <= i < |f| ==> f[i] == NodeOf(scopes[i])
  {
    seq(|scopes|, i requires 0 <= i < |scopes| reads scopes => NodeOf(scopes[i]))
  }

  /** Where scope number `i` hangs: the system on nothing, the others below an earlier scope. */
  ghost predicate PlacedIn(scopes: seq<Scope>, system: Scope, i: nat)
    requires i < |scopes|
  {
    var s := scopes[i];
    && s.id == i && s.Shaped()
    && if i == 0 then s == system && s.owner == null && s.edges == []
       else if s.owner != null then s.owner.id < i && scopes[s.owner.id] == s.owner
       else s.edges == [system]
  }

  lemma PlacesAfterAppend(before: seq<Scope>, after: seq<Scope>, system: Scope, s: Scope)
    requires after == before + [s] && 0 < |before|
    requires forall j :: 0 <= j < |before| ==> PlacedIn(before, system, j)
    requires s.id == |before| && s.Shaped()
    requires if s.owner != null then s.owner.id < |before| && before[s.owner.id] == s.owner else s.edges == [system]
    ensures forall j :: 0 <= j < |after| ==> PlacedIn(after, system, j)
  {
    forall j | 0 <= j < |after|
      ensures PlacedIn(after, system, j)
    {
      if j < |before| {
        assert PlacedIn(before, system, j);
      }
    }
  }

  class ResourceManager {
    const serviceLimits: map<string, Limit>
    const system: Scope
    var svc: map<string, Scope>
    ghost var scopes: seq<Scope>      // every scope ever opened, in order
    ghost var ledger: Forest.Ledger   // what each scope's client has booked

    constructor (systemLimit: Limit, serviceLimits: map<string, Limit>)
      ensures Accounted() && ledger == Forest.NEW_LEDGER
      ensures View() == Forest.Start(systemLimit)
      ensures this.serviceLimits == serviceLimits && svc == map[]
    {
      this.serviceLimits := serviceLimits;
      system := new Scope(systemLimit, null, [], 0);
      svc := map[];
      scopes := [system];
      ledger := Forest.NEW_LEDGER;
      new;
      Forest.StartIsConsistent(systemLimit);
      assert View() == Forest.Start(systemLimit);
    }

    ghost predicate Valid()
      reads this`scopes, this`svc, scopes
    {
      && 0 < |scopes|
      && (forall i :: 0 <= i < |scopes| ==> PlacedIn(scopes, system, i))
      && (forall name :: name in svc ==> svc[name] in scopes)
      && Forest.WellFormed(View())
    }

    /** The objects and the client's books agree: conservation, limits and references all hold. */
    ghost predicate Accounted()
      reads this, scopes
    {
      Valid() && |ledger.held| == |ledger.counted| == |scopes| && Forest.Consistent(View(), ledger)
    }

    /** The values of all the scope objects. */
    ghost function View(): (f: Forest.State)
      reads this`scopes, scopes
    {
      Values(scopes)
    }

    /** The objects a scope charges are the scopes on its way up. */
    lemma {:induction false} UpAgrees(i: nat)
      requires Valid() && i < |scopes|
      ensures PlacedIn(scopes, system, i)
      ensures forall x :: x in scopes[i].up <==> x in scopes && x.id in Forest.Up(View(), i)
      decreases i
    {
      assert PlacedIn(scopes, system, i) && PlacedIn(scopes, system, 0);
      var s := scopes[i];
      var f := View();
      if i != 0 {
        var p := Forest.Parent(f, i);
        UpAgrees(p);
        assert Forest.Up(f, i) == {i} + Forest.Up(f, p);
        if s.owner == null {
          assert Forest.Up(f, 0) == {0};
        }
      }
      forall x | x in scopes
        ensures x.id < |scopes| && scopes[x.id] == x
      {
        UniqueIds(x);
      }
    }

    lemma UniqueIds(x: Scope)
      requires Valid() && x in scopes
      ensures x.id < |scopes| && scopes[x.id] == x
    {
      var i :| 0 <= i < |scopes| && scopes[i] == x;
      assert PlacedIn(scopes, system, i);
    }

    /** The answer and the part of every scope in a reservation are those of the values. */
    lemma {:induction false} WalkAgrees(i: nat, r: Request)
      requires Valid() && i < |scopes|
      ensures PlacedIn(scopes, system, i)
      ensures scopes[i].Answer(r) == Forest.Answer(View(), i, r)
      ensures forall x :: x in scopes ==> scopes[i].PartOf(x, r) == Forest.PartOf(View(), i, x.id, r)
      decreases i
    {
      hide Try;
      assert PlacedIn(scopes, system, i) && PlacedIn(scopes, system, 0);
      var s := scopes[i];
      var f := View();
      forall x | x in scopes
        ensures x.id < |scopes| && scopes[x.id] == x
      {
        UniqueIds(x);
      }
      assert s.Refusal(r) == Forest.Refusal(f[i], r);
      hide Forest.Refusal;
      if i != 0 {
        if s.owner == null {
          SystemAgrees(s, r);
        } else {
          WalkAgrees(Forest.Parent(f, i), r);
        }
      }
    }

    /** A service passes a request on to the system alone. */
    lemma SystemAgrees(s: Scope, r: Request)
      requires Valid() && s.edges == [system]
      ensures EdgeAnswer(s.Asked(r), r) == Forest.Answer(View(), 0, r)
      ensures forall x :: x in scopes ==> EdgePart(s.Asked(r), x, r) == Forest.PartOf(View(), 0, x.id, r)
    {
      hide Try;
      assert PlacedIn(scopes, system, 0);
      assert s.Asked(r) == [system];
      assert system.Refusal(r) == Forest.Refusal(View()[0], r);
      assert EdgeAnswer([system][1..], r) == None;
      forall x | x in scopes
        ensures EdgePart([system], x, r) == Forest.PartOf(View(), 0, x.id, r)
      {
        UniqueIds(x);
        assert EdgePart([system][1..], x, r) == Outside;
      }
    }

    /** The scopes a release reaches are those of the values. */
    lemma {:induction false} ReachAgrees(i: nat)
      requires Valid() && i < |scopes|
      ensures PlacedIn(scopes, system, i)
      ensures forall x :: x in scopes ==> (x in scopes[i].Reach() <==> x.id in Forest.Reach(View(), i))
      decreases i
    {
      assert PlacedIn(scopes, system, i) && PlacedIn(scopes, system, 0);
      forall x | x in scopes
        ensures x.id < |scopes| && scopes[x.id] == x
      {
        UniqueIds(x);
      }
      if i != 0 {
        ReachAgrees(Forest.Parent(View(), i));
      }
    }

    // ----- the calls, on the objects -----

    lemma IdsInOrder()
      requires Valid()
      ensures forall j :: 0 <= j < |scopes| ==> scopes[j] in scopes && scopes[j].id == j
    {
      forall j | 0 <= j < |scopes|
        ensures scopes[j].id == j
      {
        assert PlacedIn(scopes, system, j);
      }
    }

    /** A reservation on a scope object is one step of the forest, answered in the same way. */
    method ReserveStep(s: Scope, r: Request) returns (err: Option<Error>)
      requires Valid() && s in scopes && s.id < |scopes|
      modifies scopes`rc
      ensures Valid()
      ensures err == old(Forest.Answer(View(), s.id, r))
      ensures View() == old(Forest.Step(View(), Forest.Reserve(s.id, r)))
    {
      hide Settled, Try, Forest.Step, Forest.Answer, Forest.PartOf, Forest.Up;
      ghost var i, f := s.id, View();
      UniqueIds(s);
      IdsInOrder();
      UpAgrees(i);
      WalkAgrees(i, r);
      ghost var parts := seq(|f|, j requires 0 <= j < |f| => Forest.PartOf(f, i, j, r));
      err := s.Reserve(r);
      forall j | 0 <= j < |scopes|
        ensures NodeOf(scopes[j]) == f[j].(rc := Settled(f[j].limit, f[j].rc, r, parts[j], err.None?))
      {
        assert f[j] == old(NodeOf(scopes[j]));
        if scopes[j] !in s.up {
          OutsideStays(f, i, j, r, err.None?);
        }
      }
      Forest.ReserveEffect(f, View(), i, r);
    }

    /** A scope that is not on the way up keeps its counters. */
    lemma OutsideStays(f: Forest.State, i: nat, x: nat, r: Request, granted: bool)
      requires Forest.WellFormed(f) && i < |f| && x < |f| && x !in Forest.Up(f, i)
      ensures Settled(f[x].limit, f[x].rc, r, Forest.PartOf(f, i, x, r), granted) == f[x].rc
    {
      if Forest.PartOf(f, i, x, r) != Outside {
        Forest.PartIsUp(f, i, x, r);
      }
    }

    /** A release on a scope object is one step of the forest. */
    method ReleaseStep(s: Scope, r: Request)
      requires Valid() && s in scopes && s.id < |scopes|
      modifies scopes`rc
      ensures Valid()
      ensures View() == old(Forest.Step(View(), Forest.Release(s.id, r)))
    {
      hide Released, Forest.Step, Forest.Reach, Forest.Up;
      ghost var i, f := s.id, View();
      UniqueIds(s);
      IdsInOrder();
      UpAgrees(i);
      ReachAgrees(i);
      Forest.ReachIsUp(f, i);
      ghost var reach := Forest.Reach(f, i);
      s.Release(r);
      forall j | 0 <= j < |scopes|
        ensures NodeOf(scopes[j]) == f[j].(rc := if j in reach then Released(f[j].rc, r) else f[j].rc)
      {
        assert f[j] == old(NodeOf(scopes[j]));
      }
      Forest.ReleaseEffect(f, View(), i, r);
    }

    method ReleaseAllStep(s: Scope)
      requires Valid() && s in scopes && s.id < |scopes|
      modifies scopes`rc
      ensures Valid()
      ensures View() == old(Forest.Step(View(), Forest.ReleaseAll(s.id)))
    {
      hide Released, Forest.Step, Forest.Reach, Forest.Up;
      ghost var i, f := s.id, View();
      UniqueIds(s);
      IdsInOrder();
      UpAgrees(i);
      ReachAgrees(i);
      Forest.ReachIsUp(f, i);
      ghost var reach, r := Forest.Reach(f, i), Bulk(s.rc);
      s.ReleaseAll();
      forall j | 0 <= j < |scopes|
        ensures NodeOf(scopes[j]) == f[j].(rc := if j in reach then Released(f[j].rc, r) else f[j].rc)
      {
        assert f[j] == old(NodeOf(scopes[j]));
      }
      Forest.ReleaseEffect(f, View(), i, r);
    }

    /** Closing a scope object is one step of the forest. */
    method DoneStep(s: Scope)
      requires Valid() && s in scopes && s.id < |scopes|
      modifies scopes`rc, scopes`refCnt, scopes`done
      ensures Valid()
      ensures View() == old(Forest.Step(View(), Forest.Done(s.id)))
    {
      hide Released, Forest.Step, Forest.Reach, Forest.Up;
      ghost var i, f := s.id, View();
      UniqueIds(s);
      UpAgrees(i);
      if s.done {
        Forest.DoneTwice(f, i);
        s.Done();
        assert View() == f;
      } else {
        CloseStep(s);
      }
    }

    method CloseStep(s: Scope)
      requires Valid() && s in scopes && s.id < |scopes| && !s.done
      modifies scopes`rc, scopes`refCnt, scopes`done
      ensures Valid()
      ensures View() == old(Forest.Step(View(), Forest.Done(s.id)))
    {
      hide Released, Forest.Step, Forest.Reach, Forest.Up;
      ghost var i, f := s.id, View();
      UniqueIds(s);
      IdsInOrder();
      UpAgrees(i);
      ReachAgrees(i);
      Forest.ReachIsUp(f, i);
      ParentAgrees(i);
      s.Done();
      forall j | 0 <= j < |scopes|
        ensures NodeOf(scopes[j]) == Forest.AfterClose(f, i, j)
      {
        assert f[j] == old(NodeOf(scopes[j]));
      }
      Forest.DoneEffect(f, View(), i);
    }

    /** A scope drops a reference exactly at the scope that is its parent. */
    lemma ParentAgrees(i: nat)
      requires Valid() && i < |scopes|
      ensures forall x :: x in scopes ==>
                (x == scopes[i].owner || x in scopes[i].edges <==> 0 < i && Forest.Parent(View(), i) == x.id)
      ensures forall x: Scope :: x == scopes[i].owner || x in scopes[i].edges ==> x in scopes[i].up
    {
      assert PlacedIn(scopes, system, i) && PlacedIn(scopes, system, 0);
      var s := scopes[i];
      assert s.owner != null ==> s.owner.Shaped() && s.owner in s.owner.up;
      forall x | x in scopes
        ensures x.id < |scopes| && scopes[x.id] == x
      {
        UniqueIds(x);
      }
    }

    // ----- opening scopes -----

    /** A span opened on a scope object is one step of the forest. */
    method BeginSpanStep(s: Scope) returns (span: Option<Scope>)
      requires Valid() && s in scopes && s.id < |scopes|
      modifies s`refCnt, s`spanID, this`scopes
      ensures Valid()
      ensures View() == old(Forest.Step(View(), Forest.BeginSpan(s.id)))
      ensures scopes == if span.Some? then old(scopes) + [span.value] else old(scopes)
      ensures span.None? <==> old(s.done)
    {
      hide Forest.Step;
      ghost var i, f, before := s.id, View(), scopes;
      UniqueIds(s);
      IdsInOrder();
      assert PlacedIn(scopes, system, i);
      span := s.BeginSpan(|scopes|);
      if span.Some? {
        scopes := scopes + [span.value];
        PlacesAfterAppend(before, scopes, system, span.value);
        forall j | 0 <= j < |f|
          ensures NodeOf(scopes[j]) ==
                  if j == i then f[i].(refCnt := f[i].refCnt + 1, spanID := f[i].spanID + 1) else f[j]
        {
          assert scopes[j] == before[j] && f[j] == old(NodeOf(before[j]));
        }
      }
      Forest.BeginSpanEffect(f, View(), i);
    }

    /** The limit configured for a service, if any. */
    function ServiceLimit(name: string): Option<Limit> {
      if name in serviceLimits then Some(serviceLimits[name]) else None
    }

    /** A service with a limit of its own hangs on an edge to the system and is counted there; one
        without is a span of the system that is not counted. */
    method OpenServiceStep(name: string) returns (s: Scope)
      requires Valid()
      modifies system`refCnt, system`spanID, this`scopes, this`svc
      ensures Valid()
      ensures View() == old(Forest.Step(View(), Forest.OpenService(ServiceLimit(name))))
      ensures scopes == old(scopes) + [s] && svc == old(svc)[name := s]
      ensures name in serviceLimits ==> s.limit == serviceLimits[name] && s.owner == null && s.edges == [system]
      ensures name !in serviceLimits ==> s.limit == system.limit && s.owner == system
      ensures system.refCnt == old(system.refCnt) + if name in serviceLimits then 1 else 0
    {
      hide Forest.Step;
      ghost var f, before := View(), scopes;
      IdsInOrder();
      assert PlacedIn(scopes, system, 0);
      if name !in serviceLimits {
        system.spanID := system.spanID + 1;
        s := new Scope(system.limit, system, [], |scopes|);
      } else {
        s := Scope.NewService(serviceLimits[name], [system], |scopes|);
      }
      svc := svc[name := s];
      scopes := scopes + [s];
      PlacesAfterAppend(before, scopes, system, s);
      forall j | 0 < j < |f|
        ensures NodeOf(scopes[j]) == f[j]
      {
        assert scopes[j] == before[j] && before[j] != system && f[j] == old(NodeOf(before[j]));
      }
      assert scopes[0] == before[0] && f[0] == old(NodeOf(before[0]));
      Forest.OpenServiceEffect(f, View(), ServiceLimit(name));
    }

    // ----- the books -----

    /** Opening a service keeps the books. */
    method OpenService(name: string) returns (s: Scope)
      requires Accounted()
      modifies system`refCnt, system`spanID, this`scopes, this`svc, this`ledger
      ensures Accounted()
      ensures View() == old(Forest.Step(View(), Forest.OpenService(ServiceLimit(name))))
      ensures ledger == old(Forest.Record(View(), ledger, Forest.OpenService(ServiceLimit(name))))
      ensures scopes == old(scopes) + [s] && svc == old(svc)[name := s]
      ensures name in serviceLimits ==> s.limit == serviceLimits[name] && s.owner == null && s.edges == [system]
      ensures name !in serviceLimits ==> s.limit == system.limit && s.owner == system
      ensures system.refCnt == old(system.refCnt) + if name in serviceLimits then 1 else 0
    {
      hide Forest.Consistent, Forest.Record, Forest.Step, Forest.WellFormed;
      ghost var op := Forest.OpenService(ServiceLimit(name));
      Forest.StepKeepsBooks(View(), ledger, op);
      ghost var led := Forest.Record(View(), ledger, op);
      s := OpenServiceStep(name);
      ledger := led;
    }

    /** Any call on any scope object is one step of the forest, disciplined or not. */
    method Perform(s: Scope, c: ScopeCall) returns (err: Option<Error>, span: Option<Scope>)
      requires Valid() && s in scopes && s.id < |scopes|
      modifies scopes, this`scopes
      ensures Valid()
      ensures View() == old(Forest.Step(View(), c.Op(s.id)))
      ensures c.Reserve? ==> err == old(Forest.Answer(View(), s.id, c.r))
      ensures c.BeginSpan? ==> (span.None? <==> old(s.done))
      ensures scopes == if span.Some? then old(scopes) + [span.value] else old(scopes)
    {
      hide Forest.Step, Forest.Answer, Forest.WellFormed, PlacedIn, NodeOf;
      err, span := None, None;
      match c {
        case BeginSpan => span := BeginSpanStep(s);
        case Reserve(r) => err := ReserveStep(s, r);
        case Release(r) => ReleaseStep(s, r);
        case ReleaseAll => ReleaseAllStep(s);
        case Done => DoneStep(s);
      }
    }

    /** Any disciplined call on any scope object keeps the books: conservation, limits and reference
        counts hold of the objects after it, and the answer is that of the forest. */
    method Call(s: Scope, c: ScopeCall) returns (err: Option<Error>, span: Option<Scope>)
      requires Accounted() && s in scopes && s.id < |scopes|
      requires Forest.Disciplined(View(), ledger, c.Op(s.id))
      modifies scopes, this`scopes, this`ledger
      ensures Accounted()
      ensures View() == old(Forest.Step(View(), c.Op(s.id)))
      ensures ledger == old(Forest.Record(View(), ledger, c.Op(s.id)))
      ensures c.Reserve? ==> err == old(Forest.Answer(View(), s.id, c.r))
      ensures c.BeginSpan? ==> (span.None? <==> old(s.done))
      ensures scopes == if span.Some? then old(scopes) + [span.value] else old(scopes)
    {
      hide Forest.Consistent, Forest.Disciplined, Forest.Record, Forest.Step, Forest.Answer, Forest.WellFormed, PlacedIn, NodeOf;
      ghost var op := c.Op(s.id);
      Forest.StepKeepsBooks(View(), ledger, op);
      ghost var led := Forest.Record(View(), ledger, op);
      err, span := Perform(s, c);
      ledger := led;
    }
  }
}
