/** What consistent books mean for a client of the resource manager. */
module ForestFacts {
  import opened Resources
  import opened Forest

  // ----- reserving and releasing -----

  /** Releasing a granted request where it was made restores every scope, exactly when every scope on the way
      up can take it back. For counts that is always so, unless the request leaks. */
  lemma {:induction false} ReleaseUndoesReserve(f: State, led: Ledger, i: nat, r: Request)
    requires Consistent(f, led) && i < |f| && Answer(f, i, r).None?
    ensures Step(Step(f, Reserve(i, r)), Release(i, r)) == f <==>
            forall x :: x in Up(f, i) ==> x < |f| && Undoable(f[x].rc, r)
    ensures r.Countable() && !r.Leaks() ==> Step(Step(f, Reserve(i, r)), Release(i, r)) == f
  {
    hide Try, Charge, Released, Undoable, Sound, Balanced, RefSum, Covered, Up, PartOf, Reach, Answer, Request.Countable;
    var g := Step(f, Reserve(i, r));
    var h := Step(g, Release(i, r));
    GrantPassesAll(f, i, r);
    OpenWayIsReached(f, g, i);
    forall x | 0 <= x < |f|
      ensures h[x] == f[x] <==> (x in Up(f, i) ==> Undoable(f[x].rc, r))
      ensures r.Countable() && !r.Leaks() && x in Up(f, i) ==> Undoable(f[x].rc, r)
    {
      SoundIsNonNegative(f[x].limit, f[x].rc);
      UndoneExactly(f[x].rc, r);
      if r.Countable() && x in Up(f, i) {
        CountsAreUndone(f[x].limit, f[x].rc, r);
      }
    }
    if forall x :: 0 <= x < |f| ==> h[x] == f[x] {
      assert h == f;
    }
  }

  lemma {:induction false} OpenWayIsReached(f: State, g: State, i: nat)
    requires WellFormed(f) && SameShape(f, g) && i < |f|
    requires forall x :: x in Up(f, i) ==> x < |f| && !g[x].done
    ensures WellFormed(g) && Reach(g, i) == Up(f, i)
  {
    if i != 0 {
      assert Up(f, i) == {i} + Up(f, Parent(f, i));
      OpenWayIsReached(f, g, Parent(f, i));
    }
  }

  // ----- what releases do -----

  /** What a call gives back, as a request to release. */
  function Returned(f: State, op: Op): Request
    requires WellFormed(f) && Callable(f, op) && (op.Release? || op.ReleaseAll? || op.Done?)
  {
    if op.Release? then op.r else Bulk(f[op.at].rc)
  }

  /** No disciplined call takes more from a scope than the scope counts, so the reset that the code
      reports as a bug never happens. */
  lemma {:induction false} NoCounterIsReset(f: State, led: Ledger, op: Op, x: nat)
    requires Consistent(f, led) && Callable(f, op) && Disciplined(f, led, op)
    requires (op.Release? || op.ReleaseAll? || op.Done?) && x in Reach(f, op.at)
    ensures var r := Returned(f, op);
            x < |f| && r.Refund().AtMost(f[x].rc) && Released(f[x].rc, r) == f[x].rc.Minus(r.Refund())
  {
    hide Sound, Released, Balanced, RefSum, Covered, ChildSum;
    var i, r := op.at, Returned(f, op);
    ReachCovers(f, led, i);
    SoundIsNonNegative(f[i].limit, f[i].rc);
    HeldIsCovered(f, led, i);
    if !op.Release? {
      LessIsSound(f[x].limit, f[x].rc, f[i].rc);
    }
    ReleaseIsMinus(f[x].limit, f[x].rc, r);
  }

  /** A scope that outlives its owner gives nothing back to the scopes above, which were already
      given everything when the owner closed. */
  lemma {:induction false} ClosedOwnerStopsRelease(f: State, i: nat, x: nat)
    requires WellFormed(f) && 0 < i < |f| && x < |f| && x != i
    requires f[Parent(f, i)].done
    ensures Step(f, Done(i))[x].rc == f[x].rc
  {
    if !f[i].done {
      CloseAt(f, i, x);
    }
  }

  // ----- the system's counters -----

  /** The scope and everything above it is open. */
  predicate Live(f: State, i: nat)
    requires WellFormed(f) && i < |f|
  {
    !f[i].done && (i == 0 || Live(f, Parent(f, i)))
  }

  /** What was reserved and not released through the live scopes among the first `k`. */
  function LiveHeld(f: State, held: seq<Usage>, k: nat): Usage
    requires WellFormed(f) && k <= |f| == |held|
  {
    if k == 0 then NOTHING
    else if Live(f, k - 1) then LiveHeld(f, held, k - 1).Plus(held[k - 1])
    else LiveHeld(f, held, k - 1)
  }

  function LiveCounted(f: State, k: nat): Usage
    requires WellFormed(f) && k <= |f|
  {
    if k == 0 then NOTHING
    else if Live(f, k - 1) then LiveCounted(f, k - 1).Plus(f[k - 1].rc)
    else LiveCounted(f, k - 1)
  }

  /** The shares, among the first `m` scopes, of the children of the live scopes among the first `k`. */
  function LiveShares(f: State, k: nat, m: nat): Usage
    requires WellFormed(f) && k <= |f| && m <= |f|
  {
    if k == 0 then NOTHING
    else if Live(f, k - 1) then LiveShares(f, k - 1, m).Plus(ChildSum(f, k - 1, m))
    else LiveShares(f, k - 1, m)
  }

  lemma PlusRearranged(a: Usage, b: Usage, c: Usage, d: Usage)
    ensures a.Plus(b.Plus(c)) == a.Plus(b).Plus(c)
    ensures a.Plus(b).Plus(c) == a.Plus(c).Plus(b)
    ensures a.Plus(b).Plus(c.Plus(d)) == a.Plus(c).Plus(b.Plus(d))
  {
  }

  lemma {:induction false} NoShares(f: State, k: nat)
    requires WellFormed(f) && k <= |f|
    ensures LiveShares(f, k, 0) == NOTHING
  {
    if k > 0 {
      NoShares(f, k - 1);
    }
  }

  /** One more scope among the children adds its counters once, if it is live. */
  lemma {:induction false} OneMoreShare(f: State, k: nat, c: nat)
    requires WellFormed(f) && k <= |f| && c < |f|
    ensures LiveShares(f, k, c + 1) ==
            if 0 < c && Parent(f, c) < k && Live(f, c) then LiveShares(f, k, c).Plus(f[c].rc) else LiveShares(f, k, c)
  {
    hide Usage.Plus;
    if k > 0 {
      OneMoreShare(f, k - 1, c);
      var sum := ChildSum(f, k - 1, c);
      PlusNothing(sum);
      PlusRearranged(LiveShares(f, k - 1, c), sum, f[c].rc, NOTHING);
      PlusRearranged(LiveShares(f, k - 1, c), f[c].rc, sum, NOTHING);
    }
  }

  /** Every live scope but the system is somebody's live child. */
  lemma {:induction false} SharesAreCounters(f: State, m: nat)
    requires WellFormed(f) && m <= |f| && !f[0].done
    ensures LiveCounted(f, m) == if m == 0 then NOTHING else LiveShares(f, |f|, m).Plus(f[0].rc)
  {
    if m == 0 {
    } else if m == 1 {
      NoShares(f, |f|);
      OneMoreShare(f, |f|, 0);
      assert LiveCounted(f, 1) == NOTHING.Plus(f[0].rc);
    } else {
      SharesAreCounters(f, m - 1);
      OneMoreShare(f, |f|, m - 1);
    }
  }

  lemma {:induction false} CountersAreHeldPlusShares(f: State, led: Ledger, k: nat)
    requires Consistent(f, led) && k <= |f|
    ensures LiveCounted(f, k) == LiveHeld(f, led.held, k).Plus(LiveShares(f, k, |f|))
  {
    hide Sound, RefSum, ChildSum, Usage.Plus, Covered;
    PlusNothing(NOTHING);
    if k > 0 {
      CountersAreHeldPlusShares(f, led, k - 1);
      assert Balanced(f, led.held, k - 1);
      PlusRearranged(LiveHeld(f, led.held, k - 1), LiveShares(f, k - 1, |f|), led.held[k - 1], ChildSum(f, k - 1, |f|));
    }
  }

  /** The open system counts exactly what is held through the scopes whose whole way up is open. */
  lemma {:induction false} SystemCountsLiveHoldings(f: State, led: Ledger)
    requires Consistent(f, led) && !f[0].done
    ensures f[0].rc == LiveHeld(f, led.held, |f|)
  {
    hide LiveHeld, LiveCounted, LiveShares, Sound, RefSum, ChildSum, Covered;
    SharesAreCounters(f, |f|);
    CountersAreHeldPlusShares(f, led, |f|);
  }

  // ----- reference counts -----

  /** Open children of `p` among the first `k` that raised a reference when they were opened. */
  function OpenReferences(f: State, counted: seq<bool>, p: nat, k: nat): nat
    requires WellFormed(f) && k <= |f| == |counted|
  {
    if k == 0 then 0
    else OpenReferences(f, counted, p, k - 1)
         + if IsChild(f, k - 1, p) && counted[k - 1] && !f[k - 1].done then 1 else 0
  }

  /** A closed child that never raised a reference. */
  predicate Overdrawn(f: State, counted: seq<bool>, p: nat, c: nat)
    requires WellFormed(f) && c < |f| == |counted|
  {
    IsChild(f, c, p) && !counted[c] && f[c].done
  }

  lemma {:induction false} RefSumCounts(f: State, counted: seq<bool>, p: nat, k: nat)
    requires WellFormed(f) && k <= |f| == |counted|
    ensures RefSum(f, counted, p, k) <= OpenReferences(f, counted, p, k)
    ensures RefSum(f, counted, p, k) == OpenReferences(f, counted, p, k) <==>
            forall c :: 0 <= c < k ==> !Overdrawn(f, counted, p, c)
  {
    if k > 0 {
      RefSumCounts(f, counted, p, k - 1);
      assert Overdrawn(f, counted, p, k - 1) ==> exists c :: 0 <= c < k && Overdrawn(f, counted, p, c);
    }
  }

  lemma {:induction false} NoOpenReferences(f: State, counted: seq<bool>, p: nat, k: nat)
    requires WellFormed(f) && k <= |f| == |counted|
    requires forall c :: 0 <= c < k && IsChild(f, c, p) ==> f[c].done
    ensures OpenReferences(f, counted, p, k) == 0
  {
    if k > 0 {
      NoOpenReferences(f, counted, p, k - 1);
    }
  }

  /** A reference count is the number of open children that raised one, exactly as long as no service
      without a limit of its own has been closed; it is then not negative, and zero once all are closed. */
  lemma {:induction false} ReferencesExact(f: State, led: Ledger, p: nat)
    requires Consistent(f, led) && p < |f|
    ensures f[p].refCnt == OpenReferences(f, led.counted, p, |f|) <==>
            forall c :: 0 <= c < |f| ==> !Overdrawn(f, led.counted, p, c)
    ensures (forall c :: 0 <= c < |f| ==> !Overdrawn(f, led.counted, p, c)) ==>
              && 0 <= f[p].refCnt
              && ((forall c :: 0 <= c < |f| && IsChild(f, c, p) ==> f[c].done) ==> f[p].refCnt == 0)
  {
    hide Sound, Balanced, Covered;
    RefSumCounts(f, led.counted, p, |f|);
    if forall c :: 0 <= c < |f| && IsChild(f, c, p) ==> f[c].done {
      NoOpenReferences(f, led.counted, p, |f|);
    }
  }
}
