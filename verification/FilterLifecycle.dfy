/**
 The lifecycle of a filter: its state, the recursive `Prepare` over the filters
 downstream of it in synchronous mode, and the flush protocol that marks buffer
 jobs as stale.
 */
module FilterLifecycle {
  import opened Sequences
  import opened Reachability

  datatype FilterState =
    CREATED | INITIALIZED | PREPARING | READY | RUNNING | PAUSED | FROZEN | STOPPED | RELEASED | ERROR

  datatype Status = OK | ERROR_INVALID_OPERATION | OtherError(code: int)

  // ------------------------------------------------------------------
  // State changes
  // ------------------------------------------------------------------

  /** `ChangeState`: an error is left by release only. */
  function NextState(cur: FilterState, target: FilterState): FilterState {
    if target == RELEASED then target else if cur == ERROR then ERROR else target
  }

  function StateAfter(cur: FilterState, targets: seq<FilterState>): FilterState {
    if targets == [] then cur else NextState(StateAfter(cur, targets[..|targets| - 1]), targets[|targets| - 1])
  }

  /** Over any run of state changes, a filter in error is in error as long as it is not released. */
  lemma {:induction false} ErrorStays(cur: FilterState, targets: seq<FilterState>, i: nat, j: nat)
    requires i <= j <= |targets|
    requires StateAfter(cur, targets[..i]) == ERROR
    requires RELEASED !in targets[i..j]
    ensures StateAfter(cur, targets[..j]) == ERROR
    decreases j
  {
    if i < j {
      assert targets[i..j] == targets[i..j - 1] + [targets[j - 1]];
      ErrorStays(cur, targets, i, j - 1);
      assert targets[..j][..j - 1] == targets[..j - 1];
    }
  }

  /** An error, the first state or one of the targets, that no release follows. */
  ghost predicate ErrorPending(cur: FilterState, targets: seq<FilterState>) {
    || (cur == ERROR && RELEASED !in targets)
    || exists i :: 0 <= i < |targets| && targets[i] == ERROR && RELEASED !in targets[i..]
  }

  /**
   Over any run of state changes: the filter is in error exactly when an error,
   its first state or a change to it, has not been followed by a release;
   otherwise it is in the state asked for last.
   */
  lemma {:induction false} StateExact(cur: FilterState, targets: seq<FilterState>)
    ensures StateAfter(cur, targets) == ERROR <==> ErrorPending(cur, targets)
    ensures !ErrorPending(cur, targets) ==>
      StateAfter(cur, targets) == if targets == [] then cur else targets[|targets| - 1]
  {
    if targets != [] {
      var init, last := targets[..|targets| - 1], targets[|targets| - 1];
      StateExact(cur, init);
      PendingStep(cur, init, last);
      assert targets == init + [last];
    }
  }

  lemma PendingStep(cur: FilterState, init: seq<FilterState>, last: FilterState)
    ensures ErrorPending(cur, init + [last]) <==> last == ERROR || (last != RELEASED && ErrorPending(cur, init))
  {
    var targets := init + [last];
    assert targets[|init|..] == [last];
    forall i | 0 <= i < |init|
      ensures targets[i..] == init[i..] + [last]
    {
    }
    if last == ERROR {
      assert targets[|init|] == ERROR && RELEASED !in targets[|init|..];
    } else if last != RELEASED && ErrorPending(cur, init) {
      if i :| 0 <= i < |init| && init[i] == ERROR && RELEASED !in init[i..] {
        assert targets[i] == ERROR && RELEASED !in targets[i..];
      }
    }
  }

  // ------------------------------------------------------------------
  // Prepare
  // ------------------------------------------------------------------

  class Filter {
    var curState: FilterState
    var errCode: Status
    /** The filters downstream, in the order in which the maps of next filters list them. */
    const nextFilters: seq<Filter>

    var jobIdx: int
    var jobIdxBase: int

    constructor (next: seq<Filter>)
      ensures nextFilters == next && curState == CREATED && errCode == OK && jobIdx == jobIdxBase == 0
    {
      nextFilters, curState, errCode, jobIdx, jobIdxBase := next, CREATED, OK, 0, 0;
    }

    method ChangeState(state: FilterState)
      modifies this`curState
      ensures curState == NextState(old(curState), state)
    {
      curState := if state == RELEASED then state else if curState == ERROR then ERROR else state;
    }

    /**
     `Prepare` in synchronous mode, over the filters `all`.  `plan` is what each
     filter's own `DoPrepare` comes to; `ready` are the filters that turned READY
     during the call, in the order in which they did.  The call succeeds exactly
     when every filter downstream can be prepared and is not in error already;
     when it fails, it gives the error of the filter that is to blame.
     */
    method Prepare(plan: map<Filter, Status>, ghost all: set<Filter>) returns (ret: Status, ghost ready: seq<Filter>)
      requires this in all && Closed(all) && Acyclic(Links(all)) && all <= plan.Keys
      modifies all
      ensures Outcome(all, Downset(all, this), old(States(all)), States(all), ready)
      ensures CodesFrom(plan, Downset(all, this), old(Codes(all)), Codes(all))
      ensures ret == OK <==> forall g :: g in Downset(all, this) ==> CanPrepare(plan, old(States(all)), g)
      ensures ret == OK ==> Prepared(plan, old(States(all)), States(all), Codes(all), Downset(all, this))
      ensures ret == OK <==> this in ready
      ensures ret != OK ==> exists g :: g in Downset(all, this) && Blamed(plan, old(States(all)), States(all), g, ret)
      ensures OnlyPlannedErrors(plan, old(States(all)), States(all))
      decreases |Downset(all, this)|, 1
    {
      hide Reach, Acyclic, Outcome, OnlyPlannedErrors, Blamed, Prepared, CodesFrom, NoNewErrors;
      ghost var before, codes := States(all), Codes(all);
      ready := [];
      DownsetInside(all, this);
      NothingHappened(all, Downset(all, this), before);
      Nothing(plan, Downset(all, this), before, codes);
      if curState == ERROR {
        BlamedBefore(plan, before, this);
        return ERROR_INVALID_OPERATION, [];
      }
      ret := plan[this];
      errCode := ret;
      assert States(all) == before && Codes(all) == codes[this := ret];
      OwnCode(plan, Downset(all, this), codes, this);
      if ret != OK {
        ChangeState(ERROR);
        assert States(all) == before[this := ERROR] && Codes(all) == codes[this := ret];
        Fails(all, this, before, States(all));
        FailsAsPlanned(plan, before, States(all), this);
        return;
      }
      ghost var done;
      ret, ready, done := PrepareNext(plan, all);
      CodesCompose(plan, Downset(all, this), Downset(all, this), codes, codes[this := OK], Codes(all));
      if ret != OK {
        ghost var g :| g in Downset(all, this) && Blamed(plan, before, States(all), g, ret);
        BlamedCannot(plan, before, States(all), g, ret);
        return;
      }
      ghost var last, codesLast := States(all), Codes(all);
      Succeeds(all, Downset(all, this), this, before, last, ready);
      ChangeState(READY);
      assert States(all) == last[this := READY] && Codes(all) == codesLast;
      ReadyIsNoError(plan, before, last, this);
      ready := ready + [this];
      AllPrepared(plan, all, this, before, last, codesLast, done);
      return OK, ready;
    }

    /** The loop over the next filters, up to the first that fails; `done` are the filters below those prepared. */
    method PrepareNext(plan: map<Filter, Status>, ghost all: set<Filter>)
      returns (ret: Status, ghost ready: seq<Filter>, ghost done: set<Filter>)
      requires this in all && Closed(all) && Acyclic(Links(all)) && all <= plan.Keys
      requires curState != ERROR && errCode == OK
      modifies all
      ensures Outcome(all, Downset(all, this), old(States(all)), States(all), ready)
      ensures CodesFrom(plan, Downset(all, this), old(Codes(all)), Codes(all))
      ensures this !in ready && curState == old(curState) && errCode == OK
      ensures ret == OK ==>
        && NoNewErrors(old(States(all)), States(all)) && Prepared(plan, old(States(all)), States(all), Codes(all), done)
        && forall k :: 0 <= k < |nextFilters| ==> Downset(all, nextFilters[k]) <= done && nextFilters[k] in ready
      ensures ret != OK ==>
        && OnlyPlannedErrors(plan, old(States(all)), States(all))
        && exists g :: g in Downset(all, this) && Blamed(plan, old(States(all)), States(all), g, ret)
      decreases |Downset(all, this)|, 0
    {
      hide Reach, Acyclic, Outcome, OnlyPlannedErrors, Blamed, Prepared, CodesFrom, NoNewErrors, CanPrepare, Closed;
      ghost var before, codes := States(all), Codes(all);
      ret, ready, done := OK, [], {};
      NothingHappened(all, Downset(all, this), before);
      Nothing(plan, Downset(all, this), before, codes);
      NonePrepared(plan, before, codes);
      for i := 0 to |nextFilters|
        invariant ret == OK
        invariant Outcome(all, Downset(all, this), before, States(all), ready)
        invariant NoNewErrors(before, States(all)) && CodesFrom(plan, Downset(all, this), codes, Codes(all))
        invariant Prepared(plan, before, States(all), Codes(all), done)
        invariant forall k :: 0 <= k < i ==> Downset(all, nextFilters[k]) <= done && nextFilters[k] in ready
        invariant curState == before[this] && errCode == OK && this !in ready
      {
        var filter := nextFilters[i];
        NextInside(all, this, filter);
        Downstream(all, this, filter);
        ghost var mid, codesMid := States(all), Codes(all);
        ghost var more;
        ret, more := filter.Prepare(plan, all);
        Untouched(all, Downset(all, filter), mid, States(all), more);
        CodesKept(plan, Downset(all, filter), codesMid, Codes(all));
        Composes(all, Downset(all, this), Downset(all, filter), before, mid, States(all), ready, more);
        CodesCompose(plan, Downset(all, this), Downset(all, filter), codes, codesMid, Codes(all));
        SameErrors(plan, all, Downset(all, this), before, mid, States(all), ready);
        NotAmong(all, Downset(all, filter), mid, States(all), more, this);
        ready := ready + more;
        if ret != OK {
          ghost var g :| g in Downset(all, filter) && Blamed(plan, mid, States(all), g, ret);
          assert Blamed(plan, before, States(all), g, ret);
          return;
        }
        MorePrepared(plan, all, before, mid, States(all), codesMid, Codes(all), done, Downset(all, filter), more);
        done := done + Downset(all, filter);
      }
    }

    /** The number that an asynchronous buffer job is submitted under. */
    method SubmitJob() returns (processIdx: int)
      modifies this`jobIdx
      ensures processIdx == jobIdx == old(jobIdx) + 1
    {
      jobIdx := jobIdx + 1;
      processIdx := jobIdx;
    }

    /**
     The check that a job makes when it runs.  After the steps of `trace`, the last
     submission of `job` among them, the flag tells whether a flush came since.
     */
    method CheckDrop(processIdx: int, ghost trace: seq<JobStep>, ghost submitted: nat, ghost job: nat) returns (isDrop: bool)
      requires submitted < |trace| && trace[submitted] == Submit(job)
      requires forall i :: submitted < i < |trace| ==> trace[i] != Submit(job)
      requires jobIdxBase == JobsAfter(trace).jobIdxBase
      requires job in JobsAfter(trace).issued && processIdx == JobsAfter(trace).issued[job]
      ensures isDrop <==> FlushedSince(trace, submitted)
    {
      isDrop := processIdx <= jobIdxBase;
      DropIffFlushed(trace, submitted, job);
    }

    /** Flushes the filters downstream, then this one: every job submitted to one of them is stale from then on. */
    method Flush(ghost all: set<Filter>)
      requires this in all && Closed(all) && Acyclic(Links(all))
      modifies all
      ensures forall g :: g in all ==>
        && g.jobIdx == old(g.jobIdx) && g.curState == old(g.curState) && g.errCode == old(g.errCode)
        && g.jobIdxBase == if g in Downset(all, this) then g.jobIdx else old(g.jobIdxBase)
      decreases |Downset(all, this)|
    {
      hide Reach, Acyclic;
      DownsetInside(all, this);
      for i := 0 to |nextFilters|
        invariant forall g :: g in all ==>
          g.jobIdx == old(g.jobIdx) && g.curState == old(g.curState) && g.errCode == old(g.errCode)
        invariant forall g :: g in all ==> g.jobIdxBase == old(g.jobIdxBase) || (g in Downset(all, this) && g.jobIdxBase == g.jobIdx)
        invariant forall k, g :: 0 <= k < i && g in Downset(all, nextFilters[k]) && g in all ==> g.jobIdxBase == g.jobIdx
      {
        Downstream(all, this, nextFilters[i]);
        nextFilters[i].Flush(all);
      }
      jobIdxBase := jobIdx;
      forall g | g in Downset(all, this)
        ensures g == this || exists k :: 0 <= k < |nextFilters| && g in Downset(all, nextFilters[k])
      {
        DownsetSplit(all, this, g);
      }
    }
  }

  ghost predicate Closed(all: set<Filter>) {
    forall f, g :: f in all && g in f.nextFilters ==> g in all
  }

  ghost function Links(all: set<Filter>): set<(Filter, Filter)> {
    set f, g | f in all && g in f.nextFilters :: (f, g)
  }

  /** The filter and everything downstream of it. */
  ghost function Downset(all: set<Filter>, f: Filter): set<Filter> {
    Reach(Links(all), {f})
  }

  ghost function States(all: set<Filter>): map<Filter, FilterState>
    reads all
  {
    map f | f in all :: f.curState
  }

  /**
   What a call of `Prepare` may do to the states: only filters in `reach` change,
   to ERROR or to READY; an error stays; and a filter turned READY after all its
   next filters had.
   */
  ghost predicate Outcome(all: set<Filter>, reach: set<Filter>, before: map<Filter, FilterState>,
                          after: map<Filter, FilterState>, ready: seq<Filter>) {
    && before.Keys == after.Keys == all
    && (forall g :: g in all && g !in reach ==> after[g] == before[g])
    && (forall g :: g in all ==> after[g] == before[g] || after[g] == ERROR || (after[g] == READY && g in ready))
    && (forall g :: g in all && before[g] == ERROR ==> after[g] == ERROR)
    && Elems(ready) <= reach
    && DownstreamFirst(ready)
  }

  /** The filter's own preparation succeeds, and it is not in error. */
  ghost predicate CanPrepare(plan: map<Filter, Status>, before: map<Filter, FilterState>, g: Filter) {
    g in plan && g in before && plan[g] == OK && before[g] != ERROR
  }

  /** The filter that makes a call fail: one in error already, or one whose own preparation fails and which is in error now. */
  ghost predicate Blamed(plan: map<Filter, Status>, before: map<Filter, FilterState>, after: map<Filter, FilterState>,
                         g: Filter, ret: Status) {
    && g in plan && g in before && g in after && !CanPrepare(plan, before, g) && after[g] == ERROR
    && ret == if before[g] == ERROR then ERROR_INVALID_OPERATION else plan[g]
  }

  /** A filter that is in error now was so before, or its own preparation failed. */
  ghost predicate OnlyPlannedErrors(plan: map<Filter, Status>, before: map<Filter, FilterState>, after: map<Filter, FilterState>) {
    forall g :: g in before && g in after && after[g] == ERROR && before[g] != ERROR ==> g in plan && plan[g] != OK
  }

  /** The filters of `s` could be prepared, are READY now and carry no error. */
  ghost predicate Prepared(plan: map<Filter, Status>, before: map<Filter, FilterState>, states: map<Filter, FilterState>,
                           codes: map<Filter, Status>, s: set<Filter>) {
    forall g :: g in s ==>
      CanPrepare(plan, before, g) && g in states && states[g] == READY && g in codes && codes[g] == OK
  }

  /** Only filters in `reach` change their error code, each to the outcome of its own preparation. */
  ghost predicate CodesFrom(plan: map<Filter, Status>, reach: set<Filter>, was: map<Filter, Status>, now: map<Filter, Status>) {
    && was.Keys == now.Keys
    && forall g :: g in was ==> now[g] == was[g] || (g in reach && g in plan && now[g] == plan[g])
  }

  ghost function Codes(all: set<Filter>): map<Filter, Status>
    reads all
  {
    map f | f in all :: f.errCode
  }

  lemma Nothing(plan: map<Filter, Status>, reach: set<Filter>, before: map<Filter, FilterState>, codes: map<Filter, Status>)
    ensures OnlyPlannedErrors(plan, before, before) && NoNewErrors(before, before) && CodesFrom(plan, reach, codes, codes)
  {
  }

  lemma NonePrepared(plan: map<Filter, Status>, before: map<Filter, FilterState>, codes: map<Filter, Status>)
    ensures Prepared(plan, before, before, codes, {})
  {
  }

  lemma OwnCode(plan: map<Filter, Status>, reach: set<Filter>, codes: map<Filter, Status>, f: Filter)
    requires f in reach && f in plan && f in codes
    ensures CodesFrom(plan, reach, codes, codes[f := plan[f]])
  {
  }

  lemma CodesKept(plan: map<Filter, Status>, reach: set<Filter>, was: map<Filter, Status>, now: map<Filter, Status>)
    requires CodesFrom(plan, reach, was, now)
    ensures was.Keys == now.Keys && forall g :: g in was && g !in reach ==> now[g] == was[g]
  {
  }

  lemma CodesCompose(plan: map<Filter, Status>, reach: set<Filter>, inner: set<Filter>, was: map<Filter, Status>,
                     mid: map<Filter, Status>, now: map<Filter, Status>)
    requires inner <= reach && CodesFrom(plan, reach, was, mid) && CodesFrom(plan, inner, mid, now)
    ensures CodesFrom(plan, reach, was, now)
  {
  }

  lemma BlamedCannot(plan: map<Filter, Status>, before: map<Filter, FilterState>, after: map<Filter, FilterState>, g: Filter, ret: Status)
    requires Blamed(plan, before, after, g, ret)
    ensures !CanPrepare(plan, before, g)
  {
  }

  lemma MorePrepared(plan: map<Filter, Status>, all: set<Filter>, before: map<Filter, FilterState>, mid: map<Filter, FilterState>,
                     after: map<Filter, FilterState>, codesMid: map<Filter, Status>, codes: map<Filter, Status>,
                     done: set<Filter>, inner: set<Filter>, more: seq<Filter>)
    requires before.Keys == mid.Keys == all && NoNewErrors(before, mid) && Outcome(all, inner, mid, after, more)
    requires CodesFrom(plan, inner, codesMid, codes)
    requires Prepared(plan, before, mid, codesMid, done) && Prepared(plan, mid, after, codes, inner)
    requires forall g :: CanPrepare(plan, before, g) <==> CanPrepare(plan, mid, g)
    ensures Prepared(plan, before, after, codes, done + inner) && NoNewErrors(before, after)
  {
  }

  lemma AllPrepared(plan: map<Filter, Status>, all: set<Filter>, f: Filter, before: map<Filter, FilterState>,
                    last: map<Filter, FilterState>, codes: map<Filter, Status>, done: set<Filter>)
    requires f in all && CanPrepare(plan, before, f) && f in codes && codes[f] == OK
    requires Prepared(plan, before, last, codes, done)
    requires forall k :: 0 <= k < |f.nextFilters| ==> Downset(all, f.nextFilters[k]) <= done
    ensures Prepared(plan, before, last[f := READY], codes, Downset(all, f))
    ensures forall g :: g in Downset(all, f) ==> CanPrepare(plan, before, g)
  {
    hide Reach;
    forall g | g in Downset(all, f)
      ensures g == f || g in done
    {
      DownsetSplit(all, f, g);
    }
  }

  lemma BlamedBefore(plan: map<Filter, Status>, before: map<Filter, FilterState>, f: Filter)
    requires f in plan && f in before && before[f] == ERROR
    ensures Blamed(plan, before, before, f, ERROR_INVALID_OPERATION)
  {
  }

  lemma FailsAsPlanned(plan: map<Filter, Status>, before: map<Filter, FilterState>, after: map<Filter, FilterState>, f: Filter)
    requires f in plan && f in before && before[f] != ERROR && plan[f] != OK && after == before[f := ERROR]
    ensures OnlyPlannedErrors(plan, before, after) && Blamed(plan, before, after, f, plan[f])
  {
  }

  lemma ReadyIsNoError(plan: map<Filter, Status>, before: map<Filter, FilterState>, done: map<Filter, FilterState>, f: Filter)
    requires NoNewErrors(before, done)
    ensures OnlyPlannedErrors(plan, before, done[f := READY])
  {
  }

  ghost predicate NoNewErrors(before: map<Filter, FilterState>, after: map<Filter, FilterState>) {
    forall g :: g in before && g in after && after[g] == ERROR ==> before[g] == ERROR
  }

  /** With no new error so far, filters are as able as before the call, and the next failure is to blame on the same filter. */
  lemma SameErrors(plan: map<Filter, Status>, all: set<Filter>, reach: set<Filter>, before: map<Filter, FilterState>,
                   mid: map<Filter, FilterState>, after: map<Filter, FilterState>, ready: seq<Filter>)
    requires Outcome(all, reach, before, mid, ready) && NoNewErrors(before, mid)
    requires after.Keys == all && OnlyPlannedErrors(plan, mid, after)
    ensures forall g :: CanPrepare(plan, before, g) <==> CanPrepare(plan, mid, g)
    ensures forall g, ret :: Blamed(plan, mid, after, g, ret) ==> Blamed(plan, before, after, g, ret)
    ensures OnlyPlannedErrors(plan, before, after)
  {
    assert forall g :: g in all ==> (mid[g] == ERROR <==> before[g] == ERROR);
  }

  lemma NotAmong(all: set<Filter>, reach: set<Filter>, before: map<Filter, FilterState>, after: map<Filter, FilterState>,
                 more: seq<Filter>, f: Filter)
    requires Outcome(all, reach, before, after, more) && f !in reach
    ensures f !in more
  {
    assert f in more ==> f in Elems(more);
  }

  ghost predicate DownstreamFirst(ready: seq<Filter>) {
    forall i, g :: 0 <= i < |ready| && g in ready[i].nextFilters ==> g in ready[..i]
  }

  lemma Untouched(all: set<Filter>, reach: set<Filter>, before: map<Filter, FilterState>,
                  after: map<Filter, FilterState>, ready: seq<Filter>)
    requires Outcome(all, reach, before, after, ready)
    ensures after.Keys == before.Keys == all && forall g :: g in all && g !in reach ==> after[g] == before[g]
  {
  }

  lemma NothingHappened(all: set<Filter>, reach: set<Filter>, before: map<Filter, FilterState>)
    requires before.Keys == all
    ensures Outcome(all, reach, before, before, [])
  {
  }

  lemma Fails(all: set<Filter>, f: Filter, before: map<Filter, FilterState>, after: map<Filter, FilterState>)
    requires f in all && before.Keys == all && after == before[f := ERROR]
    ensures Outcome(all, Downset(all, f), before, after, [])
  {
  }

  lemma Succeeds(all: set<Filter>, reach: set<Filter>, f: Filter, before: map<Filter, FilterState>,
                 mid: map<Filter, FilterState>, ready: seq<Filter>)
    requires f in all && f in reach && Outcome(all, reach, before, mid, ready) && mid[f] != ERROR
    requires forall k :: 0 <= k < |f.nextFilters| ==> f.nextFilters[k] in ready
    ensures Outcome(all, reach, before, mid[f := READY], ready + [f])
  {
    hide DownstreamFirst;
    var more := ready + [f];
    assert Elems(more) == Elems(ready) + {f};
    FirstAppend(ready, f);
  }

  lemma FirstAppend(ready: seq<Filter>, f: Filter)
    requires DownstreamFirst(ready)
    requires forall k :: 0 <= k < |f.nextFilters| ==> f.nextFilters[k] in ready
    ensures DownstreamFirst(ready + [f])
  {
    var more := ready + [f];
    forall i, g | 0 <= i < |more| && g in more[i].nextFilters
      ensures g in more[..i]
    {
      if i < |ready| {
        assert more[..i] == ready[..i];
      } else {
        assert more[..i] == ready;
      }
    }
  }

  /** A call for a filter downstream is part of the call for the filter. */
  lemma Composes(all: set<Filter>, reach: set<Filter>, inner: set<Filter>, before: map<Filter, FilterState>,
                 mid: map<Filter, FilterState>, after: map<Filter, FilterState>, ready: seq<Filter>, more: seq<Filter>)
    requires inner <= reach
    requires Outcome(all, reach, before, mid, ready) && Outcome(all, inner, mid, after, more)
    ensures Outcome(all, reach, before, after, ready + more)
  {
    var total := ready + more;
    assert Elems(total) == Elems(ready) + Elems(more);
    forall i, g | 0 <= i < |total| && g in total[i].nextFilters
      ensures g in total[..i]
    {
      if i < |ready| {
        assert total[..i] == ready[..i];
      } else {
        assert total[..i] == ready + more[..i - |ready|];
      }
    }
  }

  /** Downstream is smaller, and does not come back. */
  lemma Downstream(all: set<Filter>, f: Filter, g: Filter)
    requires f in all && g in f.nextFilters && Acyclic(Links(all))
    ensures Downset(all, g) < Downset(all, f) && f !in Downset(all, g)
    ensures |Downset(all, g)| < |Downset(all, f)|
  {
    var links := Links(all);
    assert (f, g) in links;
    assert g in Targets(links, Downset(all, f));
    ReachIsLeast(links, {g}, Downset(all, f));
    SmallerSet(Downset(all, g), Downset(all, f));
  }

  /** What is below a filter is the filter and what is below its next filters. */
  lemma DownsetSplit(all: set<Filter>, f: Filter, g: Filter)
    requires f in all && g in Downset(all, f)
    ensures g == f || exists k :: 0 <= k < |f.nextFilters| && g in Downset(all, f.nextFilters[k])
  {
    var links := Links(all);
    var parts := {f} + (set k, x | 0 <= k < |f.nextFilters| && x in Downset(all, f.nextFilters[k]) :: x);
    forall e | e in links && e.0 in parts
      ensures e.1 in parts
    {
      if e.0 == f {
        var k :| 0 <= k < |f.nextFilters| && f.nextFilters[k] == e.1;
        assert e.1 in Downset(all, f.nextFilters[k]);
      } else {
        var k :| 0 <= k < |f.nextFilters| && e.0 in Downset(all, f.nextFilters[k]);
        assert e.1 in Targets(links, Downset(all, f.nextFilters[k]));
      }
    }
    ReachIsLeast(links, {f}, parts);
  }

  lemma NextInside(all: set<Filter>, f: Filter, g: Filter)
    requires f in all && Closed(all) && g in f.nextFilters
    ensures g in all
  {
  }

  lemma DownsetInside(all: set<Filter>, f: Filter)
    requires f in all && Closed(all)
    ensures f in Downset(all, f) && Downset(all, f) <= all
  {
    ReachIsLeast(Links(all), {f}, all);
  }

  // ------------------------------------------------------------------
  // Flush generations
  // ------------------------------------------------------------------

  /** Steps of submitters, job execution and flush on one filter, in any order; a job is named by its submitter. */
  datatype JobStep = Submit(job: nat) | FlushAll | Execute(job: nat)

  /** The filter's counters and the number that each job was submitted under. */
  datatype Jobs = Jobs(jobIdx: int, jobIdxBase: int, issued: map<nat, int>)

  function JobsAfter(trace: seq<JobStep>): Jobs {
    if trace == [] then Jobs(0, 0, map[])
    else
      var s := JobsAfter(trace[..|trace| - 1]);
      match trace[|trace| - 1]
      case Submit(j) => s.(jobIdx := s.jobIdx + 1, issued := s.issued[j := s.jobIdx + 1])
      case FlushAll => s.(jobIdxBase := s.jobIdx)
      case Execute(_) => s
  }

  /** The drop flag of a job that runs after the given steps. */
  predicate Dropped(trace: seq<JobStep>, job: nat) {
    var s := JobsAfter(trace);
    job in s.issued && s.issued[job] <= s.jobIdxBase
  }

  ghost predicate FlushedSince(trace: seq<JobStep>, from: nat) {
    exists i :: from < i < |trace| && trace[i] == FlushAll
  }

  lemma {:induction false} BaseBehind(trace: seq<JobStep>)
    ensures JobsAfter(trace).jobIdxBase <= JobsAfter(trace).jobIdx
  {
    if trace != [] {
      BaseBehind(trace[..|trace| - 1]);
    }
  }

  /**
   In every interleaving, a job runs with its drop flag set exactly when a flush
   came after its submission and before its check.
   */
  lemma {:induction false} DropIffFlushed(trace: seq<JobStep>, submitted: nat, job: nat)
    requires submitted < |trace| && trace[submitted] == Submit(job)
    requires forall i :: submitted < i < |trace| ==> trace[i] != Submit(job)
    ensures job in JobsAfter(trace).issued
    ensures JobsAfter(trace).issued[job] <= JobsAfter(trace).jobIdx
    ensures Dropped(trace, job) <==> FlushedSince(trace, submitted)
    decreases |trace|
  {
    var init, last := trace[..|trace| - 1], trace[|trace| - 1];
    if submitted == |trace| - 1 {
      BaseBehind(init);
    } else {
      DropIffFlushed(init, submitted, job);
      if FlushedSince(init, submitted) {
        var i :| submitted < i < |init| && init[i] == FlushAll;
        assert trace[i] == FlushAll;
      }
      if FlushedSince(trace, submitted) && last != FlushAll {
        var i :| submitted < i < |trace| && trace[i] == FlushAll;
        assert init[i] == FlushAll;
      }
      assert last == FlushAll ==> trace[|trace| - 1] == FlushAll;
    }
  }
}
