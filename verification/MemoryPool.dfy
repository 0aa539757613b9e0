/**
 The shared memory pool: a bounded first-fit allocator with an idle and a busy
 list, eviction of the smallest idle block, and threads that wait for a block.

 `Pool` is the state behind the pool's mutex and the functions on it are its
 critical sections; the class runs them on its fields.  `System` adds the
 threads, so that interleavings of acquire, release and `SetNonBlocking` can be
 followed step by step.
 */
module MemoryPool {
  import opened Sequences

  const INT32_MAX := 0x7FFF_FFFF
  const MAX_MEM_SIZE := 100 * 1024 * 1024
  const MAX_MEM_CNT := 10 * 1024

  type int32 = x: int | -INT32_MAX - 1 <= x <= INT32_MAX

  /** A block of shared memory; no two allocations share an `id`. */
  datatype Block = Block(id: nat, size: int)

  datatype InitializeOption = InitializeOption(preAllocMemCnt: nat, memSize: int32, maxMemCnt: nat, enableFixedSize: bool)

  datatype Pool = Pool(option: InitializeOption, idle: seq<Block>, busy: seq<Block>, inited: bool,
                       forceNonBlocking: bool, nextId: nat, deleted: seq<Block>)

  // ------------------------------------------------------------------
  // Critical sections
  // ------------------------------------------------------------------

  /** The first block that is large enough, or the length of the list. */
  function FirstFit(idle: seq<Block>, size: int): (i: nat)
    ensures i <= |idle|
    ensures forall j :: 0 <= j < i ==> idle[j].size < size
    ensures i < |idle| ==> idle[i].size >= size
  {
    if idle == [] then 0
    else if idle[0].size >= size then 0
    else 1 + FirstFit(idle[1..], size)
  }

  /** The first of the smallest blocks. */
  function Smallest(idle: seq<Block>): (i: nat)
    requires idle != []
    ensures i < |idle|
    ensures forall j :: 0 <= j < |idle| ==> idle[i].size <= idle[j].size
    ensures forall j :: 0 <= j < i ==> idle[i].size < idle[j].size
  {
    if |idle| == 1 then 0
    else
      var last := |idle| - 1;
      var i := Smallest(idle[..last]);
      if idle[last].size < idle[i].size then last else i
  }

  lemma SmallestStep(idle: seq<Block>, n: nat)
    requires n < |idle|
    ensures n == 0 ==> Smallest(idle[..1]) == 0
    ensures n > 0 ==>
      var i := Smallest(idle[..n]);
      Smallest(idle[..n + 1]) == if idle[n].size < idle[i].size then n else i
  {
  }

  function RemoveAt<T>(s: seq<T>, i: nat): seq<T>
    requires i < |s|
  {
    s[..i] + s[i + 1..]
  }

  /** What an attempt to acquire brings: a block, nothing for now, or a failed allocation. */
  datatype Attempt = Got(block: Block) | Nothing | AllocFailed

  function Allocate(p: Pool, size: int, allocOk: bool): (Pool, Attempt) {
    if allocOk then (p.(nextId := p.nextId + 1), Got(Block(p.nextId, size))) else (p, AllocFailed)
  }

  /** `DoAcquireMemory`; `allocOk` tells whether an allocation succeeds, should one be made. */
  function DoAcquire(p: Pool, size: int, allocOk: bool): (Pool, Attempt) {
    var i := FirstFit(p.idle, size);
    if i < |p.idle| then
      (p.(idle := RemoveAt(p.idle, i)), Got(p.idle[i]))
    else if |p.busy| + |p.idle| < p.option.maxMemCnt then
      Allocate(p, size, allocOk)
    else if !p.option.enableFixedSize && p.idle != [] then
      var m := Smallest(p.idle);
      Allocate(p.(idle := RemoveAt(p.idle, m), deleted := p.deleted + [p.idle[m]]), size, allocOk)
    else
      (p, Nothing)
  }

  predicate CheckSize(option: InitializeOption, size: int32) {
    && (size > 0 || size == -1)
    && (!option.enableFixedSize ==> size != -1)
    && (option.enableFixedSize ==> size <= option.memSize)
  }

  /** The size that is really asked for. */
  function AskedSize(option: InitializeOption, size: int32): int32 {
    if option.enableFixedSize then option.memSize else size
  }

  /** What a caller may ask for: a size, or in fixed-size mode -1 or a size up to the configured one. */
  predicate ValidRequest(option: InitializeOption, size: int) {
    if option.enableFixedSize then (size == -1 || size > 0) && size <= option.memSize else size > 0
  }

  lemma CheckSizeExact(option: InitializeOption, size: int32)
    ensures CheckSize(option, size) <==> ValidRequest(option, size)
  {
  }

  /** `ReleaseMemory`: a busy block becomes idle, any other block is deleted. */
  function Release(p: Pool, block: Block): Pool {
    var i := IndexOf(p.busy, block);
    if i < |p.busy| then
      p.(busy := RemoveAt(p.busy, i), idle := p.idle + [block])
    else
      p.(deleted := p.deleted + [block])
  }

  function IndexOf(s: seq<Block>, b: Block): (i: nat)
    ensures i <= |s|
    ensures forall j :: 0 <= j < i ==> s[j] != b
    ensures i < |s| ==> s[i] == b
  {
    if s == [] then 0 else if s[0] == b then 0 else 1 + IndexOf(s[1..], b)
  }

  function FreshBlocks(nextId: nat, size: int, n: nat): seq<Block> {
    seq(n, i requires 0 <= i < n => Block(nextId + i, size))
  }

  function PreAlloc(option: InitializeOption): nat {
    if option.preAllocMemCnt <= option.maxMemCnt then option.preAllocMemCnt else option.maxMemCnt
  }

  predicate OptionOk(option: InitializeOption) {
    option.memSize < MAX_MEM_SIZE && 0 < option.maxMemCnt <= MAX_MEM_CNT
  }

  /** How many of the first `n` allocations succeed before one fails. */
  ghost function Allocated(allocOk: seq<bool>, n: nat): (k: nat)
    requires n <= |allocOk|
    ensures k <= n && (forall i :: 0 <= i < k ==> allocOk[i]) && (k < n ==> !allocOk[k])
  {
    if n == 0 then 0
    else
      var k := Allocated(allocOk, n - 1);
      if k == n - 1 && allocOk[k] then n else k
  }

  /** The pool after `Init` has made `n` allocations. */
  function Preallocated(p: Pool, option: InitializeOption, n: nat): Pool {
    p.(option := option.(preAllocMemCnt := PreAlloc(option)),
       idle := p.idle + FreshBlocks(p.nextId, option.memSize, n),
       nextId := p.nextId + n)
  }

  function ResetPool(p: Pool): Pool {
    p.(idle := [], inited := false, forceNonBlocking := false, deleted := p.deleted + p.idle)
  }

  class AVSharedMemoryPool {
    var option: InitializeOption
    var idleList: seq<Block>
    var busyList: seq<Block>
    var inited: bool
    var forceNonBlocking: bool
    var nextId: nat
    ghost var deleted: seq<Block>

    ghost function View(): Pool
      reads this
    {
      Pool(option, idleList, busyList, inited, forceNonBlocking, nextId, deleted)
    }

    constructor ()
      ensures View() == FreshPool()
    {
      option, idleList, busyList := InitializeOption(0, 0, 0, true), [], [];
      inited, forceNonBlocking, nextId, deleted := false, false, 0, [];
    }

    method Init(opt: InitializeOption, allocOk: seq<bool>) returns (ok: bool)
      requires |allocOk| >= PreAlloc(opt)
      modifies this
      ensures ok <==>
        && !old(inited) && opt.memSize < 104_857_600 && 0 < opt.maxMemCnt <= 10_240
        && forall i :: 0 <= i < opt.preAllocMemCnt && i < opt.maxMemCnt ==> allocOk[i]
      ensures ok ==>
        && inited && option == opt.(preAllocMemCnt := option.preAllocMemCnt)
        && |idleList| == |old(idleList)| + (if opt.preAllocMemCnt <= opt.maxMemCnt then opt.preAllocMemCnt else opt.maxMemCnt)
        && old(idleList) <= idleList && busyList == old(busyList) && forceNonBlocking == old(forceNonBlocking)
        && forall i :: |old(idleList)| <= i < |idleList| ==> idleList[i].size == opt.memSize
      ensures View() ==
        if old(inited) || !OptionOk(opt) then old(View())
        else Preallocated(old(View()), opt, Allocated(allocOk, PreAlloc(opt))).(inited := ok)
    {
      if inited || !OptionOk(opt) {
        return false;
      }
      option := opt.(preAllocMemCnt := PreAlloc(opt));
      ghost var n := Allocated(allocOk, PreAlloc(opt));
      for i := 0 to option.preAllocMemCnt
        invariant option == opt.(preAllocMemCnt := PreAlloc(opt)) && !inited
        invariant i <= n
        invariant View() == Preallocated(old(View()), opt, i)
      {
        if !allocOk[i] {
          return false;
        }
        ghost var before := old(nextId);
        assert FreshBlocks(before, opt.memSize, i + 1) == FreshBlocks(before, opt.memSize, i) + [Block(before + i, opt.memSize)];
        idleList := idleList + [Block(nextId, option.memSize)];
        nextId := nextId + 1;
      }
      inited := true;
      return true;
    }

    /** One pass over the idle list: the first block that fits, and the smallest if none does. */
    method SearchIdle(size: int32) returns (fit: nat, minIdle: nat)
      ensures fit == FirstFit(idleList, size)
      ensures fit == |idleList| ==> minIdle == if idleList == [] then 0 else Smallest(idleList)
    {
      hide Smallest, FirstFit;
      var minIdleSize := INT32_MAX;
      minIdle := |idleList|;
      fit := 0;
      while fit < |idleList| && idleList[fit].size < size
        invariant 0 <= fit <= |idleList|
        invariant forall j :: 0 <= j < fit ==> idleList[j].size < size
        invariant if fit == 0 then minIdle == |idleList| && minIdleSize == INT32_MAX
                  else minIdle == Smallest(idleList[..fit]) && minIdleSize == idleList[minIdle].size
      {
        SmallestStep(idleList, fit);
        if idleList[fit].size < minIdleSize {
          minIdle, minIdleSize := fit, idleList[fit].size;
        }
        fit := fit + 1;
      }
      assert idleList[..|idleList|] == idleList;
    }

    method DoAcquireMemory(size: int32, allocOk: bool) returns (result: Attempt)
      modifies this
      ensures (View(), result) == DoAcquire(old(View()), size, allocOk)
    {
      hide Smallest, FirstFit, Allocate;
      var fit, minIdle := SearchIdle(size);
      if fit < |idleList| {
        result := Got(idleList[fit]);
        idleList := RemoveAt(idleList, fit);
      } else if |busyList| + |idleList| < option.maxMemCnt {
        result := AllocMemory(size, allocOk);
      } else if !option.enableFixedSize && minIdle != |idleList| {
        deleted := deleted + [idleList[minIdle]];
        idleList := RemoveAt(idleList, minIdle);
        result := AllocMemory(size, allocOk);
      } else {
        result := Nothing;
      }
    }

    method AllocMemory(size: int32, allocOk: bool) returns (result: Attempt)
      modifies this`nextId
      ensures (View(), result) == Allocate(old(View()), size, allocOk)
    {
      if allocOk {
        result := Got(Block(nextId, size));
        nextId := nextId + 1;
      } else {
        result := AllocFailed;
      }
    }

    /**
     A non-blocking acquire.  On lists in order and with an allocation that would
     succeed, a request is served exactly when it is valid and the pool is not
     exhausted, with a block that nobody holds and that is as large as was asked.
     */
    method AcquireMemory(size: int32, allocOk: bool) returns (result: Attempt)
      modifies this
      ensures old(ValidRequest(option, size)) && allocOk && old(Accounted(View()) && Bounded(View())) ==>
        && (result.Got? <==> old(idleList != [] || |busyList| < option.maxMemCnt))
        && (result.Got? ==> result.block !in old(busyList) && result.block.size >= size)
        && (result.Got? && old(option.enableFixedSize) ==> result.block.size == old(option.memSize))
        && busyList == old(busyList) + if result.Got? then [result.block] else []
      ensures !old(ValidRequest(option, size)) ==> result == Nothing && View() == old(View())
      ensures
        if !CheckSize(old(option), size) then View() == old(View()) && result == Nothing
        else (View(), result) == Taken(DoAcquire(old(View()), AskedSize(old(option), size), allocOk))
    {
      ghost var before := View();
      CheckSizeExact(option, size);
      if !CheckSize(option, size) {
        return Nothing;
      }
      if allocOk && Accounted(before) && Bounded(before) {
        Served(before, size);
      }
      result := DoAcquireMemory(AskedSize(option, size), allocOk);
      if result.Got? {
        busyList := busyList + [result.block];
      }
    }

    method ReleaseMemory(memory: Block)
      modifies this
      ensures View() == Release(old(View()), memory)
      ensures memory in old(busyList) ==>
        && idleList == old(idleList) + [memory] && multiset(busyList) == multiset(old(busyList)) - multiset{memory}
        && deleted == old(deleted)
      ensures memory !in old(busyList) ==>
        idleList == old(idleList) && busyList == old(busyList) && deleted == old(deleted) + [memory]
    {
      var i := 0;
      while i < |busyList| && busyList[i] != memory
        invariant 0 <= i <= |busyList|
        invariant forall j :: 0 <= j < i ==> busyList[j] != memory
      {
        i := i + 1;
      }
      if i < |busyList| {
        assert busyList == busyList[..i] + [memory] + busyList[i + 1..];
        busyList := RemoveAt(busyList, i);
        idleList := idleList + [memory];
      } else {
        deleted := deleted + [memory];
      }
    }

    method SetNonBlocking(enable: bool)
      modifies this`forceNonBlocking
      ensures View() == old(View()).(forceNonBlocking := enable)
    {
      forceNonBlocking := enable;
    }

    /** Deletes the idle blocks; the busy list is not touched. */
    method Reset()
      modifies this
      ensures View() == ResetPool(old(View()))
      ensures idleList == [] && deleted == old(deleted) + old(idleList) && busyList == old(busyList)
      ensures !inited && !forceNonBlocking && option == old(option)
    {
      deleted := deleted + idleList;
      idleList := [];
      inited, forceNonBlocking := false, false;
    }
  }

  function FreshPool(): Pool {
    Pool(InitializeOption(0, 0, 0, true), [], [], false, false, 0, [])
  }

  /** A block that was found goes to the end of the busy list. */
  function Taken(r: (Pool, Attempt)): (Pool, Attempt) {
    if r.1.Got? then (r.0.(busy := r.0.busy + [r.1.block]), r.1) else r
  }

  // ------------------------------------------------------------------
  // Interleavings
  // ------------------------------------------------------------------

  /** A thread blocked in `AcquireMemory`; `notified` once a notify has reached it. */
  datatype Waiter = Waiter(size: int32, notified: bool)

  /** The pool, the threads that wait, and the blocks that callers hold. */
  datatype System = System(pool: Pool, waiters: map<nat, Waiter>, held: set<Block>)

  datatype Action =
    | Acquire(thread: nat, size: int32, blocking: bool, allocOk: bool)
    | Wake(thread: nat, allocOk: bool)
    | ReleaseBlock(block: Block)
    | SetNonBlocking(enable: bool)

  /** A thread that waits does nothing else, and a block is released by its holder, once. */
  predicate Enabled(s: System, a: Action) {
    match a
    case Acquire(t, _, _, _) => t !in s.waiters
    case Wake(t, _) => t in s.waiters
    case ReleaseBlock(b) => b in s.held
    case SetNonBlocking(_) => true
  }

  function NotifyAll(waiters: map<nat, Waiter>): map<nat, Waiter> {
    map t | t in waiters :: waiters[t].(notified := true)
  }

  /** One turn of the acquire loop, up to its return or its wait. */
  function Turn(s: System, t: nat, size: int32, blocking: bool, allocOk: bool): System {
    var (p, r) := Taken(DoAcquire(s.pool, size, allocOk));
    match r
    case Got(b) => System(p, s.waiters - {t}, s.held + {b})
    case AllocFailed => System(p, s.waiters - {t}, s.held)
    case Nothing =>
      if blocking && !p.forceNonBlocking then
        System(p, s.waiters[t := Waiter(size, false)], s.held)
      else
        System(p, s.waiters - {t}, s.held)
  }

  /** A waiting thread may wake at any time, notified or not. */
  function Apply(s: System, a: Action): System
    requires Enabled(s, a)
  {
    match a
    case Acquire(t, size, blocking, allocOk) =>
      if CheckSize(s.pool.option, size) then Turn(s, t, AskedSize(s.pool.option, size), blocking, allocOk) else s
    case Wake(t, allocOk) =>
      if s.pool.inited && !s.pool.forceNonBlocking then
        Turn(s, t, s.waiters[t].size, true, allocOk)
      else
        s.(waiters := s.waiters - {t})
    case ReleaseBlock(b) =>
      System(Release(s.pool, b), NotifyAll(s.waiters), s.held - {b})
    case SetNonBlocking(enable) =>
      s.(pool := s.pool.(forceNonBlocking := enable), waiters := if enable then NotifyAll(s.waiters) else s.waiters)
  }

  /** A run: from a freshly initialised pool, one enabled action after the other. */
  ghost predicate Run(option: InitializeOption, states: seq<System>, actions: seq<Action>) {
    && |states| > 0
    && OptionOk(option)
    && states[0] == System(Preallocated(FreshPool(), option, PreAlloc(option)).(inited := true), map[], {})
    && Steps(states, actions)
  }

  /** One enabled action after the other. */
  ghost predicate Steps(states: seq<System>, actions: seq<Action>) {
    && |states| == |actions| + 1
    && forall i :: 0 <= i < |actions| ==> Enabled(states[i], actions[i]) && states[i + 1] == Apply(states[i], actions[i])
  }

  ghost predicate DistinctIds(s: seq<Block>) {
    forall i, j :: 0 <= i < j < |s| ==> s[i].id != s[j].id
  }

  ghost predicate Apart(a: seq<Block>, b: seq<Block>) {
    forall x, y :: x in a && y in b ==> x.id != y.id
  }

  /** Every block ever made is in exactly one place of exactly one list. */
  ghost predicate Accounted(p: Pool) {
    && DistinctIds(p.idle) && DistinctIds(p.busy) && DistinctIds(p.deleted)
    && Apart(p.idle, p.busy) && Apart(p.idle, p.deleted) && Apart(p.busy, p.deleted)
    && (forall b :: b in p.idle || b in p.busy || b in p.deleted ==> b.id < p.nextId)
    && |p.idle| + |p.busy| + |p.deleted| == p.nextId
  }

  /** At most `maxMemCnt` blocks live, in fixed-size mode all of the configured size. */
  ghost predicate Bounded(p: Pool) {
    && |p.idle| + |p.busy| <= p.option.maxMemCnt
    && (p.option.enableFixedSize ==> forall b :: b in p.idle || b in p.busy ==> b.size == p.option.memSize)
  }

  /** The pool has nothing to give and nothing to make. */
  ghost predicate Exhausted(p: Pool) {
    p.idle == [] && |p.busy| == p.option.maxMemCnt
  }

  /** No lost wake-up: a thread no notify has reached waits for an exhausted pool. */
  ghost predicate NoLostWakeup(s: System) {
    forall t :: t in s.waiters && !s.waiters[t].notified ==> Exhausted(s.pool) && !s.pool.forceNonBlocking
  }

  ghost predicate Inv(s: System) {
    && s.pool.inited
    && Accounted(s.pool) && Bounded(s.pool)
    && Elems(s.pool.busy) == s.held
    && (forall t :: t in s.waiters && s.pool.option.enableFixedSize ==> s.waiters[t].size == s.pool.option.memSize)
    && NoLostWakeup(s)
  }

  // ------------------------------------------------------------------
  // What one attempt does
  // ------------------------------------------------------------------

  /** In fixed-size mode only the configured size is asked for. */
  predicate SizeAllowed(p: Pool, size: int32) {
    p.option.enableFixedSize ==> size == p.option.memSize
  }

  /**
   When allocation succeeds, an attempt comes back with nothing exactly when
   the pool is exhausted; otherwise it brings a block that is large enough and
   that nobody holds, the first idle one if any fits, and it evicts nothing but
   a smallest idle block.
   */
  lemma AttemptOutcome(p: Pool, size: int32)
    requires Accounted(p) && Bounded(p) && SizeAllowed(p, size)
    ensures
      var (p', r) := DoAcquire(p, size, true);
      && (r.Nothing? <==> Exhausted(p))
      && !r.AllocFailed?
      && (r.Got? ==> r.block.size >= size && r.block !in p.busy)
      && (r.Got? && r.block in p.idle ==>
            exists i :: 0 <= i < |p.idle| && p.idle[i] == r.block && forall j :: 0 <= j < i ==> p.idle[j].size < size)
      && (r.Got? && r.block !in p.idle ==> r.block.size == size && forall b :: b in p.idle ==> b.size < size)
      && p'.busy == p.busy
      && (p'.deleted == p.deleted
          || exists b :: p'.deleted == p.deleted + [b] && b in p.idle && forall c :: c in p.idle ==> b.size <= c.size)
  {
    var i := FirstFit(p.idle, size);
    assert p.idle != [] ==> p.idle[0] in p.idle;
    if i < |p.idle| {
      assert p.idle[i] in p.idle;
    }
  }

  lemma RemoveAtFacts(s: seq<Block>, i: nat)
    requires i < |s| && DistinctIds(s)
    ensures DistinctIds(RemoveAt(s, i)) && |RemoveAt(s, i)| == |s| - 1
    ensures forall b :: b in RemoveAt(s, i) <==> b in s && b.id != s[i].id
  {
  }

  // ------------------------------------------------------------------
  // What every step keeps
  // ------------------------------------------------------------------

  /** An allocation, after at most one eviction, keeps the books; the new block is unknown to all lists. */
  lemma AllocateKeeps(p: Pool, size: int32, allocOk: bool)
    requires Accounted(p) && Bounded(p) && SizeAllowed(p, size)
    requires |p.idle| + |p.busy| < p.option.maxMemCnt
    ensures
      var (p', r) := Taken(Allocate(p, size, allocOk));
      && Accounted(p') && Bounded(p') && p'.option == p.option
      && (r.Got? ==> r.block !in p.busy && p'.busy == p.busy + [r.block])
      && (!r.Got? ==> p'.busy == p.busy)
  {
  }

  lemma EvictKeeps(p: Pool, m: nat)
    requires Accounted(p) && Bounded(p) && m < |p.idle|
    ensures
      var p' := p.(idle := RemoveAt(p.idle, m), deleted := p.deleted + [p.idle[m]]);
      Accounted(p') && Bounded(p')
  {
  }

  lemma ReuseKeeps(p: Pool, i: nat)
    requires Accounted(p) && Bounded(p) && i < |p.idle|
    ensures
      var p' := p.(idle := RemoveAt(p.idle, i), busy := p.busy + [p.idle[i]]);
      Accounted(p') && Bounded(p')
  {
  }

  lemma AttemptKeeps(p: Pool, size: int32, allocOk: bool)
    requires Accounted(p) && Bounded(p) && SizeAllowed(p, size)
    ensures
      var (p', r) := Taken(DoAcquire(p, size, allocOk));
      && Accounted(p') && Bounded(p')
      && p'.option == p.option && p'.inited == p.inited && p'.forceNonBlocking == p.forceNonBlocking
      && (r.Got? ==> r.block !in p.busy && p'.busy == p.busy + [r.block])
      && (!r.Got? ==> p'.busy == p.busy)
      && (r.Nothing? <==> Exhausted(p)) && (r.Nothing? ==> p' == p)
  {
    var i := FirstFit(p.idle, size);
    assert p.idle != [] ==> p.idle[0] in p.idle;
    if i < |p.idle| {
      ReuseKeeps(p, i);
      assert p.idle[i] in p.idle;
    } else if |p.busy| + |p.idle| < p.option.maxMemCnt {
      AllocateKeeps(p, size, allocOk);
    } else if !p.option.enableFixedSize && p.idle != [] {
      var m := Smallest(p.idle);
      EvictKeeps(p, m);
      RemoveAtFacts(p.idle, m);
      AllocateKeeps(p.(idle := RemoveAt(p.idle, m), deleted := p.deleted + [p.idle[m]]), size, allocOk);
    }
  }

  /** When allocation fails, only an idle block that fits is handed out; nothing for now still means an exhausted pool. */
  lemma AttemptWithoutAlloc(p: Pool, size: int32)
    requires Accounted(p) && Bounded(p) && SizeAllowed(p, size)
    ensures
      var (p', r) := DoAcquire(p, size, false);
      && (r.Got? <==> exists b :: b in p.idle && b.size >= size)
      && (r.Got? ==> r.block in p.idle && r.block.size >= size)
      && (r.Nothing? <==> Exhausted(p))
      && p'.busy == p.busy && |p'.idle| >= |p.idle| - 1
  {
    var i := FirstFit(p.idle, size);
    assert p.idle != [] ==> p.idle[0] in p.idle;
    if i < |p.idle| {
      assert p.idle[i] in p.idle;
    }
  }

  /** When allocation succeeds, a block is handed out exactly unless the pool is exhausted. */
  lemma ServedAsked(p: Pool, asked: int32)
    requires Accounted(p) && Bounded(p) && SizeAllowed(p, asked)
    ensures
      var (p', r) := Taken(DoAcquire(p, asked, true));
      && (r.Got? <==> p.idle != [] || |p.busy| < p.option.maxMemCnt)
      && (r.Got? ==> r.block !in p.busy && r.block.size >= asked)
      && (r.Got? && p.option.enableFixedSize ==> r.block.size == p.option.memSize)
      && p'.busy == p.busy + (if r.Got? then [r.block] else [])
      && (!r.Got? ==> p' == p && r == Nothing)
  {
    hide DoAcquire, Accounted;
    AttemptOutcome(p, asked);
    AttemptKeeps(p, asked, true);
    var (p', r) := Taken(DoAcquire(p, asked, true));
    if r.Got? {
      assert r.block in p'.busy;
    }
    assert p.busy + [] == p.busy;
  }

  /** So it is for a valid request, with a block of the caller's own size. */
  lemma Served(p: Pool, size: int32)
    requires Accounted(p) && Bounded(p) && ValidRequest(p.option, size)
    ensures
      var (p', r) := Taken(DoAcquire(p, AskedSize(p.option, size), true));
      && (r.Got? <==> p.idle != [] || |p.busy| < p.option.maxMemCnt)
      && (r.Got? ==> r.block !in p.busy && r.block.size >= size)
      && (r.Got? && p.option.enableFixedSize ==> r.block.size == p.option.memSize)
      && p'.busy == p.busy + (if r.Got? then [r.block] else [])
      && (!r.Got? ==> p' == p && r == Nothing)
  {
    hide DoAcquire, Accounted, Bounded;
    ServedAsked(p, AskedSize(p.option, size));
  }

  /**
   A call of a thread, when allocation succeeds: an invalid size changes nothing;
   a valid request is served with a free block of the caller's size unless the pool
   is exhausted, and then waits exactly if it may block.
   */
  lemma AcquireServes(s: System, t: nat, size: int32, blocking: bool)
    requires Inv(s) && t !in s.waiters
    ensures
      var s' := Apply(s, Acquire(t, size, blocking, true));
      if !ValidRequest(s.pool.option, size) then s' == s
      else if s.pool.idle != [] || |s.pool.busy| < s.pool.option.maxMemCnt then
        t !in s'.waiters && ServedBlock(s, s', size)
      else
        && s'.held == s.held && s'.pool == s.pool
        && s'.waiters == if blocking && !s.pool.forceNonBlocking
                         then s.waiters[t := Waiter(if s.pool.option.enableFixedSize then s.pool.option.memSize else size, false)]
                         else s.waiters
  {
    hide DoAcquire, Accounted, Bounded, NoLostWakeup;
    CheckSizeExact(s.pool.option, size);
    if ValidRequest(s.pool.option, size) {
      Served(s.pool, size);
      HeldAreBusy(s);
      assert s.waiters - {t} == s.waiters;
    }
  }

  lemma HeldAreBusy(s: System)
    requires Elems(s.pool.busy) == s.held
    ensures forall b :: b in s.held <==> b in s.pool.busy
  {
  }

  /** The step hands out one block, which nobody held and which is large enough; in fixed-size mode it is of the configured size. */
  ghost predicate ServedBlock(s: System, s': System, size: int) {
    exists b :: b !in s.held && s'.held == s.held + {b}
      && b.size >= size && (s.pool.option.enableFixedSize ==> b.size == s.pool.option.memSize)
  }

  /** A waiting thread that wakes is served with a block of the size it waits for unless the pool is exhausted; forced out, it leaves. */
  lemma WakeServes(s: System, t: nat)
    requires Inv(s) && t in s.waiters
    ensures
      var s' := Apply(s, Wake(t, true));
      if s.pool.forceNonBlocking then s' == s.(waiters := s.waiters - {t})
      else if s.pool.idle != [] || |s.pool.busy| < s.pool.option.maxMemCnt then
        t !in s'.waiters && ServedBlock(s, s', s.waiters[t].size)
      else s' == s.(waiters := s.waiters[t := Waiter(s.waiters[t].size, false)])
  {
    hide DoAcquire, Accounted, Bounded, NoLostWakeup;
    ServedAsked(s.pool, s.waiters[t].size);
    HeldAreBusy(s);
  }

  /** Every waiting thread is told, and goes on waiting for its size. */
  ghost predicate AllNotified(before: map<nat, Waiter>, after: map<nat, Waiter>) {
    before.Keys == after.Keys && forall t :: t in before ==> after[t] == Waiter(before[t].size, true)
  }

  /** Giving a block back makes it the last idle one and tells every waiting thread. */
  lemma ReleaseServes(s: System, b: Block)
    requires Inv(s) && b in s.held
    ensures
      var s' := Apply(s, ReleaseBlock(b));
      && s'.held == s.held - {b} && s'.pool.idle == s.pool.idle + [b] && |s'.pool.busy| == |s.pool.busy| - 1
      && AllNotified(s.waiters, s'.waiters)
  {
  }

  /** The flag is set as asked, and setting it tells every waiting thread; nothing else changes. */
  lemma SetNonBlockingServes(s: System, enable: bool)
    ensures
      var s' := Apply(s, SetNonBlocking(enable));
      && s'.pool == s.pool.(forceNonBlocking := enable) && s'.held == s.held
      && (enable ==> AllNotified(s.waiters, s'.waiters)) && (!enable ==> s'.waiters == s.waiters)
  {
  }

  /** One turn of the acquire loop keeps the invariant and never hands out a block that is held. */
  lemma TurnKeeps(s: System, t: nat, size: int32, blocking: bool, allocOk: bool)
    requires Inv(s) && SizeAllowed(s.pool, size)
    ensures Inv(Turn(s, t, size, blocking, allocOk))
    ensures HandsOutFree(s, Turn(s, t, size, blocking, allocOk))
  {
    AttemptKeeps(s.pool, size, allocOk);
    var (p, r) := Taken(DoAcquire(s.pool, size, allocOk));
    var s' := Turn(s, t, size, blocking, allocOk);
    assert r.Got? ==> Elems(s.pool.busy + [r.block]) == Elems(s.pool.busy) + {r.block};
    assert Elems(p.busy) == s'.held;
  }

  /** A step hands out no block, or one that nobody held. */
  ghost predicate HandsOutFree(s: System, s': System) {
    s'.held <= s.held || exists b :: b !in s.held && s'.held == s.held + {b}
  }

  lemma ReleaseKeeps(p: Pool, b: Block)
    requires Accounted(p) && Bounded(p) && b in p.busy
    ensures Accounted(Release(p, b)) && Bounded(Release(p, b))
    ensures Release(p, b).deleted == p.deleted
    ensures Elems(Release(p, b).busy) == Elems(p.busy) - {b}
  {
    var i := IndexOf(p.busy, b);
    RemoveAtFacts(p.busy, i);
  }

  /** Every action keeps the invariant; no release deletes a block. */
  lemma StepKeeps(s: System, a: Action)
    requires Inv(s) && Enabled(s, a)
    ensures Inv(Apply(s, a)) && HandsOutFree(s, Apply(s, a))
    ensures Apply(s, a).pool.option == s.pool.option
    ensures a.ReleaseBlock? ==> Apply(s, a).pool.deleted == s.pool.deleted
  {
    match a
    case Acquire(t, size, blocking, allocOk) =>
      if CheckSize(s.pool.option, size) {
        TurnKeeps(s, t, AskedSize(s.pool.option, size), blocking, allocOk);
        AttemptKeeps(s.pool, AskedSize(s.pool.option, size), allocOk);
      }
    case Wake(t, allocOk) =>
      if s.pool.inited && !s.pool.forceNonBlocking {
        TurnKeeps(s, t, s.waiters[t].size, true, allocOk);
        AttemptKeeps(s.pool, s.waiters[t].size, allocOk);
      }
    case ReleaseBlock(b) =>
      ReleaseKeeps(s.pool, b);
    case SetNonBlocking(_) =>
  }

  lemma InitEstablishes(option: InitializeOption)
    requires OptionOk(option)
    ensures Inv(System(Preallocated(FreshPool(), option, PreAlloc(option)).(inited := true), map[], {}))
  {
  }

  /**
   Safety over whole runs: in every state the lists account for every block
   once, stay within the bound and hold exactly what callers hold, and no
   un-notified thread waits for a pool that could serve it.
   */
  lemma {:induction false} RunsAreSafe(option: InitializeOption, states: seq<System>, actions: seq<Action>, i: nat)
    requires Run(option, states, actions) && i < |states|
    ensures Inv(states[i])
    ensures states[i].pool.option.maxMemCnt == option.maxMemCnt
    ensures i < |actions| ==> HandsOutFree(states[i], states[i + 1])
  {
    if i == 0 {
      InitEstablishes(option);
    } else {
      RunsAreSafe(option, states, actions, i - 1);
      StepKeeps(states[i - 1], actions[i - 1]);
    }
    if i < |actions| {
      StepKeeps(states[i], actions[i]);
    }
  }

  // ------------------------------------------------------------------
  // Initialising again
  // ------------------------------------------------------------------

  /** The number of blocks in the lists. */
  function Live(p: Pool): nat {
    |p.idle| + |p.busy|
  }

  /** The number of blocks grows up to the maximum and no further, and in fixed-size mode never shrinks. */
  ghost predicate LiveStep(p: Pool, p': Pool) {
    && p'.option == p.option
    && (Live(p') <= Live(p) || Live(p') <= p.option.maxMemCnt)
    && (p.option.enableFixedSize ==> Live(p') >= Live(p))
  }

  lemma AttemptLive(p: Pool, size: int, allocOk: bool)
    ensures LiveStep(p, Taken(DoAcquire(p, size, allocOk)).0)
  {
    hide FirstFit;
  }

  lemma ReleaseLive(p: Pool, b: Block)
    ensures LiveStep(p, Release(p, b))
  {
  }

  lemma TurnLive(s: System, t: nat, size: int32, blocking: bool, allocOk: bool)
    ensures LiveStep(s.pool, Turn(s, t, size, blocking, allocOk).pool)
  {
    hide DoAcquire, Taken, LiveStep;
    AttemptLive(s.pool, size, allocOk);
  }

  /** So it is with every step, from any state. */
  lemma StepLive(s: System, a: Action)
    requires Enabled(s, a)
    ensures LiveStep(s.pool, Apply(s, a).pool)
  {
    hide Turn, Release, NotifyAll;
    match a
    case Acquire(t, size, blocking, allocOk) =>
      if CheckSize(s.pool.option, size) {
        TurnLive(s, t, AskedSize(s.pool.option, size), blocking, allocOk);
      }
    case Wake(t, allocOk) =>
      if s.pool.inited && !s.pool.forceNonBlocking {
        TurnLive(s, t, s.waiters[t].size, true, allocOk);
      }
    case ReleaseBlock(b) => ReleaseLive(s.pool, b);
    case SetNonBlocking(_) =>
  }

  /**
   A second `Init` on lists that still hold blocks.  Whatever is done afterwards,
   the maximum is kept if the lists leave room for the preallocation; if not, the
   number of blocks never grows further, and in fixed-size mode never comes down.
   */
  lemma {:induction false} InitAgain(p: Pool, option: InitializeOption, states: seq<System>, actions: seq<Action>, i: nat)
    requires OptionOk(option) && Steps(states, actions) && i < |states|
    requires states[0].pool == Preallocated(p, option, PreAlloc(option)).(inited := true)
    ensures states[i].pool.option == states[0].pool.option
    ensures Live(p) + PreAlloc(option) <= option.maxMemCnt ==> Live(states[i].pool) <= option.maxMemCnt
    ensures Live(p) + PreAlloc(option) > option.maxMemCnt ==>
      && Live(states[i].pool) <= Live(p) + PreAlloc(option)
      && (option.enableFixedSize ==> Live(states[i].pool) == Live(p) + PreAlloc(option))
  {
    hide Apply;
    if i > 0 {
      InitAgain(p, option, states, actions, i - 1);
      StepLive(states[i - 1], actions[i - 1]);
      assert LiveStep(states[i - 1].pool, states[i].pool);
    }
  }

  /** A block held over a `Reset` stays in the busy list, so the next `Init` can exceed the bound. */
  lemma ResetKeepsBusy()
    ensures
      var option := InitializeOption(1, 16, 1, true);
      var ready := Preallocated(FreshPool(), option, PreAlloc(option)).(inited := true);
      var held := Taken(DoAcquire(ready, 16, true)).0;
      var again := Preallocated(ResetPool(held), option, PreAlloc(option));
      |again.idle| + |again.busy| == 2 > again.option.maxMemCnt
  {
    var ready := Preallocated(FreshPool(), InitializeOption(1, 16, 1, true), 1);
    assert ready.idle[0] == Block(0, 16);
    assert FirstFit(ready.idle, 16) == 0;
  }
}
