/** The counting allocator: any number of threads updating `LIVE` and `PEAK`, one atomic operation
    at a time, and `peak_during` reading them. */
module AllocProbe {
  type Tid = nat
  type Block = nat

  const WORD: nat := 0x1_0000_0000_0000_0000

  /** Where a thread stands inside `alloc` or `dealloc`. */
  datatype Pc =
    | Idle
    | GotBlock(block: Block)             // the inner allocator returned it
    | Added(block: Block, now: nat)      // `LIVE.fetch_add` done, `PEAK.fetch_max(now)` still to come
    | Maxed(block: Block)                // both done, the thread-local bump still to come
    | Freeing(block: Block)              // `LIVE.fetch_sub` done, the inner `dealloc` still to come

  /** `heap` is what the inner allocator has handed out, `owned` what the program holds, and `counted`
      the blocks added to `LIVE` and not yet subtracted. */
  datatype State = State(
    live: nat, peak: nat, threads: map<Tid, Pc>, bumped: map<Tid, nat>,
    heap: map<Block, nat>, owned: set<Block>, counted: map<Block, nat>)

  /** One atomic operation of one thread. */
  datatype Step =
    | InnerAlloc(t: Tid, block: Block, size: nat)
    | InnerFail(t: Tid)
    | FetchAdd(t: Tid)
    | FetchMax(t: Tid)
    | Bump(t: Tid, tlsAlive: bool)
    | FetchSub(t: Tid, freed: Block)
    | InnerFree(t: Tid)

  function Sum(m: map<Block, nat>): nat {
    if m == map[] then 0
    else
      var least := Least(m.Keys);
      m[least] + Sum(m - {least})
  }

  predicate IsLeast(s: set<Block>, k: Block) { k in s && forall j :: j in s ==> k <= j }

  function Least(s: set<Block>): (k: Block)
    requires s != {}
    ensures IsLeast(s, k)
  {
    LeastExists(s);
    var k :| k in s && IsLeast(s, k);
    k
  }

  lemma {:induction false} LeastExists(s: set<Block>)
    requires s != {}
    ensures exists k :: IsLeast(s, k)
    decreases |s|
  {
    var x :| x in s;
    var rest := s - {x};
    if rest == {} {
      OnlyMember(s, x);
    } else {
      LeastExists(rest);
      var k :| IsLeast(rest, k);
      LeastOfBoth(s, x, k);
    }
  }

  lemma OnlyMember(s: set<Block>, x: Block)
    requires x in s && s - {x} == {}
    ensures IsLeast(s, x)
  {
    assert s == {x} by { assert forall j :: j in s && j != x ==> j in s - {x}; }
  }

  lemma LeastOfBoth(s: set<Block>, x: Block, k: Block)
    requires x in s && IsLeast(s - {x}, k)
    ensures IsLeast(s, if x <= k then x else k)
  {
    forall j | j in s ensures (if x <= k then x else k) <= j { if j != x { assert j in s - {x}; } }
  }

  /** Which operations a thread may perform next. The inner allocator hands out a block nobody holds,
      and all blocks fit the address space together; a caller frees only a block it owns. */
  predicate Enabled(s: State, step: Step) {
    step.t in s.threads && step.t in s.bumped &&
    var pc := s.threads[step.t];
    match step
    case InnerAlloc(_, block, size) => pc.Idle? && block !in s.heap && Sum(s.heap) + size < WORD
    case InnerFail(_) => pc.Idle?
    case FetchAdd(_) => pc.GotBlock? && pc.block in s.heap
    case FetchMax(_) => pc.Added?
    case Bump(_, _) => pc.Maxed? && pc.block in s.heap
    case FetchSub(_, block) => pc.Idle? && block in s.owned && block in s.heap
    case InnerFree(_) => pc.Freeing?
  }

  function Max(a: nat, b: nat): nat { if a < b then b else a }

  /** The state after one operation, in the machine's wrapping arithmetic. */
  function Apply(s: State, step: Step): State
    requires Enabled(s, step)
  {
    var t := step.t;
    var pc := s.threads[t];
    match step
    case InnerAlloc(_, block, size) => s.(heap := s.heap[block := size], threads := s.threads[t := GotBlock(block)])
    case InnerFail(_) => s
    case FetchAdd(_) =>
      var size := s.heap[pc.block];
      var now := (s.live + size) % WORD;
      s.(live := now, counted := s.counted[pc.block := size], threads := s.threads[t := Added(pc.block, now)])
    case FetchMax(_) => s.(peak := Max(s.peak, pc.now), threads := s.threads[t := Maxed(pc.block)])
    case Bump(_, tlsAlive) =>
      var total := (s.bumped[t] + s.heap[pc.block]) % WORD;
      s.(owned := s.owned + {pc.block}, threads := s.threads[t := Idle],
         bumped := if tlsAlive then s.bumped[t := total] else s.bumped)
    case FetchSub(_, block) =>
      s.(live := (s.live + WORD - s.heap[block] % WORD) % WORD, counted := s.counted - {block},
         owned := s.owned - {block}, threads := s.threads[t := Freeing(block)])
    case InnerFree(_) => s.(heap := s.heap - {pc.block}, threads := s.threads[t := Idle])
  }

  // ----- The invariant: LIVE is an exact sum -----

  /** What every reachable state satisfies. */
  ghost predicate Inv(s: State) {
    && s.live == Sum(s.counted)
    && Sum(s.heap) < WORD
    && (forall b :: b in s.counted ==> b in s.heap && s.counted[b] == s.heap[b])
    && (forall b :: b in s.owned ==> b in s.counted)
    && (forall t :: t in s.threads && !s.threads[t].Idle? ==>
          var pc := s.threads[t];
          && pc.block in s.heap && pc.block !in s.owned
          && (pc.block in s.counted <==> pc.Added? || pc.Maxed?))
    && (forall t, u :: t in s.threads && u in s.threads && t != u && !s.threads[t].Idle? && !s.threads[u].Idle? ==>
          s.threads[t].block != s.threads[u].block)
  }

  lemma {:induction false} SumRemove(m: map<Block, nat>, k: Block)
    requires k in m
    ensures Sum(m) == m[k] + Sum(m - {k})
    decreases |m|
  {
    var least := Least(m.Keys);
    if k != least {
      assert (m - {k}).Keys == m.Keys - {k} && least in m.Keys - {k};
      assert m - {k} != map[] && Least((m - {k}).Keys) == least;
      assert (m - {least}) - {k} == (m - {k}) - {least};
      assert |(m - {least}).Keys| < |m.Keys| by { assert (m - {least}).Keys == m.Keys - {least}; }
      SumRemove(m - {least}, k);
    }
  }

  lemma SumAdd(m: map<Block, nat>, k: Block, v: nat)
    requires k !in m
    ensures Sum(m[k := v]) == Sum(m) + v
  {
    SumRemove(m[k := v], k);
    assert m[k := v] - {k} == m;
  }

  lemma {:induction false} SumSubmap(a: map<Block, nat>, b: map<Block, nat>)
    requires forall k :: k in a ==> k in b && a[k] == b[k]
    ensures Sum(a) <= Sum(b)
    decreases |a|
  {
    if a != map[] {
      var k := Least(a.Keys);
      SumRemove(b, k);
      assert |(a - {k}).Keys| < |a.Keys| by { assert (a - {k}).Keys == a.Keys - {k}; }
      SumSubmap(a - {k}, b - {k});
    }
  }

  lemma AddKeepsInv(s: State, step: Step)
    requires Inv(s) && Enabled(s, step) && step.FetchAdd?
    ensures Inv(Apply(s, step)) && Apply(s, step).live == s.live + s.heap[s.threads[step.t].block]
  {
    var block := s.threads[step.t].block;
    SumAdd(s.counted, block, s.heap[block]);
    SumSubmap(s.counted[block := s.heap[block]], s.heap);
  }

  lemma SubKeepsInv(s: State, step: Step)
    requires Inv(s) && Enabled(s, step) && step.FetchSub?
    ensures s.heap[step.freed] <= s.live && Apply(s, step).live == s.live - s.heap[step.freed]
    ensures Inv(Apply(s, step))
  {
    SumRemove(s.counted, step.freed);
    SumSubmap(s.counted, s.heap);
    var v := s.heap[step.freed];
    assert v % WORD == v && (s.live + WORD - v) % WORD == s.live - v;
  }

  lemma HeapKeepsInv(s: State, step: Step)
    requires Inv(s) && Enabled(s, step) && (step.InnerAlloc? || step.InnerFree?)
    ensures Inv(Apply(s, step))
  {
    if step.InnerAlloc? {
      SumAdd(s.heap, step.block, step.size);
    } else {
      SumRemove(s.heap, s.threads[step.t].block);
    }
  }

  /** Every operation of every thread keeps the invariant; in particular no counter ever wraps: an
      addition stays within a word and a subtraction stays at or above zero. */
  lemma StepKeepsInv(s: State, step: Step)
    requires Inv(s) && Enabled(s, step)
    ensures Inv(Apply(s, step))
    ensures step.FetchAdd? ==> Apply(s, step).live == s.live + s.heap[s.threads[step.t].block]
    ensures step.FetchSub? ==> s.heap[step.freed] <= s.live && Apply(s, step).live == s.live - s.heap[step.freed]
  {
    match step
    case FetchAdd(_) => AddKeepsInv(s, step);
    case FetchSub(_, _) => SubKeepsInv(s, step);
    case InnerAlloc(_, _, _) => HeapKeepsInv(s, step);
    case InnerFree(_) => HeapKeepsInv(s, step);
    case _ =>
  }

  // ----- Runs -----

  /** The state after a run of operations, whichever threads perform them. */
  ghost predicate ValidRun(s: State, steps: seq<Step>)
    decreases |steps|, 0
  {
    steps == [] ||
    (ValidRun(s, steps[..|steps| - 1]) && Enabled(After(s, steps[..|steps| - 1]), steps[|steps| - 1]))
  }

  ghost function After(s: State, steps: seq<Step>): State
    requires ValidRun(s, steps)
    decreases |steps|, 1
  {
    if steps == [] then s else Apply(After(s, steps[..|steps| - 1]), steps[|steps| - 1])
  }

  /** The highest `LIVE` over a run, its first and last states included. */
  ghost function HighestLive(s: State, steps: seq<Step>): nat
    requires ValidRun(s, steps)
  {
    if steps == [] then s.live else Max(HighestLive(s, steps[..|steps| - 1]), After(s, steps).live)
  }

  /** Over every interleaving `LIVE` is the exact sum of the blocks counted. */
  lemma {:induction false} RunKeepsInv(s: State, steps: seq<Step>)
    requires Inv(s) && ValidRun(s, steps)
    ensures Inv(After(s, steps))
  {
    if steps != [] {
      var init := steps[..|steps| - 1];
      RunKeepsInv(s, init);
      StepKeepsInv(After(s, init), steps[|steps| - 1]);
    }
  }

  /** The process before its first allocation. */
  function Start(threads: set<Tid>): State {
    State(0, 0, map t | t in threads :: Idle, map t | t in threads :: 0, map[], {}, map[])
  }

  /** **`LIVE` is exact.** From the start, over every interleaving of any number of threads, it is the sum
      of the blocks added and not yet subtracted, and it is zero when none are; nothing ever wraps. */
  lemma LiveIsExact(threads: set<Tid>, steps: seq<Step>)
    requires ValidRun(Start(threads), steps)
    ensures var s := After(Start(threads), steps);
            Inv(s) && s.live == Sum(s.counted) < WORD && (s.counted == map[] ==> s.live == 0)
  {
    RunKeepsInv(Start(threads), steps);
    var s := After(Start(threads), steps);
    SumSubmap(s.counted, s.heap);
  }

  /** Every block handed out is the program's, or in the hands of a thread inside `alloc` or `dealloc`. */
  ghost predicate Accounted(s: State) {
    forall b :: b in s.heap ==> b in s.owned || exists t :: Holds(s, t, b)
  }

  ghost predicate Holds(s: State, t: Tid, b: Block) {
    t in s.threads && !s.threads[t].Idle? && s.threads[t].block == b
  }

  lemma StepKeepsAccounted(s: State, step: Step)
    requires Inv(s) && Accounted(s) && Enabled(s, step)
    ensures Accounted(Apply(s, step))
  {
    var s' := Apply(s, step);
    forall b | b in s'.heap && b !in s'.owned ensures exists t :: Holds(s', t, b) {
      if b in s.heap && b !in s.owned {
        var t :| Holds(s, t, b);
        assert Holds(s', t, b);
      } else {
        assert Holds(s', step.t, b);
      }
    }
  }

  lemma {:induction false} RunKeepsAccounted(s: State, steps: seq<Step>)
    requires Inv(s) && Accounted(s) && ValidRun(s, steps)
    ensures Accounted(After(s, steps))
  {
    if steps != [] {
      var init := steps[..|steps| - 1];
      RunKeepsInv(s, init);
      RunKeepsAccounted(s, init);
      StepKeepsAccounted(After(s, init), steps[|steps| - 1]);
    }
  }

  /** No thread is inside `alloc` or `dealloc`. */
  ghost predicate AtRest(s: State) {
    forall t :: t in s.threads ==> s.threads[t].Idle?
  }

  lemma RestHasNoHands(s: State)
    requires Inv(s) && Accounted(s) && AtRest(s)
    ensures s.heap.Keys == s.owned && s.counted == s.heap
  {
    forall b | b in s.heap ensures b in s.owned {
      assert !exists t :: Holds(s, t, b);
    }
  }

  /** **`LIVE` is the residency.** Whenever no thread is inside `alloc` or `dealloc`, the program owns exactly what
      the inner allocator has handed out, and `LIVE` is the sum of its sizes. */
  lemma LiveIsResidency(threads: set<Tid>, steps: seq<Step>)
    requires ValidRun(Start(threads), steps)
    requires AtRest(After(Start(threads), steps))
    ensures var s := After(Start(threads), steps); s.heap.Keys == s.owned && s.live == Sum(s.heap)
  {
    var s := After(Start(threads), steps);
    RunKeepsInv(Start(threads), steps);
    RunKeepsAccounted(Start(threads), steps);
    RestHasNoHands(s);
  }

  /** No thread is between its add and its max. */
  ghost predicate Quiescent(s: State) {
    forall t :: t in s.threads ==> !s.threads[t].Added?
  }

  /** `top` is the larger of `PEAK` and the values threads are about to raise it to. */
  ghost predicate IsPendingPeak(s: State, top: nat) {
    && s.peak <= top
    && (forall t :: t in s.threads && s.threads[t].Added? ==> s.threads[t].now <= top)
    && (s.peak == top || exists t :: t in s.threads && s.threads[t].Added? && s.threads[t].now == top)
  }

  /** From a reset on, `PEAK` together with the maxima still in flight is the highest `LIVE`, or what
      they were at the reset if that was higher. */
  lemma {:induction false} RunTracksPeak(s: State, steps: seq<Step>, top: nat)
    requires Inv(s) && ValidRun(s, steps) && IsPendingPeak(s, top) && s.live <= top
    ensures IsPendingPeak(After(s, steps), Max(top, HighestLive(s, steps)))
  {
    if steps != [] {
      var init, step := steps[..|steps| - 1], steps[|steps| - 1];
      RunKeepsInv(s, init);
      RunTracksPeak(s, init, top);
      HighestBounds(s, init);
      StepTracksPeak(After(s, init), step, Max(top, HighestLive(s, init)));
    }
  }

  lemma HighestBounds(s: State, steps: seq<Step>)
    requires ValidRun(s, steps)
    ensures After(s, steps).live <= HighestLive(s, steps)
  {
  }

  lemma StepTracksPeak(s: State, step: Step, top: nat)
    requires Inv(s) && Enabled(s, step) && IsPendingPeak(s, top) && s.live <= top
    ensures IsPendingPeak(Apply(s, step), Max(top, Apply(s, step).live))
  {
    StepKeepsInv(s, step);
    var s' := Apply(s, step);
    if s.peak != top {
      var t :| t in s.threads && s.threads[t].Added? && s.threads[t].now == top;
      assert t != step.t ==> t in s'.threads && s'.threads[t] == s.threads[t];
    }
    if step.FetchAdd? {
      assert s'.threads[step.t] == Added(s.threads[step.t].block, s'.live);
    }
  }

  /** The state in which `peak_during` enters its region: the baseline it loaded earlier stored into `PEAK`. */
  function Entered(base: nat, s: State): State { s.(peak := base) }

  /** What `peak_during` reports: `PEAK.load().saturating_sub(base)`. */
  function Reported(base: nat, s: State): nat { if base <= s.peak then s.peak - base else 0 }

  /** **`peak_during` is exact.** If no thread is between its add and its max when the region is entered
      and when it is left, and `LIVE` is what was loaded, the reported peak is the highest `LIVE` over the
      region less that baseline, whatever every thread did meanwhile. */
  lemma PeakDuringIsExact(s: State, steps: seq<Step>)
    requires Inv(s) && Quiescent(s)
    requires ValidRun(Entered(s.live, s), steps) && Quiescent(After(Entered(s.live, s), steps))
    ensures var entered := Entered(s.live, s);
            Reported(s.live, After(entered, steps)) == HighestLive(entered, steps) - s.live
  {
    RunTracksPeak(Entered(s.live, s), steps, s.live);
    HighestFromStart(Entered(s.live, s), steps);
  }

  /** The highest `LIVE` that an addition reached during a run, and nothing if there was none. */
  ghost function HighestAdded(s: State, steps: seq<Step>): nat
    requires ValidRun(s, steps)
  {
    if steps == [] then 0
    else
      var before := HighestAdded(s, steps[..|steps| - 1]);
      if steps[|steps| - 1].FetchAdd? then Max(before, After(s, steps).live) else before
  }

  lemma {:induction false} RunTracksAdds(s: State, steps: seq<Step>, top: nat)
    requires Inv(s) && ValidRun(s, steps) && IsPendingPeak(s, top)
    ensures IsPendingPeak(After(s, steps), Max(top, HighestAdded(s, steps)))
  {
    if steps != [] {
      var init, step := steps[..|steps| - 1], steps[|steps| - 1];
      RunKeepsInv(s, init);
      RunTracksAdds(s, init, top);
      StepTracksAdds(After(s, init), step, Max(top, HighestAdded(s, init)));
    }
  }

  lemma StepTracksAdds(s: State, step: Step, top: nat)
    requires Inv(s) && Enabled(s, step) && IsPendingPeak(s, top)
    ensures IsPendingPeak(Apply(s, step), if step.FetchAdd? then Max(top, Apply(s, step).live) else top)
  {
    StepKeepsInv(s, step);
    var s' := Apply(s, step);
    if s.peak != top {
      var t :| t in s.threads && s.threads[t].Added? && s.threads[t].now == top;
      assert t != step.t ==> t in s'.threads && s'.threads[t] == s.threads[t];
    }
    if step.FetchAdd? {
      assert s'.threads[step.t] == Added(s.threads[step.t].block, s'.live);
    }
  }

  /** **When other threads run between the load and the store.** Let `base` be the `LIVE` loaded and `s` the
      state at the store. What is reported is the highest `LIVE` that an addition reached during the region,
      above the baseline: a `LIVE` that was higher only before the store is not seen. */
  lemma PeakDuringWithRace(base: nat, s: State, steps: seq<Step>)
    requires Inv(s) && Quiescent(s)
    requires ValidRun(Entered(base, s), steps) && Quiescent(After(Entered(base, s), steps))
    ensures Reported(base, After(Entered(base, s), steps)) == Max(base, HighestAdded(Entered(base, s), steps)) - base
  {
    RunTracksAdds(Entered(base, s), steps, base);
  }

  lemma {:induction false} HighestFromStart(s: State, steps: seq<Step>)
    requires ValidRun(s, steps)
    ensures s.live <= HighestLive(s, steps)
  {
    if steps != [] { HighestFromStart(s, steps[..|steps| - 1]); }
  }

  /** However the run goes on, `PEAK` never exceeds the highest `LIVE` since. */
  ghost predicate PeakStaysTrue(s: State) {
    forall steps :: ValidRun(s, steps) ==> After(s, steps).peak <= HighestLive(s, steps)
  }

  /** Neither `PEAK` nor any maximum still in flight is above `LIVE`. */
  ghost predicate NothingAboveLive(s: State) {
    s.peak <= s.live && forall t :: t in s.threads && s.threads[t].Added? ==> s.threads[t].now <= s.live
  }

  /** **When a reset is sound.** After a reset `PEAK` stays at or below the highest `LIVE` since then,
      however the run goes on, exactly when neither the value stored nor any maximum still in flight
      exceeds `LIVE` at that moment. */
  lemma ResetIsSound(s: State)
    requires Inv(s) && forall t :: t in s.threads ==> t in s.bumped
    ensures PeakStaysTrue(s) <==> NothingAboveLive(s)
  {
    if NothingAboveLive(s) {
      forall steps | ValidRun(s, steps) ensures After(s, steps).peak <= HighestLive(s, steps) {
        RunBoundsPeak(s, steps);
      }
    }
    if PeakStaysTrue(s) {
      assert ValidRun(s, []) && After(s, []) == s && HighestLive(s, []) == s.live;
      forall t | t in s.threads && s.threads[t].Added? ensures s.threads[t].now <= s.live {
        var one := [FetchMax(t)];
        assert one[..0] == [];
        assert ValidRun(s, one) && After(s, one) == Apply(s, FetchMax(t));
        assert HighestLive(s, one) == s.live;
      }
    }
  }

  lemma {:induction false} RunBoundsPeak(s: State, steps: seq<Step>)
    requires Inv(s) && ValidRun(s, steps) && NothingAboveLive(s)
    ensures var e, top := After(s, steps), HighestLive(s, steps);
            e.peak <= top && forall t :: t in e.threads && e.threads[t].Added? ==> e.threads[t].now <= top
  {
    if steps != [] {
      var init, step := steps[..|steps| - 1], steps[|steps| - 1];
      RunKeepsInv(s, init);
      RunBoundsPeak(s, init);
      StepKeepsInv(After(s, init), step);
    }
  }

  /** Bytes a run attributes to thread `t`: the blocks whose allocation it completed there. */
  ghost function Attributed(s: State, steps: seq<Step>, t: Tid): nat
    requires ValidRun(s, steps)
  {
    if steps == [] then 0
    else
      var init, step := steps[..|steps| - 1], steps[|steps| - 1];
      Attributed(s, init, t) +
      if step.Bump? && step.t == t && step.tlsAlive then After(s, init).heap[After(s, init).threads[t].block] else 0
  }

  /** A difference of two `thread_allocated` readings is what that thread allocated in between,
      whatever the other threads do, and frees are not subtracted. */
  lemma {:induction false} ThreadDelta(s: State, steps: seq<Step>, t: Tid)
    requires ValidRun(s, steps) && t in s.bumped && s.bumped[t] < WORD
    ensures t in After(s, steps).bumped
    ensures After(s, steps).bumped[t] == (s.bumped[t] + Attributed(s, steps, t)) % 0x1_0000_0000_0000_0000
  {
    if steps != [] {
      ThreadDelta(s, steps[..|steps| - 1], t);
    }
  }
}
