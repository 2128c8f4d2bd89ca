/**
  * The sequential logic shared by the three versions of the service: the bounded FIFO stock, the
  * two-state replenishment controller and the non-blocking take. A state of the pool is the queue
  * contents (oldest first) and the `replenishment_active` flag; one controller tick and one take
  * are atomic transitions on it, so a take may happen between any two ticks.
  */
module StockPool {
  import opened Wrappers
  import opened Config

  datatype PoolState = PoolState(stock: seq<string>, active: bool)

  /**
    * What the generator yields when asked for parameters during one tick: `Generated(supply)` when
    * every generation succeeds, the chunk being the first items of `supply`; `GenerationFailed`
    * when some generation raises, which aborts the tick before anything is inserted.
    */
  datatype Batch = Generated(supply: seq<string>) | GenerationFailed

  /** The generator can always make a full chunk. */
  predicate BatchSupplies(batch: Batch) {
    batch.Generated? ==> |batch.supply| >= REPLENISH_CHUNK_SIZE
  }

  /** HTTP response of the take endpoint (text/plain). */
  datatype Response = Response(body: string, status: nat)

  const HTTP_OK: nat := 200
  const HTTP_SERVICE_UNAVAILABLE: nat := 503
  const EMPTY_MESSAGE: string := "Stock is empty, please retry shortly."

  function Min(a: int, b: int): int {
    if a <= b then a else b
  }

  // ---------------------------------------------------------------- replenishment tick

  /** The flag after the activation check: switched on when off and occupancy is below the threshold. */
  predicate ActiveAfterCheck(s: PoolState) {
    s.active || |s.stock| < REPLENISH_THRESHOLD
  }

  /** `min(REPLENISH_CHUNK_SIZE, STOCK_SIZE - qsize)`: never more than the chunk size or the free room. */
  function ChunkSize(occupancy: nat): (n: int)
    ensures n <= REPLENISH_CHUNK_SIZE
    ensures occupancy <= STOCK_SIZE ==> 0 <= n && occupancy + n <= STOCK_SIZE
    ensures occupancy <= STOCK_SIZE ==> n == REPLENISH_CHUNK_SIZE || occupancy + n == STOCK_SIZE
  {
    Min(REPLENISH_CHUNK_SIZE, STOCK_SIZE - occupancy)
  }

  /** The parameters made by generating once per element of `range(n)`. */
  function Produce(supply: seq<string>, n: int): (items: seq<string>)
    requires n <= |supply|
    ensures |items| == if n <= 0 then 0 else n
    ensures items <= supply
  {
    if n <= 0 then [] else supply[..n]
  }

  /**
    * `list(executor.map(lambda _: generate_dh_param(), range(n)))`: `None` when a generation
    * raises. For `n <= 0` the generator is never called, so nothing can fail and nothing is made.
    */
  function Generate(batch: Batch, n: int): (r: Option<seq<string>>)
    requires BatchSupplies(batch) && n <= REPLENISH_CHUNK_SIZE
    ensures n <= 0 ==> r == Some([])
    ensures n > 0 ==> (r.None? <==> batch.GenerationFailed?)
    ensures r.Some? && n > 0 ==> r.value == batch.supply[..n]
  {
    if n <= 0 then Some([])
    else match batch
      case GenerationFailed => None
      case Generated(supply) => Some(Produce(supply, n))
  }

  /**
    * One iteration of the replenishment loop. `saveRaised` says that the save after the insertions
    * raised (the version without persistence never saves, so it passes false); an exception
    * skips the rest of the iteration, deactivation check included.
    */
  function Tick(s: PoolState, batch: Batch, saveRaised: bool): (r: PoolState)
    requires BatchSupplies(batch)
    ensures s.stock <= r.stock
    ensures |s.stock| <= STOCK_SIZE ==> |r.stock| <= STOCK_SIZE
    ensures !r.active ==> r.stock == s.stock || |r.stock| >= STOCK_SIZE
  {
    if !ActiveAfterCheck(s) then s
    else match Generate(batch, ChunkSize(|s.stock|))
      case None => PoolState(s.stock, true)
      case Some(items) =>
        var stock := s.stock + items;
        PoolState(stock, saveRaised || |stock| < STOCK_SIZE)
  }

  /** True when the tick gets as far as inserting a chunk (and, in the persistent versions, saving). */
  predicate Refills(s: PoolState, batch: Batch)
    requires BatchSupplies(batch)
  {
    ActiveAfterCheck(s) && Generate(batch, ChunkSize(|s.stock|)).Some?
  }

  // ---------------------------------------------------------------- take

  /** `get_nowait`: the oldest parameter and the rest, or nothing and no change on an empty stock. */
  function TakeOne(s: PoolState): (r: (Option<string>, PoolState))
    ensures r.1.active == s.active
    ensures r.0.None? <==> s.stock == []
    ensures r.0.None? ==> r.1 == s
    ensures r.0.Some? ==> [r.0.value] + r.1.stock == s.stock
  {
    if s.stock == [] then (None, s) else (Some(s.stock[0]), PoolState(s.stock[1..], s.active))
  }

  /** The response served for a take: the parameter with status 200, or the retry message with 503. */
  function ResponseFor(taken: Option<string>): (r: Response)
    ensures r.status == HTTP_OK <==> taken.Some?
    ensures r.status != HTTP_OK ==> r == Response(EMPTY_MESSAGE, HTTP_SERVICE_UNAVAILABLE)
    ensures taken.Some? ==> r.body == taken.value
  {
    match taken
    case Some(p) => Response(p, HTTP_OK)
    case None => Response(EMPTY_MESSAGE, HTTP_SERVICE_UNAVAILABLE)
  }

  /** `n` takes in a row. */
  function TakeMany(s: PoolState, n: nat): (seq<Option<string>>, PoolState)
    decreases n
  {
    if n == 0 then ([], s)
    else
      var first := TakeOne(s);
      var more := TakeMany(first.1, n - 1);
      ([first.0] + more.0, more.1)
  }

  // ---------------------------------------------------------------- properties of one tick

  /** A tick never overfills: the stock stays within capacity. */
  lemma TickWithinCapacity(s: PoolState, batch: Batch, saveRaised: bool)
    requires BatchSupplies(batch) && |s.stock| <= STOCK_SIZE
    ensures |Tick(s, batch, saveRaised).stock| <= STOCK_SIZE
  {
  }

  /** An idle controller is switched on only below the threshold; otherwise the tick changes nothing. */
  lemma TickActivation(s: PoolState, batch: Batch, saveRaised: bool)
    requires BatchSupplies(batch) && !s.active
    ensures Tick(s, batch, saveRaised).active ==> |s.stock| < REPLENISH_THRESHOLD
    ensures |s.stock| >= REPLENISH_THRESHOLD ==> Tick(s, batch, saveRaised) == s
  {
  }

  /** An active tick appends exactly `ChunkSize` generated parameters at the tail; a chunk of 0 appends nothing. */
  lemma TickAppendsChunk(s: PoolState, batch: Batch, saveRaised: bool)
    requires BatchSupplies(batch) && |s.stock| <= STOCK_SIZE && Refills(s, batch)
    ensures var t := Tick(s, batch, saveRaised);
      |t.stock| == |s.stock| + ChunkSize(|s.stock|)
      && t.stock == s.stock + Generate(batch, ChunkSize(|s.stock|)).value
    ensures batch.Generated? ==> Tick(s, batch, saveRaised).stock == s.stock + batch.supply[..ChunkSize(|s.stock|)]
    ensures ChunkSize(|s.stock|) == 0 ==> Tick(s, batch, saveRaised).stock == s.stock
  {
  }

  /**
    * A failed generation inserts nothing and leaves the controller active. With no room left the
    * generator is not called at all, so the tick goes on to the save and the deactivation check.
    */
  lemma TickGenerationFailure(s: PoolState, saveRaised: bool)
    requires ActiveAfterCheck(s)
    ensures ChunkSize(|s.stock|) > 0 ==> Tick(s, GenerationFailed, saveRaised) == PoolState(s.stock, true)
    ensures ChunkSize(|s.stock|) <= 0 ==>
      Tick(s, GenerationFailed, saveRaised) == PoolState(s.stock, saveRaised || |s.stock| < STOCK_SIZE)
  {
  }

  /**
    * After a refill the controller is switched off exactly when the stock is full, unless the
    * save raised, which skips that check and leaves it on.
    */
  lemma TickDeactivation(s: PoolState, batch: Batch, saveRaised: bool)
    requires BatchSupplies(batch) && Refills(s, batch)
    ensures var t := Tick(s, batch, saveRaised);
      !t.active <==> (!saveRaised && |t.stock| >= STOCK_SIZE)
  {
  }

  /** The controller invariant: within capacity, and active only while not full. */
  predicate Hysteresis(s: PoolState) {
    |s.stock| <= STOCK_SIZE && (s.active ==> |s.stock| < STOCK_SIZE)
  }

  lemma TickKeepsHysteresis(s: PoolState, batch: Batch)
    requires BatchSupplies(batch) && Hysteresis(s)
    ensures Hysteresis(Tick(s, batch, false))
  {
  }

  lemma TakeKeepsHysteresis(s: PoolState)
    requires Hysteresis(s)
    ensures Hysteresis(TakeOne(s).1)
  {
  }

  // ---------------------------------------------------------------- runs of several steps

  /** One atomic step of the pool: a controller tick or a take by a consumer. */
  datatype Step = Replenish(batch: Batch, saveRaised: bool) | Take

  predicate StepTo(s: PoolState, step: Step, t: PoolState) {
    match step
    case Replenish(batch, saveRaised) => BatchSupplies(batch) && t == Tick(s, batch, saveRaised)
    case Take => t == TakeOne(s).1
  }

  /** `states` is a run of the pool driven by `steps`. */
  predicate IsRun(states: seq<PoolState>, steps: seq<Step>) {
    |states| == |steps| + 1
    && forall i :: 0 <= i < |steps| ==> StepTo(states[i], steps[i], states[i + 1])
  }

  /** Every state reachable by ticks and takes is within capacity. */
  lemma {:induction false} RunWithinCapacity(states: seq<PoolState>, steps: seq<Step>)
    requires IsRun(states, steps) && |states[0].stock| <= STOCK_SIZE
    ensures forall i :: 0 <= i < |states| ==> |states[i].stock| <= STOCK_SIZE
  {
    if steps != [] {
      assert StepTo(states[0], steps[0], states[1]);
      if steps[0].Replenish? {
        TickWithinCapacity(states[0], steps[0].batch, steps[0].saveRaised);
      }
      assert IsRun(states[1..], steps[1..]) by {
        forall i | 0 <= i < |steps[1..]| ensures StepTo(states[1..][i], steps[1..][i], states[1..][i + 1]) {
          assert StepTo(states[i + 1], steps[i + 1], states[i + 2]);
        }
      }
      RunWithinCapacity(states[1..], steps[1..]);
      forall i | 0 < i < |states| ensures |states[i].stock| <= STOCK_SIZE {
        assert states[i] == states[1..][i - 1];
      }
    }
  }

  /** No save in the run raised. */
  predicate SavesSucceed(steps: seq<Step>) {
    forall i :: 0 <= i < |steps| ==> steps[i].Replenish? ==> !steps[i].saveRaised
  }

  /**
    * When no save raises, every reachable state keeps the controller invariant: the flag is on
    * only while the stock is not full.
    */
  lemma {:induction false} RunKeepsHysteresis(states: seq<PoolState>, steps: seq<Step>)
    requires IsRun(states, steps) && SavesSucceed(steps) && Hysteresis(states[0])
    ensures forall i :: 0 <= i < |states| ==> Hysteresis(states[i])
  {
    if steps != [] {
      assert StepTo(states[0], steps[0], states[1]);
      if steps[0].Replenish? {
        TickKeepsHysteresis(states[0], steps[0].batch);
      } else {
        TakeKeepsHysteresis(states[0]);
      }
      assert IsRun(states[1..], steps[1..]) by {
        forall i | 0 <= i < |steps[1..]| ensures StepTo(states[1..][i], steps[1..][i], states[1..][i + 1]) {
          assert StepTo(states[i + 1], steps[i + 1], states[i + 2]);
        }
      }
      assert SavesSucceed(steps[1..]) by {
        forall i | 0 <= i < |steps[1..]| && steps[1..][i].Replenish? ensures !steps[1..][i].saveRaised {
          assert steps[1..][i] == steps[i + 1];
        }
      }
      RunKeepsHysteresis(states[1..], steps[1..]);
      forall i | 0 < i < |states| ensures Hysteresis(states[i]) {
        assert states[i] == states[1..][i - 1];
      }
    }
  }

  // ---------------------------------------------------------------- liveness of the refill

  /** Number of successful ticks that take an active controller from `occupancy` to a full stock. */
  function TicksToFill(occupancy: nat): (n: nat)
    requires occupancy <= STOCK_SIZE
    ensures n == (STOCK_SIZE - occupancy + REPLENISH_CHUNK_SIZE - 1) / REPLENISH_CHUNK_SIZE
    decreases STOCK_SIZE - occupancy
  {
    if occupancy == STOCK_SIZE then 0 else 1 + TicksToFill(occupancy + ChunkSize(occupancy))
  }

  /** Ticks with nothing consumed: every step is a successful replenishment whose save succeeds. */
  predicate UndisturbedRefill(steps: seq<Step>) {
    forall i :: 0 <= i < |steps| ==> steps[i].Replenish? && steps[i].batch.Generated? && !steps[i].saveRaised
  }

  lemma RunTail(states: seq<PoolState>, steps: seq<Step>)
    requires IsRun(states, steps) && steps != []
    ensures IsRun(states[1..], steps[1..])
    ensures StepTo(states[0], steps[0], states[1])
  {
    forall i | 0 <= i < |steps[1..]| ensures StepTo(states[1..][i], steps[1..][i], states[1..][i + 1]) {
      assert StepTo(states[i + 1], steps[i + 1], states[i + 2]);
    }
  }

  /** A full, idle pool is left alone by undisturbed ticks. */
  lemma {:induction false} FullIdleStaysPut(states: seq<PoolState>, steps: seq<Step>)
    requires IsRun(states, steps) && UndisturbedRefill(steps)
    requires |states[0].stock| == STOCK_SIZE && !states[0].active
    ensures states[|states| - 1] == states[0]
  {
    if steps != [] {
      RunTail(states, steps);
      assert UndisturbedRefill(steps[1..]) by {
        forall i | 0 <= i < |steps[1..]| ensures steps[1..][i] == steps[i + 1] { }
      }
      assert states[1] == states[0];
      FullIdleStaysPut(states[1..], steps[1..]);
    }
  }

  /**
    * Once the controller is triggered, `TicksToFill` undisturbed ticks (or more) bring the stock
    * to capacity and switch the controller off.
    */
  lemma {:induction false} RefillReachesCapacity(states: seq<PoolState>, steps: seq<Step>)
    requires IsRun(states, steps) && UndisturbedRefill(steps)
    requires Hysteresis(states[0]) && ActiveAfterCheck(states[0])
    requires |steps| >= TicksToFill(|states[0].stock|)
    ensures |states[|states| - 1].stock| == STOCK_SIZE && !states[|states| - 1].active
    decreases |steps|
  {
    var s := states[0];
    assert |s.stock| < STOCK_SIZE;
    RunTail(states, steps);
    assert UndisturbedRefill(steps[1..]) by {
      forall i | 0 <= i < |steps[1..]| ensures steps[1..][i] == steps[i + 1] { }
    }
    var t := states[1];
    assert t == Tick(s, steps[0].batch, false);
    TickAppendsChunk(s, steps[0].batch, false);
    if |t.stock| == STOCK_SIZE {
      FullIdleStaysPut(states[1..], steps[1..]);
    } else {
      assert t.active;
      RefillReachesCapacity(states[1..], steps[1..]);
    }
  }

  // ---------------------------------------------------------------- properties of takes

  function Served(items: seq<string>): (r: seq<Option<string>>)
    ensures |r| == |items|
    ensures forall i :: 0 <= i < |items| ==> r[i] == Some(items[i])
  {
    if items == [] then [] else [Some(items[0])] + Served(items[1..])
  }

  /**
    * Takes on a stock holding N parameters serve them oldest first; the (N+1)-th take finds the
    * stock empty.
    */
  lemma {:induction false} TakesServeInOrder(s: PoolState)
    ensures TakeMany(s, |s.stock| + 1) == (Served(s.stock) + [None], PoolState([], s.active))
    decreases |s.stock|
  {
    if s.stock != [] {
      var s1 := PoolState(s.stock[1..], s.active);
      assert TakeOne(s) == (Some(s.stock[0]), s1);
      TakesServeInOrder(s1);
      assert |s.stock| + 1 - 1 == |s1.stock| + 1;
      assert TakeMany(s, |s.stock| + 1) == ([Some(s.stock[0])] + TakeMany(s1, |s1.stock| + 1).0, TakeMany(s1, |s1.stock| + 1).1);
      assert Served(s.stock) + [None] == [Some(s.stock[0])] + (Served(s1.stock) + [None]);
    } else {
      var first := TakeOne(s);
      assert first == (None, s);
      var more := TakeMany(first.1, 0);
      assert more == ([], s);
      assert TakeMany(s, 1) == ([first.0] + more.0, more.1);
      assert [first.0] + more.0 == Served(s.stock) + [None];
    }
  }
}
