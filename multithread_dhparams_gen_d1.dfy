/**
  * The service of multithread_dhparams_gen_d1.py, the version without persistence: the
  * module-level stock queue and the replenishment flag. Without a save that can raise, the flag
  * keeps the controller invariant at all times: it is on only while the stock is not full.
  */
module MultithreadDhparamsGenD1 {
  import opened Wrappers
  import opened Config
  import opened StockPool

  class Service {
    var stock: seq<string>
    var replenishmentActive: bool

    ghost predicate Valid()
      reads this
    {
      Hysteresis(State())
    }

    function State(): PoolState
      reads this
    {
      PoolState(stock, replenishmentActive)
    }

    /** Module start-up: an empty bounded queue and replenishment off. */
    constructor ()
      ensures Valid() && stock == [] && !replenishmentActive
    {
      stock := [];
      replenishmentActive := false;
    }

    /** `dh_params_stock.put`: appends at the tail; a full queue would block, so the caller must leave room. */
    method Put(param: string)
      requires |stock| < STOCK_SIZE
      modifies this`stock
      ensures stock == old(stock) + [param]
    {
      stock := stock + [param];
    }

    /**
      * The `__main__` seeding: puts the INITIAL_STOCK freshly generated parameters `initial`
      * before the replenishment worker starts, so with the flag still off.
      */
    method SeedInitialStock(initial: seq<string>)
      requires Valid() && !replenishmentActive
      requires |initial| == INITIAL_STOCK && |stock| + INITIAL_STOCK <= STOCK_SIZE
      modifies this`stock
      ensures Valid() && stock == old(stock) + initial
    {
      for i := 0 to INITIAL_STOCK
        invariant stock == old(stock) + initial[..i]
      {
        assert initial[..i + 1] == initial[..i] + [initial[i]];
        Put(initial[i]);
      }
      assert initial[..INITIAL_STOCK] == initial;
    }

    /**
      * One iteration of `replenishment_thread`: the activation check, a chunk of generated
      * parameters appended, and the deactivation check. A failed generation ends the iteration
      * before anything is inserted.
      */
    method ReplenishTick(batch: Batch)
      requires Valid() && BatchSupplies(batch)
      modifies this
      ensures Valid()
      ensures State() == Tick(old(State()), batch, false)
    {
      if !replenishmentActive && |stock| < REPLENISH_THRESHOLD {
        replenishmentActive := true;
      }

      if replenishmentActive {
        var missingCount := STOCK_SIZE - |stock|;
        var chunkSize := Min(REPLENISH_CHUNK_SIZE, missingCount);
        var generated := Generate(batch, chunkSize);
        if generated.None? {
          return;
        }
        var newParams := generated.value;
        for i := 0 to |newParams|
          invariant stock == old(stock) + newParams[..i]
          invariant replenishmentActive
        {
          assert newParams[..i + 1] == newParams[..i] + [newParams[i]];
          Put(newParams[i]);
        }
        assert newParams[..|newParams|] == newParams;

        if |stock| >= STOCK_SIZE {
          replenishmentActive := false;
        }
      }
      TickKeepsHysteresis(old(State()), batch);
    }

    /** `get_dh_param`: serves the oldest parameter, or the 503 response with the stock unchanged. */
    method GetDhParam() returns (resp: Response)
      requires Valid()
      modifies this`stock
      ensures Valid()
      ensures old(stock) == [] ==> resp == Response(EMPTY_MESSAGE, HTTP_SERVICE_UNAVAILABLE) && stock == old(stock)
      ensures old(stock) != [] ==> resp == Response(old(stock)[0], HTTP_OK) && stock == old(stock)[1..]
      ensures State() == TakeOne(old(State())).1 && resp == ResponseFor(TakeOne(old(State())).0)
    {
      if stock == [] {
        resp := Response(EMPTY_MESSAGE, HTTP_SERVICE_UNAVAILABLE);
      } else {
        var dhParam := stock[0];
        stock := stock[1..];
        resp := Response(dhParam, HTTP_OK);
      }
    }
  }
}
