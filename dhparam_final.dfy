/**
  * The persistent service of old_ver_pile/dhparam_final.py: the module-level stock queue, the
  * replenishment flag and the stock file, with the operations that change them. `load_stock`
  * here catches every exception, so a missing, unreadable or corrupt file all leave the stock as
  * it was.
  */
module DhParamFinal {
  import opened Wrappers
  import opened Config
  import opened Snapshot
  import opened StockPool

  /** The parameters `load_stock` inserts when it finds the file in the given state. */
  function LoadedRecords(file: FileState): (r: seq<string>)
    ensures |r| <= STOCK_SIZE
    ensures file.Present? && ReadRecords(file.text).Some? ==> r <= ReadRecords(file.text).value
    ensures file.Present? && ReadRecords(file.text).Some? ==> |r| == Min(|ReadRecords(file.text).value|, STOCK_SIZE)
    ensures !file.Present? || ReadRecords(file.text).None? ==> r == []
  {
    if !file.Present? then []
    else match ReadRecords(file.text)
      case Some(params) => Capped(params)
      case None => []
  }

  /** Loading a file just written by a save of a stock within capacity reproduces that stock. */
  lemma LoadAfterSave(params: seq<string>)
    requires |params| <= STOCK_SIZE
    ensures LoadedRecords(Present(Serialize(params))) == params
  {
    ReadSerialized(params);
  }

  /** A file holding more than STOCK_SIZE records loads only the first STOCK_SIZE of them. */
  lemma LoadKeepsOldestRecords(params: seq<string>)
    requires |params| > STOCK_SIZE
    ensures LoadedRecords(Present(Serialize(params))) == params[..STOCK_SIZE]
  {
    ReadSerialized(params);
  }

  class Service {
    var stock: seq<string>
    var replenishmentActive: bool
    var stockFile: FileState

    ghost predicate Valid()
      reads this
    {
      |stock| <= STOCK_SIZE
    }

    function State(): PoolState
      reads this
    {
      PoolState(stock, replenishmentActive)
    }

    /** Module start-up: an empty bounded queue, replenishment off, and the file as found on disk. */
    constructor (file: FileState)
      ensures Valid() && stock == [] && !replenishmentActive && stockFile == file
    {
      stock := [];
      replenishmentActive := false;
      stockFile := file;
    }

    /** `dh_params_stock.put`: appends at the tail; a full queue would block, so the caller must leave room. */
    method Put(param: string)
      requires |stock| < STOCK_SIZE
      modifies this`stock
      ensures stock == old(stock) + [param]
    {
      stock := stock + [param];
    }

    /**
      * `save_stock`: drains the queue into a list and a temporary queue, restores the queue from
      * the temporary one, then writes one record per parameter. `writable` says whether the file
      * can be opened for writing; when not, the exception leaves the file as it was.
      */
    method SaveStock(writable: bool) returns (raised: bool)
      requires Valid()
      modifies this`stock, this`stockFile
      ensures Valid() && stock == old(stock)
      ensures raised == !writable
      ensures stockFile == if writable then Present(Serialize(old(stock))) else old(stockFile)
    {
      var paramsList: seq<string> := [];
      var tempQueue: seq<string> := [];
      while stock != []
        invariant paramsList + stock == old(stock)
        invariant tempQueue == paramsList
        invariant stockFile == old(stockFile)
        decreases |stock|
      {
        var param := stock[0];
        stock := stock[1..];
        paramsList := paramsList + [param];
        tempQueue := tempQueue + [param];
      }

      while tempQueue != []
        invariant stock + tempQueue == old(stock) && paramsList == old(stock)
        invariant stockFile == old(stockFile)
        decreases |tempQueue|
      {
        Put(tempQueue[0]);
        tempQueue := tempQueue[1..];
      }

      if !writable {
        return true;
      }
      var text := WriteRecords(paramsList);
      stockFile := Present(text);
      raised := false;
    }

    /**
      * `load_stock`: inserts the first STOCK_SIZE records of the file's non-blank lines; any
      * failure (missing file, read error, a line that does not decode) inserts nothing.
      */
    method LoadStock()
      requires |stock| + |LoadedRecords(stockFile)| <= STOCK_SIZE
      modifies this`stock
      ensures Valid() && stock == old(stock) + LoadedRecords(stockFile)
    {
      var params := LoadedRecords(stockFile);
      for i := 0 to |params|
        invariant stock == old(stock) + params[..i]
      {
        assert params[..i + 1] == params[..i] + [params[i]];
        Put(params[i]);
      }
      assert params[..|params|] == params;
    }

    /**
      * One iteration of `replenishment_thread`: the activation check, a chunk of generated
      * parameters appended, a save, and the deactivation check. An exception (a failed
      * generation, an unwritable file) ends the iteration where it is raised.
      */
    method ReplenishTick(batch: Batch, writable: bool)
      requires Valid() && BatchSupplies(batch)
      modifies this
      ensures Valid()
      ensures State() == Tick(old(State()), batch, !writable)
      ensures stockFile == if Refills(old(State()), batch) && writable then Present(Serialize(stock)) else old(stockFile)
    {
      if !replenishmentActive && |stock| < REPLENISH_THRESHOLD {
        replenishmentActive := true;
      }

      if replenishmentActive {
        var missingCount := STOCK_SIZE - |stock|;
        var chunkSize := Min(REPLENISH_CHUNK_SIZE, missingCount);
        var generated := Generate(batch, chunkSize);
        if generated.None? {
          return;
        }
        var newParams := generated.value;
        for i := 0 to |newParams|
          invariant stock == old(stock) + newParams[..i]
          invariant stockFile == old(stockFile) && replenishmentActive
        {
          assert newParams[..i + 1] == newParams[..i] + [newParams[i]];
          Put(newParams[i]);
        }
        assert newParams[..|newParams|] == newParams;

        var raised := SaveStock(writable);
        if raised {
          return;
        }

        if |stock| >= STOCK_SIZE {
          replenishmentActive := false;
        }
      }
    }

    /** `get_dh_param`: serves the oldest parameter, or the 503 response with the stock unchanged. */
    method GetDhParam() returns (resp: Response)
      requires Valid()
      modifies this`stock
      ensures Valid()
      ensures old(stock) == [] ==> resp == Response(EMPTY_MESSAGE, HTTP_SERVICE_UNAVAILABLE) && stock == old(stock)
      ensures old(stock) != [] ==> resp == Response(old(stock)[0], HTTP_OK) && stock == old(stock)[1..]
      ensures State() == TakeOne(old(State())).1 && resp == ResponseFor(TakeOne(old(State())).0)
    {
      if stock == [] {
        resp := Response(EMPTY_MESSAGE, HTTP_SERVICE_UNAVAILABLE);
      } else {
        var dhParam := stock[0];
        stock := stock[1..];
        resp := Response(dhParam, HTTP_OK);
      }
    }

    /**
      * The stock-seeding part of `init_application`: load, and only when the stock is still empty,
      * insert the INITIAL_STOCK freshly generated parameters `initial` and save. `started` is false
      * when that save raised, which aborts the start-up.
      */
    method InitApplication(initial: seq<string>, writable: bool) returns (started: bool)
      requires |initial| == INITIAL_STOCK
      requires |stock| + |LoadedRecords(stockFile)| <= STOCK_SIZE
      modifies this
      ensures Valid() && replenishmentActive == old(replenishmentActive)
      ensures var loaded := old(stock) + LoadedRecords(old(stockFile));
        if loaded != [] then stock == loaded && stockFile == old(stockFile) && started
        else (stock == initial && started == writable
              && stockFile == if writable then Present(Serialize(initial)) else old(stockFile))
    {
      LoadStock();
      started := true;
      if stock == [] {
        for i := 0 to INITIAL_STOCK
          invariant stock == initial[..i]
          invariant stockFile == old(stockFile) && replenishmentActive == old(replenishmentActive)
        {
          assert initial[..i + 1] == initial[..i] + [initial[i]];
          Put(initial[i]);
        }
        assert initial[..INITIAL_STOCK] == initial;
        var raised := SaveStock(writable);
        started := !raised;
      }
    }
  }

  /**
    * A save followed by a restart: a service holding `params` saves them, and a fresh service
    * started on the file it wrote loads exactly `params` back, in order.
    */
  method RestartRestoresSavedStock(params: seq<string>) returns (restored: seq<string>)
    requires |params| <= STOCK_SIZE
    ensures restored == params
  {
    var before := new Service(Missing);
    for i := 0 to |params|
      invariant before.Valid() && before.stock == params[..i]
    {
      assert params[..i + 1] == params[..i] + [params[i]];
      before.Put(params[i]);
    }
    assert params[..|params|] == params;
    var _ := before.SaveStock(true);
    var after := new Service(before.stockFile);
    LoadAfterSave(params);
    after.LoadStock();
    restored := after.stock;
  }
}
