/**
  * The persistent service of old_ver_pile/dhparam_final_copy.py. It differs from dhparam_final.py
  * in two places: `load_stock` catches only a missing file, so an unreadable or corrupt file
  * raises out of `init_application`; and `init_application` starts the replenishment worker only
  * when none is running yet.
  */
module DhParamFinalCopy {
  import opened Wrappers
  import opened Config
  import opened Snapshot
  import opened StockPool

  /**
    * The parameters `load_stock` inserts when it finds the file in the given state, or `None`
    * when it raises: only a missing file is caught, and it inserts nothing.
    */
  function LoadOutcome(file: FileState): (r: Option<seq<string>>)
    ensures file.Missing? ==> r == Some([])
    ensures r.Some? ==> |r.value| <= STOCK_SIZE
    ensures file.Unreadable? ==> r.None?
    ensures file.Present? ==> (r.None? <==> ReadRecords(file.text).None?)
    ensures file.Present? && r.Some? ==> r.value <= ReadRecords(file.text).value
    ensures file.Present? && r.Some? ==> |r.value| == Min(|ReadRecords(file.text).value|, STOCK_SIZE)
  {
    match file
    case Missing => Some([])
    case Unreadable => None
    case Present(text) =>
      match ReadRecords(text)
      case Some(params) => Some(Capped(params))
      case None => None
  }

  /** The number of parameters a load may insert. */
  function LoadSize(file: FileState): nat {
    match LoadOutcome(file)
    case Some(params) => |params|
    case None => 0
  }

  /** Loading a file just written by a save of a stock within capacity reproduces that stock. */
  lemma LoadAfterSave(params: seq<string>)
    requires |params| <= STOCK_SIZE
    ensures LoadOutcome(Present(Serialize(params))) == Some(params)
  {
    ReadSerialized(params);
  }

  /** A file holding more than STOCK_SIZE records loads only the first STOCK_SIZE of them. */
  lemma LoadKeepsOldestRecords(params: seq<string>)
    requires |params| > STOCK_SIZE
    ensures LoadOutcome(Present(Serialize(params))) == Some(params[..STOCK_SIZE])
  {
    ReadSerialized(params);
  }

  class Service {
    var stock: seq<string>
    var replenishmentActive: bool
    var stockFile: FileState
    /** Replenishment workers started so far; a started worker runs for the life of the process. */
    var workerStarts: nat

    ghost predicate Valid()
      reads this
    {
      |stock| <= STOCK_SIZE && workerStarts <= 1
    }

    function State(): PoolState
      reads this
    {
      PoolState(stock, replenishmentActive)
    }

    /** Module start-up: an empty bounded queue, replenishment off, no worker, and the file as found on disk. */
    constructor (file: FileState)
      ensures Valid() && stock == [] && !replenishmentActive && stockFile == file && workerStarts == 0
    {
      stock := [];
      replenishmentActive := false;
      stockFile := file;
      workerStarts := 0;
    }

    /** `dh_params_stock.put`: appends at the tail; a full queue would block, so the caller must leave room. */
    method Put(param: string)
      requires |stock| < STOCK_SIZE
      modifies this`stock
      ensures stock == old(stock) + [param]
    {
      stock := stock + [param];
    }

    /**
      * `save_stock`: drains the queue into a list and a temporary queue, restores the queue from
      * the temporary one, then writes one record per parameter. `writable` says whether the file
      * can be opened for writing; when not, the exception leaves the file as it was.
      */
    method SaveStock(writable: bool) returns (raised: bool)
      requires Valid()
      modifies this`stock, this`stockFile
      ensures Valid() && stock == old(stock)
      ensures raised == !writable
      ensures stockFile == if writable then Present(Serialize(old(stock))) else old(stockFile)
    {
      var paramsList: seq<string> := [];
      var tempQueue: seq<string> := [];
      while stock != []
        invariant paramsList + stock == old(stock)
        invariant tempQueue == paramsList
        invariant stockFile == old(stockFile)
        decreases |stock|
      {
        var param := stock[0];
        stock := stock[1..];
        paramsList := paramsList + [param];
        tempQueue := tempQueue + [param];
      }

      while tempQueue != []
        invariant stock + tempQueue == old(stock) && paramsList == old(stock)
        invariant stockFile == old(stockFile)
        decreases |tempQueue|
      {
        Put(tempQueue[0]);
        tempQueue := tempQueue[1..];
      }

      if !writable {
        return true;
      }
      var text := WriteRecords(paramsList);
      stockFile := Present(text);
      raised := false;
    }

    /**
      * `load_stock`: inserts the first STOCK_SIZE records of the file's non-blank lines, or nothing
      * when the file is missing; `raised` when the file cannot be read or a line does not decode.
      */
    method LoadStock() returns (raised: bool)
      requires |stock| + LoadSize(stockFile) <= STOCK_SIZE
      modifies this`stock
      ensures raised <==> LoadOutcome(stockFile).None?
      ensures stock == old(stock) + (if raised then [] else LoadOutcome(stockFile).value)
    {
      match LoadOutcome(stockFile) {
        case None =>
          return true;
        case Some(params) =>
          for i := 0 to |params|
            invariant stock == old(stock) + params[..i]
          {
            assert params[..i + 1] == params[..i] + [params[i]];
            Put(params[i]);
          }
          assert params[..|params|] == params;
          raised := false;
      }
    }

    /**
      * One iteration of `replenishment_thread`: the activation check, a chunk of generated
      * parameters appended, a save, and the deactivation check. An exception (a failed
      * generation, an unwritable file) ends the iteration where it is raised.
      */
    method ReplenishTick(batch: Batch, writable: bool)
      requires Valid() && BatchSupplies(batch)
      modifies this
      ensures Valid()
      ensures State() == Tick(old(State()), batch, !writable)
      ensures stockFile == if Refills(old(State()), batch) && writable then Present(Serialize(stock)) else old(stockFile)
      ensures workerStarts == old(workerStarts)
    {
      if !replenishmentActive && |stock| < REPLENISH_THRESHOLD {
        replenishmentActive := true;
      }

      if replenishmentActive {
        var missingCount := STOCK_SIZE - |stock|;
        var chunkSize := Min(REPLENISH_CHUNK_SIZE, missingCount);
        var generated := Generate(batch, chunkSize);
        if generated.None? {
          return;
        }
        var newParams := generated.value;
        for i := 0 to |newParams|
          invariant stock == old(stock) + newParams[..i]
          invariant stockFile == old(stockFile) && replenishmentActive
          invariant workerStarts == old(workerStarts)
        {
          assert newParams[..i + 1] == newParams[..i] + [newParams[i]];
          Put(newParams[i]);
        }
        assert newParams[..|newParams|] == newParams;

        var raised := SaveStock(writable);
        if raised {
          return;
        }

        if |stock| >= STOCK_SIZE {
          replenishmentActive := false;
        }
      }
    }

    /** `get_dh_param`: serves the oldest parameter, or the 503 response with the stock unchanged. */
    method GetDhParam() returns (resp: Response)
      requires Valid()
      modifies this`stock
      ensures Valid()
      ensures old(stock) == [] ==> resp == Response(EMPTY_MESSAGE, HTTP_SERVICE_UNAVAILABLE) && stock == old(stock)
      ensures old(stock) != [] ==> resp == Response(old(stock)[0], HTTP_OK) && stock == old(stock)[1..]
      ensures State() == TakeOne(old(State())).1 && resp == ResponseFor(TakeOne(old(State())).0)
    {
      if stock == [] {
        resp := Response(EMPTY_MESSAGE, HTTP_SERVICE_UNAVAILABLE);
      } else {
        var dhParam := stock[0];
        stock := stock[1..];
        resp := Response(dhParam, HTTP_OK);
      }
    }

    /**
      * `init_application`: load, and only when the stock is still empty, insert the INITIAL_STOCK
      * freshly generated parameters `initial` and save; then start a replenishment worker unless
      * one is already running. `started` is false when the load or that save raised, which ends
      * the start-up before the worker is started.
      */
    method InitApplication(initial: seq<string>, writable: bool) returns (started: bool)
      requires Valid() && |initial| == INITIAL_STOCK
      requires |stock| + LoadSize(stockFile) <= STOCK_SIZE
      modifies this
      ensures Valid() && replenishmentActive == old(replenishmentActive)
      ensures LoadOutcome(old(stockFile)).None? ==>
        !started && stock == old(stock) && stockFile == old(stockFile) && workerStarts == old(workerStarts)
      ensures LoadOutcome(old(stockFile)).Some? ==>
        var loaded := old(stock) + LoadOutcome(old(stockFile)).value;
        if loaded != [] then stock == loaded && stockFile == old(stockFile) && started
        else (stock == initial && started == writable
              && stockFile == if writable then Present(Serialize(initial)) else old(stockFile))
      ensures workerStarts == if started && old(workerStarts) == 0 then 1 else old(workerStarts)
    {
      var raised := LoadStock();
      if raised {
        return false;
      }
      if stock == [] {
        for i := 0 to INITIAL_STOCK
          invariant stock == initial[..i]
          invariant stockFile == old(stockFile) && replenishmentActive == old(replenishmentActive)
          invariant workerStarts == old(workerStarts)
        {
          assert initial[..i + 1] == initial[..i] + [initial[i]];
          Put(initial[i]);
        }
        assert initial[..INITIAL_STOCK] == initial;
        raised := SaveStock(writable);
        if raised {
          return false;
        }
      }
      started := true;
      if workerStarts == 0 {
        workerStarts := 1;
      }
    }
  }

  /**
    * A save followed by a restart: a service holding `params` saves them, and a fresh service
    * started on the file it wrote loads exactly `params` back, in order.
    */
  method RestartRestoresSavedStock(params: seq<string>) returns (restored: seq<string>)
    requires |params| <= STOCK_SIZE
    ensures restored == params
  {
    var before := new Service(Missing);
    for i := 0 to |params|
      invariant before.Valid() && before.stock == params[..i]
    {
      assert params[..i + 1] == params[..i] + [params[i]];
      before.Put(params[i]);
    }
    assert params[..|params|] == params;
    var _ := before.SaveStock(true);
    var after := new Service(before.stockFile);
    LoadAfterSave(params);
    var raised := after.LoadStock();
    assert !raised;
    restored := after.stock;
  }
}
