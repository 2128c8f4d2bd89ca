# Diffie-Hellman parameter pool — a Dafny model

The service keeps a bounded FIFO stock of pre-generated Diffie-Hellman parameters (PEM text) and
serves one per request. The request path never generates: an empty stock answers 503. A background
controller refills the stock in chunks. It switches on when occupancy falls below a threshold and
off when the stock is full. Two of the three versions also persist the stock to a file with one
JSON string per line, and reload it at start-up.

The repository holds the service three times:

- `old_ver_pile/dhparam_final.py` — persistent; `load_stock` swallows every error.
- `old_ver_pile/dhparam_final_copy.py` — persistent; `load_stock` catches only a missing file, and
  `init_application` starts the replenishment worker only if none is running.
- `multithread_dhparams_gen_d1.py` — no persistence.

Modules:

- `Config` (config.dfy): the four constants (capacity 100, threshold 20, initial stock 10, chunk 5).
- `JsonString` (json_string.dfy): the JSON text of one string, as section 7 of RFC 8259 defines it.
  The encoder follows `json.dump` with its defaults: ASCII-only output, two-character escapes,
  `\uXXXX` for every other character outside space to tilde (the other control characters, DEL and
  non-ASCII), and surrogate pairs beyond U+FFFF. The decoder follows `json.loads` in strict mode: JSON whitespace around the value, raw
  control characters rejected, both hex letter cases accepted, surrogate pairs combined.
- `Snapshot` (snapshot.dfy): the snapshot text. It covers a record per parameter, the whole file,
  the universal-newline translation, line splitting, Python's `str.isspace` blank-line test,
  decoding of the non-blank lines, and the `[:STOCK_SIZE]` cap.
- `StockPool` (stock_pool.dfy): the sequential core shared by all three versions. Its state is
  `PoolState(stock, active)`. It has one controller tick (`Tick`), one take (`TakeOne`), and runs of
  both. Lemmas cover capacity, chunk sizing, hysteresis, refill liveness and take order.
- `DhParamFinal`, `DhParamFinalCopy`, `MultithreadDhparamsGenD1`: one class `Service` per source
  file. Its fields are the module globals (`stock`, `replenishmentActive`, plus `stockFile` and, in
  the copy, `workerStarts`). Its methods are the source functions, written with the source's own
  loops. Each tick method is proved equal to `StockPool.Tick` on the old state. Each save is proved
  to leave the stock as it was and to write `Serialize(stock)`.

Environment outcomes are method parameters:

- what the generator yields (`Batch`: a supply of items, or a failure). A failure matters only when the
  chunk is positive: over `range(0)` the generator is never called;
- whether the stock file can be written (`writable`);
- what the file holds at start-up (`FileState`: `Missing`, `Unreadable` or `Present(text)`).

A raise inside a tick ends that tick where it happens, as the `try` around the loop body does.
A failed generation therefore inserts nothing. After a failed save the deactivation check is
skipped, and the flag stays on.

Details of the code that the model keeps:

- A tick saves even when its chunk is 0, because the save is outside the `if chunk_size > 0`.
- After a failed save the persistent versions can hold a full stock with the flag still on.
  For that reason the controller invariant "active only while not full" (`StockPool.Hysteresis`)
  is proved only for runs where every save succeeds. The version without persistence keeps it
  as its class invariant.
- Start-up always loads first, then generates only if the stock is still empty.
- Save and load keep the queue order exactly.

## Model

| member | source | states |
|---|---|---|
| JsonString.EscapeChar | old_ver_pile/dhparam_final.py:56 | the escape of any character is non-empty printable ASCII |
| JsonString.Encode | old_ver_pile/dhparam_final.py:56 | the JSON text of a string is printable ASCII, quoted at both ends, and never holds a raw line feed or carriage return |
| JsonString.ParseEncodedBody | old_ver_pile/dhparam_final.py:66 | scanning the escaped body of a string plus its closing quote gives back exactly the string and the unread rest |
| JsonString.DecodeEncode | old_ver_pile/dhparam_final.py:66 | `json.loads` of `json.dump(s)` followed by any JSON whitespace (the line feed) is `s` |
| JsonString.UnicodeEscape | old_ver_pile/dhparam_final.py:66 | a `\u` escape consumes four hex digits for a character of the Basic Multilingual Plane, which is their value, and ten for one beyond it, which is joined from a high and a low surrogate; a lone low surrogate, and a high surrogate not followed by a low-surrogate escape, are rejected |
| JsonString.ParseChars | old_ver_pile/dhparam_final.py:66 | the scanner of a string literal consumes at least one character more than the value it yields (the closing quote), so value and unread rest together are shorter than the input |
| JsonString.Decode | old_ver_pile/dhparam_final.py:66 | `json.loads` of one line yields a string at least two characters shorter than the line (the quotation marks); its partner is `DecodeEncode` |
| JsonString.ParseHex4OfHex4 | old_ver_pile/dhparam_final.py:56 | reading back the four lower-case hex digits written for a `\u` escape gives the code unit |
| Snapshot.Records | old_ver_pile/dhparam_final.py:55-57 | one record per parameter, in queue order |
| Snapshot.Serialize | old_ver_pile/dhparam_final.py:54-57 | the text is empty exactly for an empty stock, and starts with the record of the oldest parameter |
| Snapshot.SerializeAppend | old_ver_pile/dhparam_final.py:55-57 | writing one more parameter appends exactly its record to the file text |
| Snapshot.WriteRecords | old_ver_pile/dhparam_final.py:54-57 | the write loop produces exactly `Serialize(params)`, which is one record per parameter in order |
| Snapshot.RecordIsLine | old_ver_pile/dhparam_final.py:56-57 | each record ends with its only line feed and holds no carriage return |
| Snapshot.TranslateNewlines | old_ver_pile/dhparam_final.py:65 | text-mode reading leaves no carriage return and never lengthens the text |
| Snapshot.SplitLines | old_ver_pile/dhparam_final.py:66 | iterating a file yields non-empty lines; all but the last end in their only line feed |
| Snapshot.LineLength | old_ver_pile/dhparam_final.py:66 | the first line of a text reaches its first line feed and no further |
| Snapshot.SplitConcat | old_ver_pile/dhparam_final.py:66 | splitting a text made of whole lines gives back those lines |
| Snapshot.ConcatSplit | old_ver_pile/dhparam_final.py:66 | the lines of any text concatenate back to the text |
| Snapshot.TranslateWithoutCarriageReturn | old_ver_pile/dhparam_final.py:65 | text-mode newline translation leaves a text without carriage returns unchanged |
| Snapshot.SnapshotLines | old_ver_pile/dhparam_final.py:54-57 | read back, a snapshot has exactly one line per saved parameter, in order, each that parameter's record |
| Snapshot.DecodeRecords | old_ver_pile/dhparam_final.py:66 | decoding the non-blank lines of the records gives exactly the parameters |
| Snapshot.ReadSerialized | old_ver_pile/dhparam_final_copy.py:63-64 | reading the file a save wrote gives exactly the saved parameters |
| Snapshot.DecodeLines | old_ver_pile/dhparam_final.py:66 | decoding the non-blank lines yields at most one parameter per line |
| Snapshot.JsonWhitespaceIsSpace | old_ver_pile/dhparam_final.py:66 | `str.isspace` holds for every JSON whitespace character and not for the quotation mark |
| Snapshot.RecordIsNotBlank | old_ver_pile/dhparam_final.py:66 | `line.strip()` of a record is never empty, so no saved record is skipped |
| Snapshot.DecodeOneLine | old_ver_pile/dhparam_final.py:66 | a blank line yields nothing; any other line yields its decoded string, or makes the read fail |
| Snapshot.DecodeLinesAppend | old_ver_pile/dhparam_final.py:66 | decoding two runs of lines fails exactly when one of them fails, and otherwise yields the first run's values then the second's, in line order |
| Snapshot.DecodeLinesSkipsBlank | old_ver_pile/dhparam_final.py:66 | a blank line anywhere in the file changes nothing |
| Snapshot.DecodeLinesFails | old_ver_pile/dhparam_final.py:66 | reading fails exactly when some non-blank line is not the JSON text of a string |
| Snapshot.ReadRecords | old_ver_pile/dhparam_final.py:65-66 | the list comprehension over the file's lines yields at most one parameter per character of the text |
| Snapshot.Capped | old_ver_pile/dhparam_final.py:67 | `params[:STOCK_SIZE]` is a prefix of at most STOCK_SIZE items, all of them when they fit |
| StockPool.Tick | old_ver_pile/dhparam_final.py:80-103 | a tick only appends at the tail, keeps the stock within capacity, and leaves the controller off only when it changed nothing or the stock is full |
| StockPool.TakeOne | multithread_dhparams_gen_d1.py:78 | `get_nowait` returns nothing exactly on an empty stock, changing nothing; otherwise the oldest item, the rest staying in order; the flag is untouched |
| StockPool.ResponseFor | multithread_dhparams_gen_d1.py:80-84 | status 200 exactly when an item was taken, with that item as body; otherwise the 503 retry message |
| StockPool.ChunkSize | old_ver_pile/dhparam_final.py:85-86 | the chunk never exceeds REPLENISH_CHUNK_SIZE or the free room, and equals one of the two |
| StockPool.Generate | old_ver_pile/dhparam_final.py:91-92 | the generated chunk: empty and never failing when the chunk is 0 or less, otherwise a failure exactly when the generator raises, else the first `n` items it yields |
| StockPool.Produce | old_ver_pile/dhparam_final.py:91-92 | generating over `range(n)` makes exactly max(n, 0) items, the first ones the generator yields |
| StockPool.TickWithinCapacity | old_ver_pile/dhparam_final.py:85-95 | a tick keeps the stock within STOCK_SIZE |
| StockPool.TickActivation | old_ver_pile/dhparam_final.py:80-82 | an idle controller at or above the threshold changes nothing; it turns on only below the threshold |
| StockPool.TickAppendsChunk | old_ver_pile/dhparam_final_copy.py:83-95 | a refilling tick appends exactly `ChunkSize` generated items at the tail, the first ones of the supply; a chunk of 0 appends nothing |
| StockPool.TickGenerationFailure | old_ver_pile/dhparam_final.py:91-105 | with a positive chunk, a failed generation inserts nothing and leaves the controller on; with a full stock the generator is not called, so the tick saves and turns the controller off unless the save raised |
| StockPool.TickDeactivation | old_ver_pile/dhparam_final_copy.py:98-105 | after a refill the flag goes off exactly when the save succeeded and the stock is full |
| StockPool.TickKeepsHysteresis | multithread_dhparams_gen_d1.py:43-68 | a tick without a failed save keeps "within capacity, active only while not full" |
| StockPool.TakeKeepsHysteresis | multithread_dhparams_gen_d1.py:78 | a take keeps the same invariant |
| StockPool.RunWithinCapacity | multithread_dhparams_gen_d1.py:49-61 | every state reached by any mix of ticks and takes is within capacity |
| StockPool.RunKeepsHysteresis | multithread_dhparams_gen_d1.py:43-68 | every state reached by ticks and takes with no failed save keeps the controller invariant |
| StockPool.TicksToFill | multithread_dhparams_gen_d1.py:49-50 | refilling from occupancy q takes ceil((STOCK_SIZE - q) / REPLENISH_CHUNK_SIZE) ticks |
| StockPool.RefillReachesCapacity | multithread_dhparams_gen_d1.py:40-71 | once triggered, `TicksToFill` or more successful ticks with nothing consumed leave the stock full and the controller off |
| StockPool.FullIdleStaysPut | multithread_dhparams_gen_d1.py:43-47 | further ticks leave a full, idle pool alone |
| StockPool.TakesServeInOrder | multithread_dhparams_gen_d1.py:78-84 | N takes on N items serve them oldest first, and the next take finds the stock empty |
| DhParamFinal.LoadedRecords | old_ver_pile/dhparam_final.py:61-73 | the load inserts exactly the first min(n, STOCK_SIZE) of the n decoded records, and nothing on a missing, unreadable or corrupt file |
| DhParamFinal.LoadAfterSave | old_ver_pile/dhparam_final.py:64-68 | loading the file a save wrote from a stock within capacity gives back that stock |
| DhParamFinal.LoadKeepsOldestRecords | old_ver_pile/dhparam_final.py:67-68 | a file of more than STOCK_SIZE records loads only the first STOCK_SIZE |
| DhParamFinal.Service.constructor | old_ver_pile/dhparam_final.py:23-24 | start-up state: an empty queue, replenishment off |
| DhParamFinal.Service.Put | old_ver_pile/dhparam_final.py:23 | a put on the bounded queue appends at the tail and needs room |
| DhParamFinal.Service.SaveStock | old_ver_pile/dhparam_final.py:39-58 | drain and restore leave the stock exactly as it was; the file then holds one record per item in queue order; an unwritable file raises and is left alone |
| DhParamFinal.Service.LoadStock | old_ver_pile/dhparam_final.py:61-73 | appends `LoadedRecords(file)` to the stock |
| DhParamFinal.Service.ReplenishTick | old_ver_pile/dhparam_final.py:75-106 | the new pool state is `Tick(old state, batch, save raised)`; the file is rewritten from the new stock exactly when the tick refilled and the file was writable |
| DhParamFinal.Service.GetDhParam | old_ver_pile/dhparam_final.py:109-118 | returns the oldest item with status 200 and removes it; on an empty stock returns the 503 message and changes nothing; the new state and the response are `TakeOne` and `ResponseFor` of the old state |
| DhParamFinal.Service.InitApplication | old_ver_pile/dhparam_final.py:121-132 | loads; only if the stock is then empty inserts the INITIAL_STOCK items and saves them; start-up fails exactly when that save raises |
| DhParamFinal.RestartRestoresSavedStock | old_ver_pile/dhparam_final.py:39-71 | saving a stock and loading the file into a fresh service restores exactly that stock |
| DhParamFinalCopy.LoadOutcome | old_ver_pile/dhparam_final_copy.py:60-69 | a missing file loads nothing; an unreadable or corrupt file raises; otherwise exactly the first min(n, STOCK_SIZE) of the n decoded records are loaded |
| DhParamFinalCopy.LoadAfterSave | old_ver_pile/dhparam_final_copy.py:63-66 | loading the file a save wrote from a stock within capacity gives back that stock |
| DhParamFinalCopy.LoadKeepsOldestRecords | old_ver_pile/dhparam_final_copy.py:65-66 | a file of more than STOCK_SIZE records loads only the first STOCK_SIZE |
| DhParamFinalCopy.Service.constructor | old_ver_pile/dhparam_final_copy.py:24-25 | start-up state: an empty queue, replenishment off, no worker |
| DhParamFinalCopy.Service.Put | old_ver_pile/dhparam_final_copy.py:24 | a put on the bounded queue appends at the tail and needs room |
| DhParamFinalCopy.Service.SaveStock | old_ver_pile/dhparam_final_copy.py:39-58 | drain and restore leave the stock exactly as it was; the file then holds one record per item in queue order |
| DhParamFinalCopy.Service.LoadStock | old_ver_pile/dhparam_final_copy.py:60-69 | raises exactly when `LoadOutcome` is `None`; otherwise appends the loaded records |
| DhParamFinalCopy.Service.ReplenishTick | old_ver_pile/dhparam_final_copy.py:72-108 | the new pool state is `Tick(old state, batch, save raised)`; every refilling tick with a writable file saves the new stock |
| DhParamFinalCopy.Service.GetDhParam | old_ver_pile/dhparam_final_copy.py:111-121 | returns the oldest item with 200 and removes it, or 503 with no change; the new state and the response are `TakeOne` and `ResponseFor` of the old state |
| DhParamFinalCopy.Service.InitApplication | old_ver_pile/dhparam_final_copy.py:133-153 | a raising load aborts start-up with nothing changed; initial generation and a save happen only if the stock is empty after loading; at most one worker is ever started |
| DhParamFinalCopy.RestartRestoresSavedStock | old_ver_pile/dhparam_final_copy.py:39-69 | saving a stock and loading the file into a fresh service restores exactly that stock |
| MultithreadDhparamsGenD1.Service.constructor | multithread_dhparams_gen_d1.py:22-23 | start-up state: an empty queue, replenishment off |
| MultithreadDhparamsGenD1.Service.Put | multithread_dhparams_gen_d1.py:22 | a put on the bounded queue appends at the tail and needs room |
| MultithreadDhparamsGenD1.Service.SeedInitialStock | multithread_dhparams_gen_d1.py:99-100 | start-up appends exactly the INITIAL_STOCK generated items, staying within capacity |
| MultithreadDhparamsGenD1.Service.ReplenishTick | multithread_dhparams_gen_d1.py:38-71 | the new pool state is `Tick(old state, batch, false)`, and the class invariant (active only while not full) is kept |
| MultithreadDhparamsGenD1.Service.GetDhParam | multithread_dhparams_gen_d1.py:74-84 | returns the oldest item with 200 and removes it, or 503 with no change; the new state and the response are `TakeOne` and `ResponseFor` of the old state |

## Left out

- HTTP: the Flask app, the route, `Response` mimetypes, `flask_thread`, `os.nice` and `app.run`. A take returns the body and the status code.
- Threads and timing: the `while True` loops, `time.sleep`, the lock, and the concurrent fan-out of `ThreadPoolExecutor`. The model is sequential. A tick and a take are atomic, and takes happen between ticks. A take that races a tick's several `qsize` reads, or sees the stock emptied during `save_stock`'s drain, is not modelled. Nor is the race of two takes on one item.
- Generation: `generate_dh_param` and the `cryptography` library. What the generator yields is the `Batch` input of a tick and the `initial` input of start-up.
- InitApplication and SeedInitialStock: a generation that raises during start-up seeding is not modelled. In `init_application` (both persistent versions) and in the `__main__` block of `multithread_dhparams_gen_d1.py` (lines 99-100) it aborts start-up with part of the seed inserted; the model takes the INITIAL_STOCK items as given.
- File I/O: the file is its text, or `Missing` or `Unreadable`. Character decoding of the bytes, the path `STOCK_FILE`, and a write that fails midway are not modelled. The `"w+"` and `"w"` open modes behave alike here.
- JsonString.Decode: only a JSON string is decoded. A line holding another JSON value (a number, a list) would be inserted into the stock by the source as a non-string; the model treats such a line as undecodable. A `\u` escape of a lone surrogate decodes in Python to a string that a Dafny `char` cannot hold, so the model treats it as undecodable too.
- Logging: every `print`.
- Thread start-up in `old_ver_pile/dhparam_final.py`: `init_application` starts the worker threads and then loops forever. It also refers to `flask_thread`, which that file does not define, so that call would raise `NameError` after the replenishment worker started. The `_initialization_done` flag is never read. None of this is modelled; `InitApplication` covers the seeding part only.
- `old_ver_pile/wsgi.py` is not part of this model. It only imports and calls `init_application`.
