# Game of Life simulators, modelled in Dafny

This project models the core of a small Game of Life benchmark. The benchmark
advances an N x N board of 0/1 cells generation by generation in three ways:

- a single-threaded evaluator;
- a threaded evaluator that splits the rows among `num_threads` workers writing
  into a shared, zeroed next board;
- a client/server pair that ships the whole board to one remote worker every
  generation. Every message is framed with an 8-byte big-endian length prefix.

Modules (one file each):

- `Life`: the rule as a specification on values. `Grid`, `CountNeighbours`
  (the eight Moore neighbours, fixed border, no wrap-around), `NextCell`,
  `NextGen`, `Iterate`, plus `ToGrid`, which reads a 2-D array as a board.
  Lemmas give the counting and rule properties and the concrete scenarios.
- `Sequential`: `contar_vizinhos_vivos`, `proxima_geracao` and the generation
  loop, as methods over `array2<int>`. Each is proved equal to the specification.
- `Parallel`: the partitioning rule (`linhas_por_thread = tamanho // num_threads`,
  with the last range running to `tamanho`) and lemmas that the ranges tile
  `[0, N)`. Also `worker_calcular_linhas`, which writes in place into the shared
  array, and the coordinator and its generation loop.
- `Framing`: the byte-level protocol. It covers big-endian encoding and decoding,
  a connection modelled as the chunks its peer delivers plus a log of sent bytes,
  `recv`/`sendall`, the reassembly loop, and the serialiser as an abstract `Codec`.
- `Messages`: the work message (board, side, first and last row).
- `Client`: the remote worker's evaluator and one connection of `cliente_worker`.
- `Server`: `handle_client`, the per-generation loop, and the end-to-end lemmas.
- `Errors`: the exceptions the model keeps, and a `Result` type that carries them.

What the proofs establish:

- All three evaluators compute `Life.NextGen`.
- The threaded one does so for every order in which its threads may run, and
  for every positive thread count, including counts larger than N.
- One protocol round trip with the modelled worker yields `NextGen` of the
  server's board, provided each 8-byte prefix arrives in one piece. A run of
  k rounds with the modelled worker on every connection yields k local
  generations (`Server.ComposedRun`).

Behaviour of the code worth knowing, which the model keeps:

- Only the payload read is looped; the 8-byte prefix is read by a single
  `recv(8)` and never retried. `Framing.ShortPrefixReadMisframes` shows a
  prefix split across two chunks being misread as length 0.
- When the peer closes early, the reassembly loop simply stops. The failure only
  comes from deserialising the short payload (`Server.CutReplyFails`). There is
  no explicit framing error.
- The work message also carries `linha_inicio = 0` and `linha_fim = tamanho`.
- With `num_threads == 0` the coordinator fails with a division by zero.
  With a negative count, `range(num_threads)` is empty. No thread starts, and the
  zeroed board is returned.
- Each evaluator returns a newly allocated board, never its input.
- Nothing in the threaded code aborts a generation when a worker fails. The
  model's workers cannot fail.

## Model

| member | source | states |
|---|---|---|
| `Life.NextCell` | jogo_da_vida_sequencial.py:63-79 | the rule only ever yields 0 (dead) or 1 (alive) |
| `Life.NextGen` | jogo_da_vida_sequencial.py:55-81 | the next generation is N x N and every cell is 0 or 1 |
| `Life.Iterate` | jogo_da_vida_sequencial.py:124-125 | after any number of generations the board is still N x N |
| `Life.CountIsEightCells` | jogo_da_vida_sequencial.py:32-44 | the count is the sum of the eight off-centre cells of the 3x3 window, cells off the board counting 0 |
| `Life.CountBounds` | jogo_da_vida_sequencial.py:29-46 | on a 0/1 board the count lies between 0 and 8 |
| `Life.CentreNotCounted` | jogo_da_vida_sequencial.py:34-36 | changing a cell never changes its own count |
| `Life.CornerCount` | jogo_da_vida_sequencial.py:41-44 | the corner (0,0) counts exactly (0,1), (1,0) and (1,1) |
| `Life.TopRowIgnoresBottomRow` | jogo_da_vida_sequencial.py:41-44 | no wrap-around: a top-row count does not depend on the bottom row (N >= 3) |
| `Life.SurvivalRule` | jogo_da_vida_sequencial.py:65-74 | an alive cell is alive next generation iff it has 2 or 3 alive neighbours |
| `Life.BirthRule` | jogo_da_vida_sequencial.py:76-79 | a dead cell is alive next generation iff it has exactly 3 alive neighbours |
| `Life.SingleCellDies` | jogo_da_vida_sequencial.py:25-81 | a 1x1 board becomes dead whatever its cell |
| `Life.BlinkerTurnsHorizontal` | jogo_da_vida_sequencial.py:49-81 | the vertical 3x3 blinker becomes the horizontal one |
| `Life.BlinkerTurnsVertical` | jogo_da_vida_sequencial.py:49-81 | the horizontal blinker becomes the vertical one again (period two) |
| `Life.IterateAdd` | jogo_da_vida_sequencial.py:124-125 | running a generations and then b more equals running a + b |
| `Life.IterateFirst` | jogo_da_vida_sequencial.py:124-125 | one generation followed by k equals k + 1 generations |
| `Sequential.CountLiveNeighbours` | jogo_da_vida_sequencial.py:25-46 | the double loop over the offsets returns the fixed-border neighbour count (the threaded and worker copies, jogo_da_vida_paralelo.py:25-36 and cliente_distribuido.py:14-32, are the same code and call this method) |
| `Sequential.NextGeneration` | jogo_da_vida_sequencial.py:49-81 | a newly allocated zeroed array, filled cell by cell, is the next generation; the input array is not modified |
| `Sequential.Simulate` | jogo_da_vida_sequencial.py:124-125 | the loop applies the rule exactly `num_geracoes` times (none if not positive) and keeps the board N x N |
| `Parallel.PartitionBounds` | jogo_da_vida_paralelo.py:99-109 | every partition is a range of rows inside [0, N) |
| `Parallel.PartitionsConsecutive` | jogo_da_vida_paralelo.py:99-109 | the first partition starts at 0, each one starts where the previous ends, and the last ends at N |
| `Parallel.OwnerCoversRow` | jogo_da_vida_paralelo.py:99-109 | every row of [0, N) lies in some partition |
| `Parallel.PartitionsOrdered` | jogo_da_vida_paralelo.py:99-109 | an earlier partition ends no later than a later one starts |
| `Parallel.PartitionsTile` | jogo_da_vida_paralelo.py:99-109 | every row lies in exactly one partition, for every thread count T >= 1 |
| `Parallel.MoreThreadsThanRows` | jogo_da_vida_paralelo.py:99-109 | when T > N every partition is empty except the last, which is [0, N) |
| `Parallel.Worker` | jogo_da_vida_paralelo.py:66-83 | the worker sets to 1 exactly the cells of rows [linha_inicio, linha_fim) that live next generation; it writes no 0, no other row changes, and `grade_atual` is not modified |
| `Parallel.ScheduleCovers` | jogo_da_vida_paralelo.py:102-122 | whatever order the threads run in, some thread owns each row |
| `Parallel.NextGenerationParallel` | jogo_da_vida_paralelo.py:90-124 | fails (division by zero) iff T = 0; for T >= 1 and any thread order, the result equals the sequential next generation; for T < 0 it is the zeroed board; a successful result is a newly allocated array |
| `Parallel.SimulateParallel` | jogo_da_vida_paralelo.py:140-141 | for T >= 1 the loop yields exactly `num_geracoes` generations of the rule |
| `Framing.FromBytesBig` | servidor_distribuido.py:59 | the decoded value of k bytes is below 256^k |
| `Framing.DecodeEncode` | servidor_distribuido.py:54-59 | decoding the 8-byte big-endian prefix recovers any length below 2^64 |
| `Framing.EncodeDecode` | servidor_distribuido.py:54-59 | re-encoding a decoded prefix gives back the same bytes |
| `Framing.LengthPrefix` | servidor_distribuido.py:54 | the prefix is 8 bytes that decode to the length; a length of 2^64 or more is an overflow error |
| `Framing.RecvStepSplitsStream` | servidor_distribuido.py:63 | a `recv` returns a prefix of the remaining stream, never more than asked, and nothing exactly when the peer has closed |
| `Framing.Connection.constructor` | servidor_distribuido.py:93 | an accepted connection starts with the peer's chunks to read and nothing sent |
| `Framing.Connection.Recv` | servidor_distribuido.py:58 | `recv(bufsize)` consumes the bytes it returns from the front of the stream |
| `Framing.Connection.SendAll` | servidor_distribuido.py:54-55 | `sendall` appends its bytes to what was sent and reads nothing |
| `Framing.ReceivePayload` | servidor_distribuido.py:61-65 | the reassembly loop yields the first `declared` bytes of the stream, or the whole stream if the peer closes first, however it was chunked |
| `Framing.ReceiveFrame` | servidor_distribuido.py:58-65 | receiving a message is one `recv(8)` whose bytes are decoded as the length, then the reassembly loop for that length; nothing is sent |
| `Framing.SendFrame` | servidor_distribuido.py:51-55 | sending a message writes the 8-byte length and then the payload; a payload of 2^64 bytes or more raises before anything is sent |
| `Framing.ReadFrameAfterHeader` | servidor_distribuido.py:58-65 | when the first chunk holds all 8 prefix bytes, the declared length is their value and the payload is taken from the bytes right after them |
| `Framing.ReadFrameOfFrame` | servidor_distribuido.py:58-65 | when the prefix arrives in one piece, the receiver gets exactly the framed payload, however the payload is fragmented |
| `Framing.ReadFrameOfCutFrame` | servidor_distribuido.py:61-65 | a peer that closes mid-payload leaves the receiver a strict prefix of the payload |
| `Framing.ShortPrefixReadMisframes` | servidor_distribuido.py:58-59 | the prefix is read once: a prefix split 4 + 4 bytes is misread as length 0 |
| `Messages.WorkFor` | servidor_distribuido.py:43-49 | the work message carries the whole board and its side, with rows 0 to `tamanho` |
| `Client.NextGenerationWorker` | cliente_distribuido.py:36-53 | `calcular_proxima_geracao` computes, into a newly allocated array, the same next generation as the sequential evaluator |
| `Client.ComputeResult` | cliente_distribuido.py:76-86 | the worker serialises the next generation of the received board, or fails when the board is not `tamanho` x `tamanho` |
| `Client.Respond` | cliente_distribuido.py:76-88 | after reassembly: a payload that does not deserialise, a malformed board or an oversized result sends nothing; otherwise exactly the framed result is sent |
| `Client.ClientWorker` | cliente_distribuido.py:57-88 | one connection: the reply is a function of what the server delivered, and what is sent is the framed reply and nothing else |
| `Client.NoWorkIffClosed` | cliente_distribuido.py:65-66 | the worker returns without sending exactly when the prefix `recv` returns nothing |
| `Client.WorkerRepliesNextGen` | cliente_distribuido.py:64-88 | given a framed work message, the worker sends back the 8-byte length followed by the serialised next generation |
| `Server.HandleClient` | servidor_distribuido.py:38-71 | sends exactly the framed work message, returns what the worker's framed reply deserialises to, and modifies neither board |
| `Server.AcceptAndHandle` | servidor_distribuido.py:93-99 | one iteration of the generation loop returns what `handle_client` returns on the accepted connection |
| `Server.SimulateServer` | servidor_distribuido.py:87-101 | one connection per generation, each replacing the board; a full run makes exactly `num_geracoes` round trips |
| `Server.RoundTripComputesNextGen` | servidor_distribuido.py:38-71 | one round trip with the worker yields the next generation of the server's board |
| `Server.CutReplyFails` | servidor_distribuido.py:61-67 | a reply cut short by an early close fails to deserialise |
| `Server.HonestRunIterates` | servidor_distribuido.py:87-101 | k round trips yield k local generations when every session carries the framed next board (the worker side of this hypothesis is discharged by `Server.ComposedRun`) |
| `Server.WorkerSessionHonest` | cliente_distribuido.py:64-88 | when the worker is delivered the server's framed work message and the server receives exactly what the worker sends, the server's session carries the framed next board |
| `Server.ComposedRun` | servidor_distribuido.py:87-101 | with the modelled worker answering every connection, k round trips yield the same board as k local generations |

## Left out

- Random initialisation (`inicializar_grade`): the initial board is a parameter.
- Rendering images, appending timing lines and writing the final snapshot: these
  are file and plotting I/O. `analisador_final.py` is not part of this model.
- Wall-clock timing (`time.time()`) and every `print`.
- Cells are unbounded integers, not numpy `int8`. The rule only ever adds at most
  eight 0/1 cells, so a wrap-around cannot occur on a 0/1 board.
- `pickle.dumps`/`pickle.loads` are the abstract `Framing.Codec`. The model relies
  on only two properties of it, `Framing.Faithful`: `loads` inverts `dumps`, and
  `loads` rejects every truncated `dumps` output.
- Sockets: `bind`, `listen`, `accept` and `connect` are not modelled. A connection
  is the sequence of non-empty chunks its peer delivers (the peer closes after the
  last one) plus a log of sent bytes. Each generation's connection on the server
  is a parameter, so the two processes are not run together. The end-to-end
  lemmas connect them instead.
- Threads: each thread is modelled as running its whole worker in an order the
  scheduler chooses. Finer interleavings have the same effect, because the workers
  read only `grade_atual` and write disjoint rows. `os.cpu_count()` is replaced by
  the thread-count parameter.
- The client's endless reconnect-and-sleep loop and its `except` handlers are not
  modelled. A failure is returned as `Client.Failed` and nothing is sent.
- Client.ResultPayload: a received board that is not `tamanho` x `tamanho` is
  treated as a failure. The original would compute on the top-left corner of a
  larger board and fail on a smaller one; the server never sends either.
- Errors raised by `sendall` or `recv` themselves (reset connections) are not
  modelled.
