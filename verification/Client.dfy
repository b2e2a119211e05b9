/**
 * The remote worker. On each connection it reads one work message, computes
 * the next generation of the whole board it carries, and sends the result
 * back with the same framing. Its reconnect loop and the handlers that
 * swallow its exceptions are not part of this model; a failure is returned.
 */
module Client {
  import opened Life
  import opened Errors
  import opened Framing
  import opened Messages
  import Sequential

  /**
   * The worker's evaluator: the next generation written into a zeroed array
   * (the same rule as the sequential one, with its branches merged).
   */
  method NextGenerationWorker(grade: array2<int>, n: int) returns (nova: array2<int>)
    requires grade.Length0 == n && grade.Length1 == n
    ensures fresh(nova)
    ensures nova.Length0 == n && nova.Length1 == n
    ensures ToGrid(nova) == NextGen(ToGrid(grade))
  {
    ghost var g := ToGrid(grade);
    nova := new int[n, n]((_, _) => 0);
    for i := 0 to n
      invariant forall r, c :: 0 <= r < n && 0 <= c < n ==>
        nova[r, c] == if r < i then NextCell(g, r, c) else 0
    {
      for j := 0 to n
        invariant forall r, c :: 0 <= r < n && 0 <= c < n ==>
          nova[r, c] == if r < i || (r == i && c < j) then NextCell(g, r, c) else 0
      {
        var live := Sequential.CountLiveNeighbours(grade, i, j, n);
        if grade[i, j] == 1 {
          if live == 2 || live == 3 {
            nova[i, j] := 1;
          }
        } else {
          if live == 3 {
            nova[i, j] := 1;
          }
        }
      }
    }
    ToGridEquals(nova, NextGen(g));
  }

  /** How one connection ends for the worker. */
  datatype Reply =
    | NoWork                     // the prefix `recv` returned nothing: return without sending
    | Failed(error: Error)       // an exception: nothing is sent
    | Replied(bytes: seq<Byte>)  // the bytes sent back

  /**
   * The serialised result for a deserialised work message: the next
   * generation of its board, or a failure when the board is not
   * `tamanho` x `tamanho`.
   */
  function ResultPayload(msg: WorkMessage, result: Codec<Grid>): Result<seq<Byte>> {
    if IsGrid(msg.grid) && |msg.grid| == msg.size then Success(result.dumps(NextGen(msg.grid)))
    else Failure(ShapeMismatch)
  }

  /** What the worker sends back for the reassembled work payload `payload`. */
  function ReplyFor(payload: seq<Byte>, work: Codec<WorkMessage>, result: Codec<Grid>): Reply {
    match work.loads(payload)
    case None => Failed(Unpickling)
    case Some(msg) =>
      match ResultPayload(msg, result)
      case Failure(e) => Failed(e)
      case Success(data) =>
        if |data| < Pow256(PrefixSize) then Replied(Frame(data)) else Failed(Overflow)
  }

  /** What the worker does on a connection whose server delivers `chunks`. */
  function WorkerReply(chunks: seq<seq<Byte>>, work: Codec<WorkMessage>, result: Codec<Grid>): Reply {
    if RecvStep(chunks, PrefixSize).0 == [] then NoWork
    else ReplyFor(ReadFrame(chunks), work, result)
  }

  /** The numpy array that unpickling a board yields. */
  method ToArray(grid: Grid) returns (a: array2<int>)
    requires IsGrid(grid)
    ensures a.Length0 == |grid| && a.Length1 == |grid|
    ensures ToGrid(a) == grid
  {
    var n := |grid|;
    a := new int[n, n]((i, j) requires 0 <= i < n && 0 <= j < n => grid[i][j]);
    ToGridEquals(a, grid);
  }

  /** Step 3 of the worker: compute the next generation of the received board and serialise it. */
  method ComputeResult(msg: WorkMessage, result: Codec<Grid>) returns (r: Result<seq<Byte>>)
    ensures r == ResultPayload(msg, result)
  {
    var grid := msg.grid;
    var tamanho := msg.size;
    if !(IsGrid(grid) && |grid| == tamanho) {
      return Failure(ShapeMismatch);
    }
    var grade := ToArray(grid);
    var nova := NextGenerationWorker(grade, tamanho);
    r := Success(result.dumps(ToGrid(nova)));
  }

  /**
   * Steps 2 to 4 of the worker, once the payload is in: deserialise it,
   * compute, and send the framed result.
   */
  method Respond(conn: Connection, dados: seq<Byte>, work: Codec<WorkMessage>, result: Codec<Grid>)
    returns (reply: Reply)
    requires conn.Valid()
    modifies conn
    ensures conn.Valid() && conn.incoming == old(conn.incoming)
    ensures reply == ReplyFor(dados, work, result)
    ensures conn.sent == old(conn.sent) + (if reply.Replied? then reply.bytes else [])
  {
    var loaded := work.loads(dados);
    if loaded.None? {
      return Failed(Unpickling);
    }
    var computed := ComputeResult(loaded.value, result);
    if computed.Failure? {
      return Failed(computed.error);
    }
    var data := computed.value;
    var ok := SendFrame(conn, data);
    if !ok {
      return Failed(Overflow);
    }
    reply := Replied(Frame(data));
  }

  /**
   * One connection of the worker: read the prefix with a single `recv(8)`
   * (give up quietly if the server has closed), reassemble the payload,
   * then deserialise, compute and reply.
   */
  method ClientWorker(conn: Connection, work: Codec<WorkMessage>, result: Codec<Grid>) returns (reply: Reply)
    requires conn.Valid()
    modifies conn
    ensures reply == WorkerReply(old(conn.incoming), work, result)
    ensures conn.sent == old(conn.sent) + (if reply.Replied? then reply.bytes else [])
  {
    ghost var chunks := conn.incoming;
    var prefix := conn.Recv(PrefixSize);
    if prefix == [] {
      return NoWork;
    }
    var declared := FromBytesBig(prefix);
    var dados := ReceivePayload(conn, declared);
    assert dados == ReadFrame(chunks);
    reply := Respond(conn, dados, work, result);
  }

  /** The worker returns without sending exactly when the server has closed before sending anything. */
  lemma NoWorkIffClosed(chunks: seq<seq<Byte>>, work: Codec<WorkMessage>, result: Codec<Grid>)
    requires NonEmptyChunks(chunks)
    ensures WorkerReply(chunks, work, result) == NoWork <==> chunks == []
  {
    RecvStepSplitsStream(chunks, PrefixSize);
  }

  /**
   * Given a well-formed work message whose prefix arrives in one piece, the
   * worker sends back the framed next generation of the board it carries.
   */
  lemma WorkerRepliesNextGen(chunks: seq<seq<Byte>>, tail: seq<Byte>, msg: WorkMessage,
                             work: Codec<WorkMessage>, result: Codec<Grid>)
    requires Faithful(work)
    requires IsGrid(msg.grid) && |msg.grid| == msg.size
    requires |work.dumps(msg)| < Pow256(PrefixSize)
    requires |result.dumps(NextGen(msg.grid))| < Pow256(PrefixSize)
    requires NonEmptyChunks(chunks) && chunks != [] && |chunks[0]| >= PrefixSize
    requires Flatten(chunks) == Frame(work.dumps(msg)) + tail
    ensures WorkerReply(chunks, work, result) == Replied(Frame(result.dumps(NextGen(msg.grid))))
  {
    RecvStepSplitsStream(chunks, PrefixSize);
    ReadFrameOfFrame(chunks, work.dumps(msg), tail);
  }
}
