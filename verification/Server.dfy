/**
 * The driver of the distributed simulator. For each generation it accepts
 * one connection, sends the whole current board as a framed work message,
 * reads back the framed next generation and makes it the current board.
 *
 * Each accepted connection is modelled by the chunks the worker delivers on
 * it (`sessions`, one entry per generation) and the log of what the server
 * sends; deserialisation builds a new board, so boards are values here.
 */
module Server {
  import opened Life
  import opened Errors
  import opened Framing
  import opened Messages
  import Client

  /** What `handle_client` returns when the worker delivers `chunks`. */
  function ServerRound(g: Grid, n: int, chunks: seq<seq<Byte>>, work: Codec<WorkMessage>, result: Codec<Grid>)
    : Result<Grid>
  {
    if |work.dumps(WorkFor(g, n))| >= Pow256(PrefixSize) then Failure(Overflow)
    else
      match result.loads(ReadFrame(chunks))
      case None => Failure(Unpickling)
      case Some(next) => Success(next)
  }

  /**
   * One generation over an accepted connection: send the work message
   * (board, side, rows 0 .. n) framed, then read the framed result with a
   * single `recv(8)` for the prefix and the reassembly loop for the payload,
   * and deserialise it. `nova` (the zeroed board the caller allocates) is
   * never used, and the current board is only read.
   */
  method HandleClient(conn: Connection, grade: Grid, nova: array2<int>, n: int,
                      work: Codec<WorkMessage>, result: Codec<Grid>)
    returns (r: Result<Grid>)
    requires conn.Valid()
    modifies conn
    ensures r == ServerRound(grade, n, old(conn.incoming), work, result)
    ensures |work.dumps(WorkFor(grade, n))| < Pow256(PrefixSize) ==>
      conn.sent == old(conn.sent) + Frame(work.dumps(WorkFor(grade, n)))
    ensures |work.dumps(WorkFor(grade, n))| >= Pow256(PrefixSize) ==> conn.sent == old(conn.sent)
  {
    var dadosParaEnviar := WorkMessage(grade, n, 0, n);
    var data := work.dumps(dadosParaEnviar);
    var ok := SendFrame(conn, data);
    if !ok {
      return Failure(Overflow);
    }
    var dadosRecebidos := ReceiveFrame(conn);
    var loaded := result.loads(dadosRecebidos);
    if loaded.None? {
      return Failure(Unpickling);
    }
    r := Success(loaded.value);
  }

  /**
   * The body of the generation loop: accept a connection from the worker,
   * allocate the zeroed board, and hand both to `HandleClient`.
   */
  method AcceptAndHandle(grade: Grid, n: nat, session: seq<seq<Byte>>,
                         work: Codec<WorkMessage>, result: Codec<Grid>)
    returns (r: Result<Grid>)
    requires NonEmptyChunks(session)
    ensures r == ServerRound(grade, n, session, work, result)
  {
    var conn := new Connection(session);
    var nova := new int[n, n]((_, _) => 0);
    r := HandleClient(conn, grade, nova, n, work, result);
  }

  /** The outcome of `k` generations over the connections `sessions`, stopping at the first failure. */
  function ServerRun(g: Grid, n: int, sessions: seq<seq<seq<Byte>>>, k: nat,
                     work: Codec<WorkMessage>, result: Codec<Grid>): Result<Grid>
    requires k <= |sessions|
    decreases k
  {
    if k == 0 then Success(g)
    else
      match ServerRound(g, n, sessions[0], work, result)
      case Failure(e) => Failure(e)
      case Success(next) => ServerRun(next, n, sessions[1..], k - 1, work, result)
  }

  /** One step of `ServerRun`, given the outcome `r` of its first round. */
  lemma ServerRunStep(g: Grid, n: int, sessions: seq<seq<seq<Byte>>>, k: nat,
                      work: Codec<WorkMessage>, result: Codec<Grid>, r: Result<Grid>)
    requires 0 < k <= |sessions| && r == ServerRound(g, n, sessions[0], work, result)
    ensures ServerRun(g, n, sessions, k, work, result)
      == if r.Failure? then Failure(r.error) else ServerRun(r.value, n, sessions[1..], k - 1, work, result)
  {
  }

  /**
   * The generation loop: one accepted connection per generation, each
   * replacing the current board with what `HandleClient` returned. An
   * exception ends the run. `rounds` counts the connections accepted.
   */
  method SimulateServer(initial: Grid, n: nat, generations: int, sessions: seq<seq<seq<Byte>>>,
                        work: Codec<WorkMessage>, result: Codec<Grid>)
    returns (r: Result<Grid>, rounds: nat)
    requires |sessions| >= RangeLength(generations)
    requires forall s :: 0 <= s < |sessions| ==> NonEmptyChunks(sessions[s])
    ensures r == ServerRun(initial, n, sessions, RangeLength(generations), work, result)
    ensures 1 <= rounds <= RangeLength(generations) || (rounds == 0 && r.Success?)
    ensures r.Success? ==> rounds == RangeLength(generations)
  {
    var grade := initial;
    var gen := 0;
    while gen < generations
      invariant 0 <= gen <= RangeLength(generations)
      invariant ServerRun(initial, n, sessions, RangeLength(generations), work, result)
        == ServerRun(grade, n, sessions[gen..], RangeLength(generations) - gen, work, result)
    {
      var res := AcceptAndHandle(grade, n, sessions[gen], work, result);
      assert sessions[gen..][0] == sessions[gen] && sessions[gen..][1..] == sessions[gen + 1..];
      ServerRunStep(grade, n, sessions[gen..], RangeLength(generations) - gen, work, result, res);
      if res.Failure? {
        return res, gen + 1;
      }
      grade := res.value;
      gen := gen + 1;
    }
    return Success(grade), gen;
  }

  // ---------------------------------------------------------------------
  // What the protocol achieves

  /**
   * One generation over the wire equals the local rule: the worker receives
   * the server's frame in any chunking that keeps the prefix whole, and the
   * server receives the worker's reply likewise; then the server obtains
   * the next generation of its board.
   */
  lemma RoundTripComputesNextGen(g: Grid, n: int, toWorker: seq<seq<Byte>>, toServer: seq<seq<Byte>>,
                                 work: Codec<WorkMessage>, result: Codec<Grid>)
    requires Faithful(work) && Faithful(result)
    requires IsGrid(g) && |g| == n
    requires |work.dumps(WorkFor(g, n))| < Pow256(PrefixSize)
    requires |result.dumps(NextGen(g))| < Pow256(PrefixSize)
    requires NonEmptyChunks(toWorker) && toWorker != [] && |toWorker[0]| >= PrefixSize
    requires Flatten(toWorker) == Frame(work.dumps(WorkFor(g, n)))
    requires NonEmptyChunks(toServer) && toServer != [] && |toServer[0]| >= PrefixSize
    requires Client.WorkerReply(toWorker, work, result).Replied?
    requires Flatten(toServer) == Client.WorkerReply(toWorker, work, result).bytes
    ensures ServerRound(g, n, toServer, work, result) == Success(NextGen(g))
  {
    var msg := WorkFor(g, n);
    assert Frame(work.dumps(msg)) + [] == Frame(work.dumps(msg));
    Client.WorkerRepliesNextGen(toWorker, [], msg, work, result);
    var reply := result.dumps(NextGen(g));
    assert Frame(reply) + [] == Frame(reply);
    ReadFrameOfFrame(toServer, reply, []);
  }

  /**
   * When the worker closes after the prefix but before the whole result has
   * arrived, reassembly stops short and deserialisation fails.
   */
  lemma CutReplyFails(g: Grid, n: int, chunks: seq<seq<Byte>>, reply: Grid, cut: nat,
                      work: Codec<WorkMessage>, result: Codec<Grid>)
    requires Faithful(result)
    requires |work.dumps(WorkFor(g, n))| < Pow256(PrefixSize)
    requires |result.dumps(reply)| < Pow256(PrefixSize)
    requires NonEmptyChunks(chunks) && chunks != [] && |chunks[0]| >= PrefixSize
    requires PrefixSize <= cut < |Frame(result.dumps(reply))|
    requires Flatten(chunks) == Frame(result.dumps(reply))[..cut]
    ensures ServerRound(g, n, chunks, work, result) == Failure(Unpickling)
  {
    ReadFrameOfCutFrame(chunks, result.dumps(reply), cut);
  }

  /** A session that carries, with its prefix whole, the framed board `next`. */
  ghost predicate HonestSession(session: seq<seq<Byte>>, next: Grid, result: Codec<Grid>) {
    && NonEmptyChunks(session) && session != [] && |session[0]| >= PrefixSize
    && |result.dumps(next)| < Pow256(PrefixSize)
    && Flatten(session) == Frame(result.dumps(next))
  }

  /**
   * Every session carries the generation after the one the server sent on
   * it: session `s` the board `Iterate(initial, s + 1)`.
   */
  ghost predicate HonestSessions(initial: Grid, sessions: seq<seq<seq<Byte>>>, k: nat, result: Codec<Grid>)
    requires IsGrid(initial) && k <= |sessions|
  {
    forall s :: 0 <= s < k ==> HonestSession(sessions[s], Iterate(initial, s + 1), result)
  }

  /** The first round of an honest run yields the next generation. */
  lemma HonestFirstRound(initial: Grid, n: int, sessions: seq<seq<seq<Byte>>>, k: nat,
                         work: Codec<WorkMessage>, result: Codec<Grid>)
    requires Faithful(result)
    requires IsGrid(initial) && 0 < k <= |sessions|
    requires |work.dumps(WorkFor(initial, n))| < Pow256(PrefixSize)
    requires HonestSessions(initial, sessions, k, result)
    ensures ServerRound(initial, n, sessions[0], work, result) == Success(NextGen(initial))
  {
    assert HonestSession(sessions[0], Iterate(initial, 0 + 1), result);
    var reply := result.dumps(NextGen(initial));
    assert Frame(reply) + [] == Frame(reply);
    ReadFrameOfFrame(sessions[0], reply, []);
  }

  /** The sessions after the first are honest for the run that starts one generation later. */
  lemma HonestSessionsShift(initial: Grid, sessions: seq<seq<seq<Byte>>>, k: nat, result: Codec<Grid>)
    requires IsGrid(initial) && 0 < k <= |sessions|
    requires HonestSessions(initial, sessions, k, result)
    ensures HonestSessions(NextGen(initial), sessions[1..], k - 1, result)
  {
    forall s | 0 <= s < k - 1
      ensures HonestSession(sessions[1..][s], Iterate(NextGen(initial), s + 1), result)
    {
      var t := s + 1;
      assert HonestSession(sessions[t], Iterate(initial, t + 1), result);
      IterateFirst(initial, t);
      assert sessions[1..][s] == sessions[t];
      assert Iterate(NextGen(initial), s + 1) == Iterate(initial, t + 1);
    }
  }

  /**
   * With an honest worker on every connection, the distributed run produces
   * the same board as `k` local generations.
   */
  lemma {:induction false} HonestRunIterates(initial: Grid, n: int, sessions: seq<seq<seq<Byte>>>, k: nat,
                                             work: Codec<WorkMessage>, result: Codec<Grid>)
    requires Faithful(result)
    requires IsGrid(initial) && |initial| == n && k <= |sessions|
    requires forall s :: 0 <= s < k ==> |work.dumps(WorkFor(Iterate(initial, s), n))| < Pow256(PrefixSize)
    requires HonestSessions(initial, sessions, k, result)
    ensures ServerRun(initial, n, sessions, k, work, result) == Success(Iterate(initial, k))
    decreases k
  {
    if k > 0 {
      var next := NextGen(initial);
      assert Iterate(initial, 0) == initial;
      HonestFirstRound(initial, n, sessions, k, work, result);
      HonestSessionsShift(initial, sessions, k, result);
      forall s | 0 <= s < k - 1
        ensures |work.dumps(WorkFor(Iterate(next, s), n))| < Pow256(PrefixSize)
      {
        IterateFirst(initial, s);
        assert 0 <= s + 1 < k;
      }
      HonestRunIterates(next, n, sessions[1..], k - 1, work, result);
      IterateFirst(initial, k - 1);
    }
  }

  /**
   * One round seen from both ends: when the worker is delivered the server's
   * framed work message and the server is delivered exactly the bytes the
   * worker sends back, the server's session carries the framed next board.
   */
  lemma WorkerSessionHonest(g: Grid, n: int, toWorker: seq<seq<Byte>>, session: seq<seq<Byte>>,
                            work: Codec<WorkMessage>, result: Codec<Grid>)
    requires Faithful(work)
    requires IsGrid(g) && |g| == n
    requires |work.dumps(WorkFor(g, n))| < Pow256(PrefixSize)
    requires |result.dumps(NextGen(g))| < Pow256(PrefixSize)
    requires NonEmptyChunks(toWorker) && toWorker != [] && |toWorker[0]| >= PrefixSize
    requires Flatten(toWorker) == Frame(work.dumps(WorkFor(g, n)))
    requires NonEmptyChunks(session) && session != [] && |session[0]| >= PrefixSize
    requires Client.WorkerReply(toWorker, work, result) == Client.Replied(Flatten(session))
    ensures HonestSession(session, NextGen(g), result)
  {
    var msg := WorkFor(g, n);
    assert Frame(work.dumps(msg)) + [] == Frame(work.dumps(msg));
    Client.WorkerRepliesNextGen(toWorker, [], msg, work, result);
  }

  /**
   * The distributed run with the modelled worker on the other end of every
   * connection: on round `s` the worker is delivered the frame the server
   * sends (the board after `s` generations) and the server is delivered
   * what the worker replies. Then `k` rounds yield `k` local generations.
   */
  lemma ComposedRun(initial: Grid, n: int, toWorker: seq<seq<seq<Byte>>>, sessions: seq<seq<seq<Byte>>>, k: nat,
                    work: Codec<WorkMessage>, result: Codec<Grid>)
    requires Faithful(work) && Faithful(result)
    requires IsGrid(initial) && |initial| == n && k <= |toWorker| && k <= |sessions|
    requires forall s :: 0 <= s < k ==> |work.dumps(WorkFor(Iterate(initial, s), n))| < Pow256(PrefixSize)
    requires forall s :: 0 <= s < k ==> |result.dumps(NextGen(Iterate(initial, s)))| < Pow256(PrefixSize)
    requires forall s :: 0 <= s < k ==>
      && NonEmptyChunks(toWorker[s]) && toWorker[s] != [] && |toWorker[s][0]| >= PrefixSize
      && Flatten(toWorker[s]) == Frame(work.dumps(WorkFor(Iterate(initial, s), n)))
    requires forall s :: 0 <= s < k ==>
      && NonEmptyChunks(sessions[s]) && sessions[s] != [] && |sessions[s][0]| >= PrefixSize
      && Client.WorkerReply(toWorker[s], work, result) == Client.Replied(Flatten(sessions[s]))
    ensures ServerRun(initial, n, sessions, k, work, result) == Success(Iterate(initial, k))
  {
    forall s | 0 <= s < k
      ensures HonestSession(sessions[s], Iterate(initial, s + 1), result)
    {
      var g := Iterate(initial, s);
      assert Iterate(initial, s + 1) == NextGen(g);
      WorkerSessionHonest(g, n, toWorker[s], sessions[s], work, result);
    }
    HonestRunIterates(initial, n, sessions, k, work, result);
  }
}
