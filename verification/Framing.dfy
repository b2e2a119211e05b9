/**
 * The wire format shared by the server and the worker: every message is an
 * 8-byte unsigned big-endian length followed by that many payload bytes.
 *
 * A connection is modelled by what its peer delivers, as a sequence of
 * non-empty chunks (each `recv` returns at most the front chunk; the peer
 * closes after the last one), and by the log of the bytes written with
 * `sendall`. The payload itself is opaque bytes produced by a serialiser.
 */
module Framing {
  import opened Errors

  newtype Byte = b: int | 0 <= b < 256

  /** The number of bytes in the length prefix. */
  const PrefixSize: nat := 8

  function Pow256(k: nat): (p: nat)
    ensures p >= 1
  {
    if k == 0 then 1 else 256 * Pow256(k - 1)
  }

  // ---------------------------------------------------------------------
  // Big-endian integers

  /** `n.to_bytes(k, 'big')`: the `k` low base-256 digits of `n`, most significant first. */
  function ToBytesBig(n: nat, k: nat): (bs: seq<Byte>)
    ensures |bs| == k
  {
    if k == 0 then [] else ToBytesBig(n / 256, k - 1) + [(n % 256) as Byte]
  }

  /** `int.from_bytes(bs, 'big')`; it accepts any length, and the empty sequence gives 0. */
  function FromBytesBig(bs: seq<Byte>): (n: nat)
    ensures n < Pow256(|bs|)
  {
    if bs == [] then 0 else FromBytesBig(bs[..|bs| - 1]) * 256 + bs[|bs| - 1] as int
  }

  /** Decoding recovers every value that fits in `k` bytes. */
  lemma {:induction false} DecodeEncode(n: nat, k: nat)
    requires n < Pow256(k)
    ensures FromBytesBig(ToBytesBig(n, k)) == n
  {
    if k > 0 {
      var bs := ToBytesBig(n, k);
      assert bs[..k - 1] == ToBytesBig(n / 256, k - 1);
      DecodeEncode(n / 256, k - 1);
    }
  }

  /** Encoding a decoded value at the same width gives back the same bytes. */
  lemma {:induction false} EncodeDecode(bs: seq<Byte>)
    ensures ToBytesBig(FromBytesBig(bs), |bs|) == bs
  {
    if bs != [] {
      var init := bs[..|bs| - 1];
      var n := FromBytesBig(bs);
      assert n / 256 == FromBytesBig(init) && n % 256 == bs[|bs| - 1] as int;
      EncodeDecode(init);
    }
  }

  /** `len(data).to_bytes(8, byteorder='big')`, which raises OverflowError from 2^64 up. */
  function LengthPrefix(len: nat): (r: Result<seq<Byte>>)
    ensures r.Success? <==> len < Pow256(PrefixSize)
    ensures r.Failure? ==> r.error == Overflow
    ensures r.Success? ==> |r.value| == PrefixSize && FromBytesBig(r.value) == len
  {
    if len < Pow256(PrefixSize) then
      DecodeEncode(len, PrefixSize);
      Success(ToBytesBig(len, PrefixSize))
    else
      Failure(Overflow)
  }

  /** A whole message: the prefix, then the payload. */
  function Frame(payload: seq<Byte>): seq<Byte>
    requires |payload| < Pow256(PrefixSize)
  {
    ToBytesBig(|payload|, PrefixSize) + payload
  }

  // ---------------------------------------------------------------------
  // The transport

  /** All the bytes of a chunk sequence, in order. */
  function Flatten(chunks: seq<seq<Byte>>): seq<Byte> {
    if chunks == [] then [] else chunks[0] + Flatten(chunks[1..])
  }

  /** A stream socket never delivers an empty chunk; an empty `recv` means closed. */
  predicate NonEmptyChunks(chunks: seq<seq<Byte>>) {
    forall k :: 0 <= k < |chunks| ==> chunks[k] != []
  }

  /**
   * What `recv(bufsize)` returns and what is left to read: at most `bufsize`
   * bytes of the front chunk, or nothing once the peer has closed.
   */
  function RecvStep(chunks: seq<seq<Byte>>, bufsize: nat): (seq<Byte>, seq<seq<Byte>>)
    requires bufsize > 0
  {
    if chunks == [] then ([], [])
    else if |chunks[0]| <= bufsize then (chunks[0], chunks[1..])
    else (chunks[0][..bufsize], [chunks[0][bufsize..]] + chunks[1..])
  }

  /** A `recv` returns what it consumes: the bytes read and the rest make up the stream. */
  lemma RecvStepConsumes(chunks: seq<seq<Byte>>, bufsize: nat)
    requires bufsize > 0
    ensures RecvStep(chunks, bufsize).0 + Flatten(RecvStep(chunks, bufsize).1) == Flatten(chunks)
  {
    if chunks != [] {
      assert Flatten(chunks) == chunks[0] + Flatten(chunks[1..]);
      if |chunks[0]| > bufsize {
        var rest := [chunks[0][bufsize..]] + chunks[1..];
        assert rest[0] == chunks[0][bufsize..] && rest[1..] == chunks[1..];
        assert Flatten(rest) == chunks[0][bufsize..] + Flatten(chunks[1..]);
        assert chunks[0] == chunks[0][..bufsize] + chunks[0][bufsize..];
      }
    }
  }

  /**
   * A `recv` consumes a prefix of the stream, never more than asked, and
   * returns nothing exactly when the peer has closed.
   */
  lemma RecvStepSplitsStream(chunks: seq<seq<Byte>>, bufsize: nat)
    requires NonEmptyChunks(chunks) && bufsize > 0
    ensures NonEmptyChunks(RecvStep(chunks, bufsize).1)
    ensures RecvStep(chunks, bufsize).0 + Flatten(RecvStep(chunks, bufsize).1) == Flatten(chunks)
    ensures |RecvStep(chunks, bufsize).0| <= bufsize
    ensures RecvStep(chunks, bufsize).0 == [] <==> chunks == []
    ensures chunks != [] && |chunks[0]| >= bufsize ==> |RecvStep(chunks, bufsize).0| == bufsize
  {
    RecvStepConsumes(chunks, bufsize);
    if chunks != [] {
      assert chunks[0] != [];
    }
  }

  /** The first `k` bytes of `s`, or all of `s` when it is shorter. */
  function Take(s: seq<Byte>, k: nat): (t: seq<Byte>)
    ensures |t| <= k && t <= s
    ensures |t| == k || t == s
  {
    if k <= |s| then s[..k] else s
  }

  /** One end of a connection. */
  class Connection {
    /** What the peer has delivered and this end has not read yet; the peer closes after it. */
    var incoming: seq<seq<Byte>>
    /** Every byte written with `sendall`, in order. */
    var sent: seq<Byte>

    ghost predicate Valid()
      reads this
    {
      NonEmptyChunks(incoming)
    }

    constructor (chunks: seq<seq<Byte>>)
      requires NonEmptyChunks(chunks)
      ensures Valid() && incoming == chunks && sent == []
    {
      incoming := chunks;
      sent := [];
    }

    /** `recv(bufsize)`. */
    method Recv(bufsize: nat) returns (data: seq<Byte>)
      requires Valid() && bufsize > 0
      modifies this
      ensures Valid() && sent == old(sent)
      ensures (data, incoming) == RecvStep(old(incoming), bufsize)
      ensures data + Flatten(incoming) == Flatten(old(incoming))
      ensures |data| <= bufsize && (data == [] <==> old(incoming) == [])
    {
      RecvStepSplitsStream(incoming, bufsize);
      var step := RecvStep(incoming, bufsize);
      data, incoming := step.0, step.1;
    }

    /** `sendall(data)`. */
    method SendAll(data: seq<Byte>)
      requires Valid()
      modifies this
      ensures Valid() && incoming == old(incoming)
      ensures sent == old(sent) + data
    {
      sent := sent + data;
    }
  }

  /**
   * The reassembly loop: reads until `declared` bytes have arrived, asking
   * each time for no more than are still missing, and stops early when the
   * peer closes. The result is the first `declared` bytes of the stream, or
   * the whole stream when it is shorter, however it was split into chunks.
   */
  method ReceivePayload(conn: Connection, declared: nat) returns (data: seq<Byte>)
    requires conn.Valid()
    modifies conn
    ensures conn.Valid() && conn.sent == old(conn.sent)
    ensures data == Take(Flatten(old(conn.incoming)), declared)
    ensures data + Flatten(conn.incoming) == Flatten(old(conn.incoming))
  {
    ghost var stream := Flatten(conn.incoming);
    data := [];
    while |data| < declared
      invariant conn.Valid() && conn.sent == old(conn.sent)
      invariant |data| <= declared
      invariant data + Flatten(conn.incoming) == stream
      decreases declared - |data|
    {
      var pacote := conn.Recv(declared - |data|);
      if pacote == [] {
        break;
      }
      data := data + pacote;
    }
  }

  /**
   * What a receiver obtains from the connection: one `recv(8)` for the
   * prefix (not repeated if it returns fewer bytes), then the reassembly
   * loop for the length the prefix declares.
   */
  function ReadFrame(chunks: seq<seq<Byte>>): seq<Byte>
  {
    var step := RecvStep(chunks, PrefixSize);
    Take(Flatten(step.1), FromBytesBig(step.0))
  }

  /**
   * Reading a whole message: one `recv(8)` for the prefix, then the
   * reassembly loop for the length it declares.
   */
  method ReceiveFrame(conn: Connection) returns (data: seq<Byte>)
    requires conn.Valid()
    modifies conn
    ensures conn.Valid() && conn.sent == old(conn.sent)
    ensures data == ReadFrame(old(conn.incoming))
  {
    ghost var chunks := conn.incoming;
    var prefix := conn.Recv(PrefixSize);
    var declared := FromBytesBig(prefix);
    data := ReceivePayload(conn, declared);
  }

  /**
   * Writing a whole message: the 8-byte length, then the payload. A payload
   * of 2^64 bytes or more raises before anything is sent.
   */
  method SendFrame(conn: Connection, data: seq<Byte>) returns (ok: bool)
    requires conn.Valid()
    modifies conn
    ensures conn.Valid() && conn.incoming == old(conn.incoming)
    ensures ok <==> |data| < Pow256(PrefixSize)
    ensures conn.sent == old(conn.sent) + (if ok then Frame(data) else [])
  {
    var header := LengthPrefix(|data|);
    if header.Failure? {
      return false;
    }
    conn.SendAll(header.value);
    conn.SendAll(data);
    assert conn.sent == old(conn.sent) + (header.value + data);
    ok := true;
  }

  /** Two splits of one sequence at the same point agree. */
  lemma SplitAgrees(a: seq<Byte>, b: seq<Byte>, c: seq<Byte>, d: seq<Byte>)
    requires a + b == c + d && |a| == |c|
    ensures a == c && b == d
  {
    assert a == (a + b)[..|a|] && c == (c + d)[..|c|];
    assert b == (a + b)[|a|..] && d == (c + d)[|c|..];
  }

  /**
   * When the first chunk carries the whole 8-byte `header`, the receiver
   * decodes it and reassembles at most that many of the bytes after it.
   */
  lemma ReadFrameAfterHeader(chunks: seq<seq<Byte>>, header: seq<Byte>, body: seq<Byte>)
    requires NonEmptyChunks(chunks) && chunks != [] && |chunks[0]| >= PrefixSize
    requires |header| == PrefixSize && Flatten(chunks) == header + body
    ensures ReadFrame(chunks) == Take(body, FromBytesBig(header))
  {
    var step := RecvStep(chunks, PrefixSize);
    RecvStepSplitsStream(chunks, PrefixSize);
    SplitAgrees(step.0, Flatten(step.1), header, body);
  }

  /**
   * When the prefix arrives in one piece, the receiver gets exactly the
   * payload that was framed, however the payload itself is fragmented.
   */
  lemma ReadFrameOfFrame(chunks: seq<seq<Byte>>, payload: seq<Byte>, tail: seq<Byte>)
    requires NonEmptyChunks(chunks) && chunks != [] && |chunks[0]| >= PrefixSize
    requires |payload| < Pow256(PrefixSize)
    requires Flatten(chunks) == Frame(payload) + tail
    ensures ReadFrame(chunks) == payload
  {
    var header := ToBytesBig(|payload|, PrefixSize);
    assert Flatten(chunks) == header + (payload + tail);
    ReadFrameAfterHeader(chunks, header, payload + tail);
    DecodeEncode(|payload|, PrefixSize);
    assert (payload + tail)[..|payload|] == payload;
  }

  /**
   * When the peer closes part-way through the payload, the receiver gets a
   * strict prefix of it.
   */
  lemma ReadFrameOfCutFrame(chunks: seq<seq<Byte>>, payload: seq<Byte>, cut: nat)
    requires NonEmptyChunks(chunks) && chunks != [] && |chunks[0]| >= PrefixSize
    requires |payload| < Pow256(PrefixSize)
    requires PrefixSize <= cut < |Frame(payload)|
    requires Flatten(chunks) == Frame(payload)[..cut]
    ensures ReadFrame(chunks) == payload[..cut - PrefixSize]
    ensures |ReadFrame(chunks)| < |payload|
  {
    var header := ToBytesBig(|payload|, PrefixSize);
    assert Frame(payload)[..cut] == header + payload[..cut - PrefixSize];
    ReadFrameAfterHeader(chunks, header, payload[..cut - PrefixSize]);
    DecodeEncode(|payload|, PrefixSize);
  }

  /**
   * The prefix is read once: when its first chunk carries only part of it,
   * the length is misread. Here a one-byte message arriving as 4 + 5 bytes
   * is read as a zero-length one.
   */
  lemma ShortPrefixReadMisframes()
    ensures Flatten([[0, 0, 0, 0], [0, 0, 0, 1, 7]]) == Frame([7])
    ensures ReadFrame([[0, 0, 0, 0], [0, 0, 0, 1, 7]]) == []
  {
    var chunks: seq<seq<Byte>> := [[0, 0, 0, 0], [0, 0, 0, 1, 7]];
    assert Flatten(chunks) == [0, 0, 0, 0] + [0, 0, 0, 1, 7];
    var z1: seq<Byte> := [0];
    var z2: seq<Byte> := [0, 0];
    var z3: seq<Byte> := [0, 0, 0];
    var z4: seq<Byte> := [0, 0, 0, 0];
    assert z1[..0] == [] && z2[..1] == z1 && z3[..2] == z2 && z4[..3] == z3;
    assert FromBytesBig(z1) == 0;
    assert FromBytesBig(z2) == 0;
    assert FromBytesBig(z3) == 0;
    assert FromBytesBig(z4) == 0;
  }

  // ---------------------------------------------------------------------
  // The serialiser

  /** The serialiser both ends use (pickle in the original), as a pair of functions. */
  datatype Codec<!T> = Codec(dumps: T -> seq<Byte>, loads: seq<Byte> -> Option<T>)

  /**
   * What the model relies on from pickle: `loads` inverts `dumps`, and it
   * rejects every truncation of a `dumps` output (a pickle ends with its
   * STOP opcode, so a cut one runs out of input first).
   */
  ghost predicate Faithful<T(!new)>(c: Codec<T>) {
    && (forall x :: c.loads(c.dumps(x)) == Some(x))
    && (forall x, k :: 0 <= k < |c.dumps(x)| ==> c.loads(c.dumps(x)[..k]) == None)
  }
}
