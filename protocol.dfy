/**
 * The shared-memory protocol between the host and the accelerator: the
 * layout of the mapped region, the operation codes, the rounds the host
 * posts, and the long-message transport that carries a buffer of any length
 * through the fixed-size command area in length-prefixed chunks.
 */
module Protocol {
  import opened Wire

  // Operation codes (ComputeTaskType).
  const NONE: int := 0
  const LINEAR_INT4_NO_ZERO: int := 1
  const LINEAR_INT8: int := 2
  const GET_COMPUTE_SERVER_INFO: int := 10000
  const START_LONG_DATA: int := 10001
  const FINISH_LONG_DATA: int := 10002

  // Layout of the 64 MiB mapping: the command area starts at byte 0, the
  // result area at 32 MiB and the flag words at 63 MiB.
  const MIB: int := 1024 * 1024
  const REGION_SIZE: int := 64 * MIB
  const RESULT_OFFSET: int := 32 * MIB
  const FLAG_OFFSET: int := 63 * MIB
  const CMD_SIZE: int := RESULT_OFFSET
  const RESULT_SIZE: int := FLAG_OFFSET - RESULT_OFFSET
  const FLAG_WORDS: int := (REGION_SIZE - FLAG_OFFSET) / 4

  /** Distance, in 32-bit words, between the flag words of two consecutive partitions. */
  const PAGE: int := 16 * 1024
  const MAX_PARTITIONS: int := FLAG_WORDS / PAGE

  /** Largest number of payload bytes one round may carry. */
  const TRANS_LIMIT: int := 28 * MIB

  /** Flag word `s` belongs to one of the first `partitions` partitions. */
  predicate IsSlot(s: int, partitions: int)
  {
    0 <= s && s % PAGE == 0 && s / PAGE < partitions
  }

  /** One launch: the operation code posted and the command area as the accelerator finds it. */
  datatype Round = Round(op: int, command: Bytes)

  /** The chunks the long-message loop cuts `data` into, in order. */
  function Chunks(data: Bytes): (cs: seq<Bytes>)
    decreases |data|
    ensures cs == [] <==> |data| == 0
    ensures |cs| <= |data|
  {
    if |data| == 0 then []
    else
      var cur := Min(TRANS_LIMIT, |data|);
      [data[..cur]] + Chunks(data[cur..])
  }

  /** The chunks from offset `i` on: the chunk at `i`, then those from the next offset. */
  lemma ChunksFrom(data: Bytes, i: int)
    requires 0 <= i < |data|
    ensures Chunks(data[i..]) ==
      [data[i .. i + Min(TRANS_LIMIT, |data| - i)]] + Chunks(data[Min(i + TRANS_LIMIT, |data|)..])
  {
    var tail := data[i..];
    var cur := Min(TRANS_LIMIT, |data| - i);
    assert tail[..cur] == data[i .. i + cur];
    assert tail[cur..] == data[Min(i + TRANS_LIMIT, |data|)..];
  }

  /** Every chunk is non-empty and at most the transfer limit. */
  lemma {:induction false} ChunksBounded(data: Bytes)
    ensures forall j :: 0 <= j < |Chunks(data)| ==> 0 < |Chunks(data)[j]| <= TRANS_LIMIT
  {
    if |data| > 0 {
      var cur := Min(TRANS_LIMIT, |data|);
      ChunksBounded(data[cur..]);
    }
  }

  /** Chunk `j` is the slice of `data` that starts at byte `j * TRANS_LIMIT`. */
  lemma {:induction false} ChunksAreSlices(data: Bytes)
    ensures forall j :: 0 <= j < |Chunks(data)| ==>
      j * TRANS_LIMIT < |data| &&
      Chunks(data)[j] == data[j * TRANS_LIMIT .. Min(j * TRANS_LIMIT + TRANS_LIMIT, |data|)]
  {
    if |data| > 0 {
      var cur := Min(TRANS_LIMIT, |data|);
      var rest := data[cur..];
      ChunksAreSlices(rest);
      forall j | 0 <= j < |Chunks(data)|
        ensures j * TRANS_LIMIT < |data|
        ensures Chunks(data)[j] == data[j * TRANS_LIMIT .. Min(j * TRANS_LIMIT + TRANS_LIMIT, |data|)]
      {
        if j > 0 {
          assert Chunks(data)[j] == Chunks(rest)[j - 1];
          assert cur == TRANS_LIMIT;
          var lo := (j - 1) * TRANS_LIMIT;
          assert lo + TRANS_LIMIT == j * TRANS_LIMIT;
          assert |rest| + TRANS_LIMIT == |data|;
          assert Min(lo + TRANS_LIMIT, |rest|) + TRANS_LIMIT == Min(j * TRANS_LIMIT + TRANS_LIMIT, |data|);
          assert rest[lo .. Min(lo + TRANS_LIMIT, |rest|)]
              == data[j * TRANS_LIMIT .. Min(j * TRANS_LIMIT + TRANS_LIMIT, |data|)];
        }
      }
    }
  }

  /** Laid end to end, the chunks give back `data`. */
  lemma {:induction false} ChunksReassemble(data: Bytes)
    ensures Flatten(Chunks(data)) == data
  {
    if |data| > 0 {
      var cur := Min(TRANS_LIMIT, |data|);
      ChunksReassemble(data[cur..]);
      assert data == data[..cur] + data[cur..];
    }
  }

  /** There are ceil(|data| / TRANS_LIMIT) chunks, all but the last of full size. */
  lemma {:induction false} ChunksCount(data: Bytes)
    ensures |Chunks(data)| == (|data| + TRANS_LIMIT - 1) / TRANS_LIMIT
    ensures forall j :: 0 <= j < |Chunks(data)| - 1 ==> |Chunks(data)[j]| == TRANS_LIMIT
  {
    if |data| > 0 {
      var cur := Min(TRANS_LIMIT, |data|);
      ChunksCount(data[cur..]);
      if |data| > TRANS_LIMIT {
        assert (|data| + TRANS_LIMIT - 1) / TRANS_LIMIT == (|data| - 1) / TRANS_LIMIT + 1;
      }
    }
  }

  /**
   * The offset SendLongMessage moves to after the chunk at `i`, as written:
   * `i += transLimit` on a 32-bit `int`, which wraps past 2^31 - 1.
   */
  function SourceNextOffset(i: int): (j: int)
    ensures IsInt32(j)
    ensures 0 <= i && i + TRANS_LIMIT < 0x8000_0000 ==> j == i + TRANS_LIMIT
  {
    ToInt32(i + TRANS_LIMIT)
  }

  /** The offset of SendLongMessage's chunk loop, as written, after `j` chunks. */
  function SourceOffset(j: nat): (i: int)
    ensures IsInt32(i)
  {
    if j == 0 then 0 else SourceNextOffset(SourceOffset(j - 1))
  }

  /** The first 74 offsets are the multiples of TRANS_LIMIT, the last of them just below 2^31. */
  lemma {:induction false} SourceOffsetsBeforeWrap(j: nat)
    requires j <= 73
    ensures SourceOffset(j) == j * TRANS_LIMIT
  {
    if j > 0 {
      SourceOffsetsBeforeWrap(j - 1);
      var i := (j - 1) * TRANS_LIMIT;
      assert i + TRANS_LIMIT == j * TRANS_LIMIT <= 73 * TRANS_LIMIT;
      assert SourceOffset(j) == SourceNextOffset(i);
    }
  }

  /**
   * When chunk `j` starts inside a message whose length is an `int` but
   * ends past 2^31 - 1 (a message of more than 73 * TRANS_LIMIT bytes), the
   * increment after it wraps to a negative offset, which still passes the
   * loop test `i < len`: the loop goes on to copy from before the buffer.
   */
  lemma SourceChunkLoopWraps(len: int, j: nat)
    requires j * TRANS_LIMIT < len && IsInt32(len) && 0x8000_0000 <= (j + 1) * TRANS_LIMIT
    ensures 0 <= SourceOffset(j) < len
    ensures SourceOffset(j + 1) < 0 && SourceOffset(j + 1) < len
  {
    SourceOffsetsBeforeWrap(j);
  }

  /** The chunk a StartLongData round hands over: a 32-bit length, then that many bytes. */
  function ChunkPayload(command: Bytes): Bytes
  {
    if |command| < 4 then []
    else
      var len := DecodeInt32(command[..4]);
      if 0 <= len <= |command| - 4 then command[4 .. 4 + len] else []
  }

  /** `r` is a StartLongData round whose command area begins with `chunk`, length-prefixed. */
  predicate CarriesChunk(r: Round, chunk: Bytes)
  {
    r.op == START_LONG_DATA && 4 + |chunk| <= |r.command| &&
    r.command[..4] == EncodeInt32(|chunk|) && r.command[4 .. 4 + |chunk|] == chunk
  }

  lemma ChunkPayloadOfCarried(r: Round, chunk: Bytes)
    requires CarriesChunk(r, chunk) && |chunk| <= TRANS_LIMIT
    ensures ChunkPayload(r.command) == chunk
  {
    DecodeEncodeInt32(|chunk|);
  }

  /** Round `q` of `rs` carries chunk `q` of `cs`. */
  predicate CarriesChunkAt(rs: seq<Round>, cs: seq<Bytes>, q: int)
  {
    0 <= q < |rs| && q < |cs| && CarriesChunk(rs[q], cs[q])
  }

  /** The rounds `rs` carry the first `|rs|` chunks of `cs`, in order. */
  predicate CarryChunks(rs: seq<Round>, cs: seq<Bytes>)
  {
    |rs| <= |cs| && forall q :: 0 <= q < |rs| ==> CarriesChunkAt(rs, cs, q)
  }

  /** A round that carries the next chunk extends the rounds that carry the ones before it. */
  lemma CarryChunksSnoc(rs: seq<Round>, cs: seq<Bytes>, r: Round)
    requires CarryChunks(rs, cs) && |rs| < |cs| && CarriesChunk(r, cs[|rs|])
    ensures CarryChunks(rs + [r], cs)
  {
    forall q | 0 <= q < |rs| + 1
      ensures CarriesChunkAt(rs + [r], cs, q)
    {
      if q < |rs| {
        assert CarriesChunkAt(rs, cs, q);
        assert (rs + [r])[q] == rs[q];
      }
    }
  }

  /** `rs` is the round sequence that sends `data`: one StartLongData round per chunk, then one FinishLongData. */
  predicate IsLongMessage(rs: seq<Round>, data: Bytes)
  {
    var cs := Chunks(data);
    |rs| == |cs| + 1 &&
    (forall j :: 0 <= j < |cs| ==> CarriesChunkAt(rs, cs, j)) &&
    rs[|cs|].op == FINISH_LONG_DATA
  }

  /** The rounds that carry every chunk of `data`, then a FinishLongData round, send `data`. */
  lemma ChunksThenFinish(rs: seq<Round>, fin: Round, data: Bytes)
    requires |rs| == |Chunks(data)| && CarryChunks(rs, Chunks(data)) && fin.op == FINISH_LONG_DATA
    ensures IsLongMessage(rs + [fin], data)
  {
    var cs := Chunks(data);
    forall j | 0 <= j < |cs|
      ensures CarriesChunkAt(rs + [fin], cs, j)
    {
      assert CarriesChunkAt(rs, cs, j);
      assert (rs + [fin])[j] == rs[j];
    }
  }

  /** A long message takes ceil(|data| / TRANS_LIMIT) StartLongData rounds and then exactly one FinishLongData. */
  lemma LongMessageRounds(rs: seq<Round>, data: Bytes)
    requires IsLongMessage(rs, data)
    ensures |rs| == (|data| + TRANS_LIMIT - 1) / TRANS_LIMIT + 1
    ensures forall j :: 0 <= j < |rs| - 1 ==> rs[j].op == START_LONG_DATA
    ensures rs[|rs| - 1].op == FINISH_LONG_DATA
    ensures |data| == 0 ==> |rs| == 1
  {
    ChunksCount(data);
    forall j | 0 <= j < |rs| - 1
      ensures rs[j].op == START_LONG_DATA
    {
      assert CarriesChunkAt(rs, Chunks(data), j);
    }
  }

  /**
   * What the accelerator has assembled: the messages completed so far and
   * the bytes of the one still being received.
   */
  datatype Inbox = Inbox(messages: seq<Bytes>, pending: Bytes)

  /** The accelerator's handling of one round: chunks are appended, FinishLongData completes a message. */
  function Receive(box: Inbox, r: Round): Inbox
  {
    if r.op == START_LONG_DATA then Inbox(box.messages, box.pending + ChunkPayload(r.command))
    else if r.op == FINISH_LONG_DATA then Inbox(box.messages + [box.pending], [])
    else box
  }

  function Received(rs: seq<Round>): Inbox
  {
    if rs == [] then Inbox([], []) else Receive(Received(rs[..|rs| - 1]), rs[|rs| - 1])
  }

  lemma ReceivedAppend(rs: seq<Round>, r: Round)
    ensures Received(rs + [r]) == Receive(Received(rs), r)
  {
    assert (rs + [r])[..|rs|] == rs;
  }

  lemma ReceivedChunk(before: seq<Round>, r: Round, chunk: Bytes)
    requires CarriesChunk(r, chunk) && |chunk| <= TRANS_LIMIT
    ensures Received(before + [r]) ==
      Inbox(Received(before).messages, Received(before).pending + chunk)
  {
    ReceivedAppend(before, r);
    ChunkPayloadOfCarried(r, chunk);
  }

  lemma ReceivedNextChunk(box: Inbox, before: seq<Round>, r: Round, cs: seq<Bytes>, j: nat)
    requires 0 < j <= |cs| && CarriesChunk(r, cs[j - 1]) && |cs[j - 1]| <= TRANS_LIMIT
    requires Received(before) == Inbox(box.messages, box.pending + Flatten(cs[..j - 1]))
    ensures Received(before + [r]) == Inbox(box.messages, box.pending + Flatten(cs[..j]))
  {
    var done := Flatten(cs[..j - 1]);
    ReceivedChunk(before, r, cs[j - 1]);
    assert cs[..j] == cs[..j - 1] + [cs[j - 1]];
    FlattenAppend(cs[..j - 1], cs[j - 1]);
    assert (box.pending + done) + cs[j - 1] == box.pending + (done + cs[j - 1]);
  }

  lemma {:induction false} ReceivedChunks(prefix: seq<Round>, rs: seq<Round>, data: Bytes, j: nat)
    requires IsLongMessage(rs, data) && j <= |Chunks(data)|
    ensures Received(prefix + rs[..j]) ==
      Inbox(Received(prefix).messages, Received(prefix).pending + Flatten(Chunks(data)[..j]))
  {
    var cs := Chunks(data);
    if j == 0 {
      assert prefix + rs[..0] == prefix;
      assert cs[..0] == [];
    } else {
      ReceivedChunks(prefix, rs, data, j - 1);
      assert prefix + rs[..j] == (prefix + rs[..j - 1]) + [rs[j - 1]];
      assert CarriesChunkAt(rs, cs, j - 1);
      ChunksBounded(data);
      ReceivedNextChunk(Received(prefix), prefix + rs[..j - 1], rs[j - 1], cs, j);
    }
  }

  lemma ReceivedFinish(box: Inbox, before: seq<Round>, r: Round, data: Bytes)
    requires r.op == FINISH_LONG_DATA
    requires Received(before) == Inbox(box.messages, box.pending + data)
    ensures Received(before + [r]) == Inbox(box.messages + [box.pending + data], [])
  {
    ReceivedAppend(before, r);
  }

  /**
   * After the rounds of a long message the accelerator holds `data` as one
   * more completed message (behind whatever was pending), and nothing is pending.
   */
  lemma LongMessageDelivered(prefix: seq<Round>, rs: seq<Round>, data: Bytes)
    requires IsLongMessage(rs, data)
    ensures Received(prefix + rs) ==
      Inbox(Received(prefix).messages + [Received(prefix).pending + data], [])
  {
    var cs := Chunks(data);
    var n := |cs|;
    ReceivedChunks(prefix, rs, data, n);
    assert cs[..n] == cs;
    ChunksReassemble(data);
    assert prefix + rs == (prefix + rs[..n]) + [rs[n]];
    ReceivedFinish(Received(prefix), prefix + rs[..n], rs[n], data);
  }
}
