/**
 * The host side of the accelerator channel (TfaccClient): the command,
 * result and flag areas of the shared mapping, the launch/wait round, the
 * long-message transport, the tensor registry mirrored by a name set, and
 * the quantized linear invoker.
 *
 * The accelerator is a parameter of the model: `peer` gives the result area
 * it leaves after the rounds posted so far.
 */
module Client {
  import opened Wire
  import opened Protocol
  import opened Registration
  import opened Linear
  import opened Buffer

  /** What the accelerator leaves in the result area once it has finished a round. */
  type ResultImage = b: Bytes | |b| == RESULT_SIZE witness seq(RESULT_SIZE, _ => 0)

  /** The role labels the linear invoker registers its two tensors with. */
  const LINEAR_ROLE: Bytes := Ascii("linear")
  const BIAS_ROLE: Bytes := Ascii("bias")

  /** `s` with `b` written over it from index `at`. */
  function Splice(s: Bytes, at: int, b: Bytes): (r: Bytes)
    requires 0 <= at && at + |b| <= |s|
    ensures |r| == |s|
    ensures r[at .. at + |b|] == b
  {
    s[..at] + b + s[at + |b|..]
  }

  /** Bytes outside the written window keep their values. */
  lemma SpliceKeeps(s: Bytes, at: int, b: Bytes, x: int, y: int)
    requires 0 <= at && at + |b| <= |s|
    requires 0 <= x <= y <= |s| && (y <= at || at + |b| <= x)
    ensures Splice(s, at, b)[x .. y] == s[x .. y]
  {
    var r := Splice(s, at, b);
    forall i | x <= i < y
      ensures r[i] == s[i]
    {
      if i < at {
        assert r[i] == s[..at][i];
      } else {
        assert r[i] == s[at + |b|..][i - at - |b|];
      }
    }
  }

  /** Two writes back to back are one write of both. */
  lemma SpliceAdjacent(s: Bytes, at: int, b1: Bytes, b2: Bytes)
    requires 0 <= at && at + |b1| + |b2| <= |s|
    ensures Splice(Splice(s, at, b1), at + |b1|, b2) == Splice(s, at, b1 + b2)
  {
    var r1 := Splice(s, at, b1);
    assert r1[..at + |b1|] == s[..at] + b1;
    assert r1[at + |b1| + |b2|..] == s[at + |b1| + |b2|..];
  }

  lemma SpliceEmpty(s: Bytes, at: int)
    requires 0 <= at <= |s|
    ensures Splice(s, at, []) == s
  {
    assert s[..at] + s[at..] == s;
  }

  /** Writing right after a prefix `p` of new bytes that precedes the rest of `o`. */
  lemma SpliceAfter(p: Bytes, o: Bytes, x: Bytes)
    requires |p| + |x| <= |o|
    ensures Splice(p + o[|p|..], |p|, x) == (p + x) + o[|p| + |x|..]
  {
    var s := p + o[|p|..];
    assert s[..|p|] == p;
    assert s[|p| + |x|..] == o[|p| + |x|..];
  }

  lemma Assoc<T>(a: seq<T>, b: seq<T>, c: seq<T>)
    ensures (a + b) + c == a + (b + c)
  {
  }

  /**
   * Copying sub-batch `b`'s results into an output that holds the results
   * of `done` and then the original bytes extends the results read back by
   * those of `b`.
   */
  lemma ReadBackAfter(replies: seq<Bytes>, done: seq<SubBatch>, rowBytes: nat, original: Bytes, reply: Bytes,
                      b: SubBatch)
    requires |replies| == |done| && |ReadBack(replies, done, rowBytes)| == Lo(b, rowBytes)
    requires Lo(b, rowBytes) + Len(b, rowBytes) <= |original| && Len(b, rowBytes) <= |reply|
    ensures |ReadBack(replies + [reply], done + [b], rowBytes)| == Lo(b, rowBytes) + Len(b, rowBytes)
    ensures Splice(ReadBack(replies, done, rowBytes) + original[Lo(b, rowBytes)..], Lo(b, rowBytes),
                   reply[..Len(b, rowBytes)])
         == ReadBack(replies + [reply], done + [b], rowBytes) + original[Lo(b, rowBytes) + Len(b, rowBytes)..]
  {
    SpliceAfter(ReadBack(replies, done, rowBytes), original, reply[..Len(b, rowBytes)]);
    ReadBackSnoc(replies, done, rowBytes, reply, b);
  }

  /** memcpy of `bytes` into `a` from index `at`; nothing else in `a` changes. */
  method Store(a: array<byte>, at: int, bytes: Bytes)
    requires 0 <= at && at + |bytes| <= a.Length
    modifies a
    ensures a[..] == Splice(old(a[..]), at, bytes)
  {
    forall i | at <= i < at + |bytes| {
      a[i] := bytes[i - at];
    }
    ghost var r := Splice(old(a[..]), at, bytes);
    forall i | 0 <= i < a.Length
      ensures a[i] == r[i]
    {
      if i < at {
        assert r[i] == old(a[..])[..at][i];
      } else if i < at + |bytes| {
        assert r[i] == bytes[i - at];
      } else {
        assert r[i] == old(a[..])[at + |bytes|..][i - at - |bytes|];
      }
    }
  }

  /** Flag words `after` are `before` with every slot of the first `partitions` partitions set to `v`. */
  predicate SlotsAre(after: seq<int>, before: seq<int>, v: int, partitions: int)
  {
    |after| == |before| &&
    forall s :: 0 <= s < |after| ==> after[s] == if IsSlot(s, partitions) then v else before[s]
  }

  // ---- What the accelerator receives ----

  /** The inbox after each of `msgs` is sent as one long message, in order. */
  function Deliver(box: Inbox, msgs: seq<Bytes>): Inbox
  {
    if msgs == [] then box
    else
      var b := Deliver(box, msgs[..|msgs| - 1]);
      Inbox(b.messages + [b.pending + msgs[|msgs| - 1]], [])
  }

  /** With nothing pending, the messages sent are appended, in order, to those already complete. */
  lemma {:induction false} DeliverIdle(box: Inbox, msgs: seq<Bytes>)
    requires box.pending == []
    ensures Deliver(box, msgs) == Inbox(box.messages + msgs, [])
  {
    if msgs != [] {
      var init := msgs[..|msgs| - 1];
      var last := msgs[|msgs| - 1];
      DeliverIdle(box, init);
      assert [] + last == last;
      assert box.messages + init + [last] == box.messages + msgs;
    }
  }

  lemma {:induction false} DeliverConcat(box: Inbox, a: seq<Bytes>, b: seq<Bytes>)
    ensures Deliver(Deliver(box, a), b) == Deliver(box, a + b)
  {
    if b == [] {
      assert a + b == a;
    } else {
      var init := b[..|b| - 1];
      DeliverConcat(box, a, init);
      assert (a + b)[..|a + b| - 1] == a + init;
    }
  }

  /** Rounds that are not part of a long message leave the accelerator's inbox as it was. */
  lemma ReceivedOtherRound(rs: seq<Round>, r: Round)
    requires r.op != START_LONG_DATA && r.op != FINISH_LONG_DATA
    ensures Received(rs + [r]) == Received(rs)
  {
    ReceivedAppend(rs, r);
  }

  // ---- The tensor registry ----

  /** Registering `name` changes something: it is non-empty and not registered yet. */
  predicate Fresh(names: set<Bytes>, name: Bytes)
  {
    name != [] && name !in names
  }

  /** The registered names after registering `name`. */
  function Registered(names: set<Bytes>, name: Bytes): set<Bytes>
  {
    if name == [] then names else names + {name}
  }

  /** The messages registering `d` sends: its registration when the name is fresh, nothing otherwise. */
  function RegisterMessages(names: set<Bytes>, d: Data, weightType: Bytes): seq<Bytes>
    requires Fresh(names, d.name) ==> Registrable(d)
  {
    if Fresh(names, d.name) then [RegistrationPayload(d, weightType)] else []
  }

  /** The messages unregistering `name` sends: one when it is registered, nothing otherwise. */
  function UnregisterMessages(names: set<Bytes>, name: Bytes): seq<Bytes>
  {
    if name in names then [UnregisterPayload(name)] else []
  }

  function UnregisterPayloads(order: seq<Bytes>): seq<Bytes>
  {
    seq(|order|, i requires 0 <= i < |order| => UnregisterPayload(order[i]))
  }

  /** Registering a name twice sends one message; registering a name already present sends none. */
  lemma RegisterTwiceSendsOnce(names: set<Bytes>, d: Data, weightType: Bytes)
    requires Fresh(names, d.name) ==> Registrable(d)
    ensures |RegisterMessages(names, d, weightType)| == (if Fresh(names, d.name) then 1 else 0)
    ensures RegisterMessages(Registered(names, d.name), d, weightType) == []
    ensures d.name in names ==> Registered(names, d.name) == names
  {
  }

  /** Registering a fresh name and then unregistering it gives back the set it started from. */
  lemma RegisterThenUnregister(names: set<Bytes>, name: Bytes)
    requires Fresh(names, name)
    ensures Registered(names, name) - {name} == names
    ensures UnregisterMessages(Registered(names, name), name) == [UnregisterPayload(name)]
    ensures UnregisterMessages(Registered(names, name) - {name}, name) == []
  {
  }

  // ---- Registration with the source's `int` lengths ----

  /** What one registration does: the names it leaves, the messages it sends, and whether it threw. */
  datatype RegisterOutcome = RegisterOutcome(names: set<Bytes>, sent: seq<Bytes>, threw: bool)

  /**
   * RegisterFastllmData as written, for a message below 4 GiB whose part
   * before the raw tensor bytes fits an `int`. The name goes into the set
   * first. WriteBytes then adds `GetBytes()`, narrowed to `int`, to the
   * buffer's size, also an `int` (two's complement wrap-around assumed),
   * and `resize` throws when the new size is negative.
   */
  function SourceRegister(names: set<Bytes>, d: Data, weightType: Bytes): (o: RegisterOutcome)
    requires Registrable(d)
    requires RawOffset(d, weightType) < 0x8000_0000
    requires |RegistrationPayload(d, weightType)| < INT32_MODULUS
    ensures o.threw ==> o.sent == []
    ensures !o.threw ==> o.sent == RegisterMessages(names, d, weightType)
  {
    if !Fresh(names, d.name) then RegisterOutcome(names, [], false)
    else if SectionOf(d).Untyped? then RegisterOutcome(names + {d.name}, [RegistrationPayload(d, weightType)], false)
    else
      var newSize := ToInt32(RawOffset(d, weightType) + ToInt32(|d.cpuData|));
      if newSize < 0 then RegisterOutcome(names + {d.name}, [], true)
      else RegisterOutcome(names + {d.name}, [RegistrationPayload(d, weightType)], false)
  }

  /**
   * As written, registering a tensor whose message reaches 2^31 bytes
   * throws after its name is recorded: nothing reaches the accelerator,
   * and a later registration of the same tensor sends nothing either.
   */
  lemma SourceRegisterKeepsUnsentName(names: set<Bytes>, d: Data, weightType: Bytes)
    requires Fresh(names, d.name) && Registrable(d)
    requires RawOffset(d, weightType) < 0x8000_0000
    requires 0x8000_0000 <= |RegistrationPayload(d, weightType)| < INT32_MODULUS
    ensures SourceRegister(names, d, weightType) == RegisterOutcome(names + {d.name}, [], true)
    ensures SourceRegister(names + {d.name}, d, weightType) == RegisterOutcome(names + {d.name}, [], false)
  {
    SourceRegisterThrows(names, d, weightType);
  }

  /** With the source's `int` lengths, a fresh registration throws exactly when its message does not fit an `int`. */
  lemma SourceRegisterThrows(names: set<Bytes>, d: Data, weightType: Bytes)
    requires Fresh(names, d.name) && Registrable(d)
    requires RawOffset(d, weightType) < 0x8000_0000
    requires |RegistrationPayload(d, weightType)| < INT32_MODULUS
    ensures SourceRegister(names, d, weightType).threw <==> !IsInt32(|RegistrationPayload(d, weightType)|)
  {
    var total := |RegistrationPayload(d, weightType)|;
    PayloadEndsWithRaw(d, weightType);
    if !SectionOf(d).Untyped? {
      var off := RawOffset(d, weightType);
      var raw := |d.cpuData|;
      assert total == off + raw;
      if raw < 0x8000_0000 {
        assert ToInt32(raw) == raw;
      } else {
        assert ToInt32(raw) == raw - INT32_MODULUS;
        assert ToInt32(off + ToInt32(raw)) == off + raw - INT32_MODULUS;
      }
    }
  }

  /**
   * Registration as evidently intended: the name is recorded only together
   * with its message, and a message too long for the `int` lengths is
   * refused with the set left as it was.
   */
  function IntendedRegister(names: set<Bytes>, d: Data, weightType: Bytes): (o: RegisterOutcome)
    requires Registrable(d)
    ensures o.threw ==> o.names == names && o.sent == []
    ensures !o.threw ==> o.names == Registered(names, d.name) && o.sent == RegisterMessages(names, d, weightType)
    ensures d.name in o.names <==> d.name in names || o.sent == [RegistrationPayload(d, weightType)]
  {
    if !Fresh(names, d.name) then RegisterOutcome(names, [], false)
    else if !IsInt32(|RegistrationPayload(d, weightType)|) then RegisterOutcome(names, [], true)
    else RegisterOutcome(names + {d.name}, [RegistrationPayload(d, weightType)], false)
  }

  /** Wherever the message fits an `int`, the source's registration is the intended one. */
  lemma SourceRegisterAgrees(names: set<Bytes>, d: Data, weightType: Bytes)
    requires Registrable(d) && IsInt32(|RegistrationPayload(d, weightType)|)
    ensures RawOffset(d, weightType) < 0x8000_0000
    ensures SourceRegister(names, d, weightType) == IntendedRegister(names, d, weightType)
  {
    if Fresh(names, d.name) {
      SourceRegisterThrows(names, d, weightType);
    }
  }

  /**
   * `output` holds the bytes read back for the sub-batches `done`, which
   * cover rows `[0, rows)`, followed by what it held before from there on.
   */
  ghost predicate ReadSoFar(output: array<byte>, original: Bytes, replies: seq<Bytes>, done: seq<SubBatch>,
                            k: int, rows: int)
    reads output
  {
    |replies| == |done| && k >= 0 && |original| == output.Length &&
    |ReadBack(replies, done, k * 4)| == Span(rows, k * 4) <= |original| &&
    output[..] == ReadBack(replies, done, k * 4) + original[Span(rows, k * 4)..]
  }

  /** The shared-memory client of one accelerator. */
  class TfaccClient {
    /** The command area: bytes [0, 32 MiB) of the mapping. */
    const cmd: array<byte>
    /** The result area: bytes [32 MiB, 63 MiB) of the mapping. */
    const result: array<byte>
    /** The flag words from byte 63 MiB; partition `i`'s flag is word `i * PAGE`. */
    const flag: array<int>
    /** How many partitions the accelerator reported. */
    const serverNumaCnt: int
    /** The accelerator: the result area it leaves after the rounds posted so far. */
    const peer: seq<Round> -> ResultImage

    /** Every round launched so far, with the command area as it was launched. */
    var posted: seq<Round>
    /** The names of the tensors resident on the accelerator. */
    var registerDataNames: set<Bytes>

    predicate Valid()
    {
      cmd.Length == CMD_SIZE && result.Length == RESULT_SIZE && flag.Length == FLAG_WORDS &&
      cmd != result && 0 < serverNumaCnt <= MAX_PARTITIONS
    }

    /** A client over fresh areas, after the handshake reported `numaCnt` partitions. */
    constructor (numaCnt: int, peer: seq<Round> -> ResultImage)
      requires 0 < numaCnt <= MAX_PARTITIONS
      ensures Valid()
      ensures serverNumaCnt == numaCnt && this.peer == peer
      ensures posted == [] && registerDataNames == {}
      ensures fresh(cmd) && fresh(result) && fresh(flag)
      ensures forall s :: 0 <= s < flag.Length ==> flag[s] == 0
    {
      cmd := new byte[CMD_SIZE];
      result := new byte[RESULT_SIZE];
      flag := new int[FLAG_WORDS](_ => 0);
      serverNumaCnt := numaCnt;
      this.peer := peer;
      posted := [];
      registerDataNames := {};
    }

    /** Sets every partition's flag to `opType`; the accelerator finds the command area as it is now. */
    method Launch(opType: int)
      requires Valid()
      modifies flag, this`posted
      ensures SlotsAre(flag[..], old(flag[..]), opType, serverNumaCnt)
      ensures posted == old(posted) + [Round(opType, cmd[..])]
    {
      var i := 0;
      while i < serverNumaCnt
        invariant 0 <= i <= serverNumaCnt
        invariant SlotsAre(flag[..], old(flag[..]), opType, i)
        invariant posted == old(posted)
      {
        flag[i * PAGE] := opType;
        i := i + 1;
      }
      posted := posted + [Round(opType, cmd[..])];
    }

    /**
     * Returns once the accelerator has finished the round: it has left its
     * reply in the result area and cleared every partition's flag.
     */
    method Wait()
      requires Valid()
      modifies result, flag
      ensures result[..] == peer(posted)
      ensures SlotsAre(flag[..], old(flag[..]), 0, serverNumaCnt)
    {
      var reply := peer(posted);
      forall i | 0 <= i < result.Length {
        result[i] := reply[i];
      }
      forall s | 0 <= s < flag.Length && IsSlot(s, serverNumaCnt) {
        flag[s] := 0;
      }
    }

    /** One StartLongData round: the chunk's length and bytes at the start of the command area, launch, wait. */
    method SendChunk(chunk: Bytes) returns (ghost r: Round)
      requires Valid()
      requires 0 < |chunk| <= TRANS_LIMIT
      modifies cmd, result, flag, this`posted
      ensures CarriesChunk(r, chunk)
      ensures posted == old(posted) + [r] && r.command == cmd[..]
      ensures result[..] == peer(posted)
      ensures SlotsAre(flag[..], old(flag[..]), 0, serverNumaCnt)
    {
      Store(cmd, 0, EncodeInt32(|chunk|));
      Store(cmd, 4, chunk);
      assert cmd[..4] == EncodeInt32(|chunk|);
      Launch(START_LONG_DATA);
      Wait();
      r := posted[|posted| - 1];
    }

    /**
     * The turn of the chunk loop at byte `i` of `data`: sends the chunk that
     * starts there, which is chunk `|rounds|` of `data`.
     */
    method SendNextChunk(data: Bytes, i: int, ghost rounds: seq<Round>) returns (ghost r: Round)
      requires Valid()
      requires 0 <= i < |data| && |rounds| < |Chunks(data)|
      requires Chunks(data)[|rounds|..] == Chunks(data[i..])
      requires CarryChunks(rounds, Chunks(data))
      modifies cmd, result, flag, this`posted
      ensures Chunks(data)[|rounds| + 1..] == Chunks(data[Min(i + TRANS_LIMIT, |data|)..])
      ensures CarryChunks(rounds + [r], Chunks(data))
      ensures posted == old(posted) + [r]
      ensures SlotsAre(flag[..], old(flag[..]), 0, serverNumaCnt)
    {
      var cur := Min(TRANS_LIMIT, |data| - i);
      ChunksFrom(data, i);
      ghost var cs := Chunks(data);
      ghost var j := |rounds|;
      assert cs[j] == cs[j..][0] == data[i .. i + cur];
      assert cs[j + 1..] == cs[j..][1..];
      r := SendChunk(data[i .. i + cur]);
      CarryChunksSnoc(rounds, cs, r);
    }

    /** The StartLongData rounds of SendLongMessage: one per chunk of `data`, in order. */
    method SendChunks(data: Bytes) returns (ghost rounds: seq<Round>)
      requires Valid()
      modifies cmd, result, flag, this`posted
      ensures |rounds| == |Chunks(data)|
      ensures CarryChunks(rounds, Chunks(data))
      ensures posted == old(posted) + rounds
      ensures SlotsAre(flag[..], old(flag[..]), 0, if |data| == 0 then 0 else serverNumaCnt)
      ensures |data| == 0 ==> unchanged(cmd, result)
    {
      ghost var cs := Chunks(data);
      rounds := [];
      var i := 0;
      while i < |data|
        invariant 0 <= i && |rounds| <= |cs|
        invariant cs[|rounds|..] == Chunks(data[Min(i, |data|)..])
        invariant posted == old(posted) + rounds
        invariant CarryChunks(rounds, cs)
        invariant SlotsAre(flag[..], old(flag[..]), 0, if rounds == [] then 0 else serverNumaCnt)
        invariant rounds == [] ==> unchanged(cmd, result)
        decreases |data| - i
      {
        assert |rounds| < |cs|;
        ghost var r: Round;
        r := SendNextChunk(data, i, rounds);
        rounds := rounds + [r];
        i := i + TRANS_LIMIT;
      }
      assert data[Min(i, |data|)..] == [];
    }

    /**
     * Sends `data` in chunks of at most TRANS_LIMIT bytes, each as a 32-bit
     * length and the chunk at the start of the command area, one
     * StartLongData round per chunk, then one FinishLongData round.
     */
    method SendLongMessage(data: Bytes) returns (ghost rounds: seq<Round>)
      requires Valid()
      requires IsInt32(|data|)
      modifies cmd, result, flag, this`posted
      ensures IsLongMessage(rounds, data)
      ensures posted == old(posted) + rounds
      ensures Received(posted) == Deliver(old(Received(posted)), [data])
      ensures result[..] == peer(posted)
      ensures SlotsAre(flag[..], old(flag[..]), 0, serverNumaCnt)
      ensures cmd[..] == rounds[|rounds| - 1].command
      ensures |data| == 0 ==> cmd[..] == old(cmd[..])
    {
      rounds := SendChunks(data);
      Launch(FINISH_LONG_DATA);
      Wait();
      ChunksThenFinish(rounds, posted[|posted| - 1], data);
      rounds := rounds + [posted[|posted| - 1]];
      LongMessageDelivered(old(posted), rounds, data);
      assert [data][..0] == [];
    }

    /**
     * Registers tensor `d` in role `weightType`: nothing happens when its
     * name is empty or already registered; otherwise the name is recorded
     * and exactly one long message, its registration, is sent.
     */
    method RegisterFastllmData(d: Data, weightType: Bytes) returns (ghost rounds: seq<Round>)
      requires Valid()
      requires Fresh(registerDataNames, d.name) ==>
        Registrable(d) && IsInt32(|RegistrationPayload(d, weightType)|)
      modifies cmd, result, flag, this`posted, this`registerDataNames
      ensures registerDataNames == Registered(old(registerDataNames), d.name)
      ensures Received(posted) == Deliver(old(Received(posted)), RegisterMessages(old(registerDataNames), d, weightType))
      ensures posted == old(posted) + rounds
      ensures !Fresh(old(registerDataNames), d.name) ==> rounds == [] && unchanged(cmd, result, flag)
      ensures Fresh(old(registerDataNames), d.name) ==>
        IsLongMessage(rounds, RegistrationPayload(d, weightType)) &&
        result[..] == peer(posted) && SlotsAre(flag[..], old(flag[..]), 0, serverNumaCnt)
    {
      if d.name == [] || d.name in registerDataNames {
        rounds := [];
        return;
      }
      registerDataNames := registerDataNames + {d.name};
      var payload := BuildRegistration(d, weightType);
      rounds := SendLongMessage(payload);
    }

    /**
     * Unregisters `name`: nothing happens when it is not registered;
     * otherwise it is removed and exactly one long message, its
     * unregistration, is sent.
     */
    method UnregisterFastllmData(name: Bytes) returns (ghost rounds: seq<Round>)
      requires Valid()
      requires name in registerDataNames ==> IsInt32(|UnregisterPayload(name)|)
      modifies cmd, result, flag, this`posted, this`registerDataNames
      ensures registerDataNames == old(registerDataNames) - {name}
      ensures Received(posted) == Deliver(old(Received(posted)), UnregisterMessages(old(registerDataNames), name))
      ensures posted == old(posted) + rounds
      ensures name !in old(registerDataNames) ==> rounds == [] && unchanged(cmd, result, flag)
      ensures name in old(registerDataNames) ==>
        IsLongMessage(rounds, UnregisterPayload(name)) &&
        result[..] == peer(posted) && SlotsAre(flag[..], old(flag[..]), 0, serverNumaCnt)
    {
      if name !in registerDataNames {
        rounds := [];
        return;
      }
      registerDataNames := registerDataNames - {name};
      var payload := BuildUnregistration(name);
      rounds := SendLongMessage(payload);
    }

    /**
     * Teardown: unregisters every name registered, one long message each,
     * in the order `order`, which lists each of them once; the set ends empty.
     */
    method Destroy() returns (ghost order: seq<Bytes>)
      requires Valid()
      requires forall name :: name in registerDataNames ==> IsInt32(|UnregisterPayload(name)|)
      modifies cmd, result, flag, this`posted, this`registerDataNames
      ensures registerDataNames == {}
      ensures forall name :: name in order <==> name in old(registerDataNames)
      ensures forall a, b :: 0 <= a < b < |order| ==> order[a] != order[b]
      ensures Received(posted) == Deliver(old(Received(posted)), UnregisterPayloads(order))
      ensures old(Received(posted)).pending == [] ==>
        Received(posted) == Inbox(old(Received(posted)).messages + UnregisterPayloads(order), [])
    {
      ghost var box := Received(posted);
      var names := registerDataNames;
      var rest := names;
      order := [];
      while rest != {}
        invariant rest <= names && registerDataNames == rest
        invariant forall name :: name in order <==> name in names && name !in rest
        invariant forall a, b :: 0 <= a < b < |order| ==> order[a] != order[b]
        invariant Received(posted) == Deliver(box, UnregisterPayloads(order))
        decreases |rest|
      {
        var name :| name in rest;
        UnregisterNext(box, order, name);
        rest := rest - {name};
        order := order + [name];
      }
      if box.pending == [] {
        DeliverIdle(box, UnregisterPayloads(order));
      }
    }

    /** One turn of the teardown loop: unregisters `name`, the next name after those in `order`. */
    method UnregisterNext(ghost box: Inbox, ghost order: seq<Bytes>, name: Bytes)
      requires Valid() && name in registerDataNames && IsInt32(|UnregisterPayload(name)|)
      requires Received(posted) == Deliver(box, UnregisterPayloads(order))
      modifies cmd, result, flag, this`posted, this`registerDataNames
      ensures registerDataNames == old(registerDataNames) - {name}
      ensures Received(posted) == Deliver(box, UnregisterPayloads(order + [name]))
    {
      ghost var rs: seq<Round>;
      rs := UnregisterFastllmData(name);
      assert UnregisterPayloads(order + [name]) == UnregisterPayloads(order) + [UnregisterPayload(name)];
      DeliverConcat(box, UnregisterPayloads(order), [UnregisterPayload(name)]);
    }

    /** Writes one range at byte `at` of the command area: its min float, then its max float. */
    method WriteRange(at: int, r: Range)
      requires Valid() && 0 <= at && at + 8 <= CMD_SIZE
      modifies cmd
      ensures cmd[..] == Splice(old(cmd[..]), at, EncodeRange(r))
    {
      Store(cmd, at, r.min);
      Store(cmd, at + 4, r.max);
      SpliceAdjacent(old(cmd[..]), at, r.min, r.max);
    }

    /** Writes the (min, max) float pairs of `ranges` one after another from byte 40 of the command area. */
    method WriteRanges(ranges: seq<Range>)
      requires Valid()
      requires RANGES_OFFSET + 8 * |ranges| <= CMD_SIZE
      modifies cmd
      ensures cmd[..] == Splice(old(cmd[..]), RANGES_OFFSET, EncodeRanges(ranges))
    {
      ghost var s0 := cmd[..];
      SpliceEmpty(s0, RANGES_OFFSET);
      var cur := RANGES_OFFSET;
      var i := 0;
      while i < |ranges|
        invariant 0 <= i <= |ranges| && cur == RANGES_OFFSET + 8 * i
        invariant cmd[..] == Splice(s0, RANGES_OFFSET, EncodeRanges(ranges[..i]))
      {
        ghost var e := EncodeRanges(ranges[..i]);
        WriteRange(cur, ranges[i]);
        SpliceAdjacent(s0, RANGES_OFFSET, e, EncodeRange(ranges[i]));
        EncodeRangesAppend(ranges[..i], ranges[i]);
        assert ranges[..i + 1] == ranges[..i] + [ranges[i]];
        cur := cur + 8;
        i := i + 1;
      }
      assert ranges[..i] == ranges;
    }

    /**
     * Writes `x` right after the `done` bytes already written from byte 40
     * of the command area, so that `done + x` is written there.
     */
    method WriteNext(ghost s0: Bytes, ghost done: Bytes, at: int, x: Bytes)
      requires Valid()
      requires |s0| == CMD_SIZE && at == RANGES_OFFSET + |done| && at + |x| <= CMD_SIZE
      requires cmd[..] == Splice(s0, RANGES_OFFSET, done)
      modifies cmd
      ensures cmd[..] == Splice(s0, RANGES_OFFSET, done + x)
    {
      Store(cmd, at, x);
      SpliceAdjacent(s0, RANGES_OFFSET, done, x);
    }

    /** Writes command `c` into the command area: header ints from byte 0, ranges, names and input from byte 40. */
    method WriteLinearCommand(c: LinearCommand)
      requires Valid()
      requires RANGES_OFFSET + |LinearBody(c)| <= CMD_SIZE
      modifies cmd
      ensures cmd[..] == Splice(Splice(old(cmd[..]), 0, LinearHeader(c)), RANGES_OFFSET, LinearBody(c))
      ensures Carries(cmd[..], c)
    {
      ghost var s0 := Splice(old(cmd[..]), 0, LinearHeader(c));
      Store(cmd, 0, LinearHeader(c));
      WriteRanges(c.ranges);
      ghost var e := EncodeRanges(c.ranges);
      var cur := RANGES_OFFSET + 8 * |c.ranges|;
      WriteNext(s0, e, cur, c.weightName);
      cur := cur + |c.weightName|;
      WriteNext(s0, e + c.weightName, cur, c.biasName);
      cur := cur + |c.biasName|;
      WriteNext(s0, e + c.weightName + c.biasName, cur, c.input);
      CarriedAfterWrite(old(cmd[..]), c);
    }

    /**
     * One sub-batch round: writes its command, launches `opType`, waits,
     * and copies the first `cur * k * 4` bytes of the result area to byte
     * `base * k * 4` of `output`.
     */
    method RunSubBatch(b: SubBatch, opType: int, m: int, k: int, weightName: Bytes, biasName: Bytes,
                       inputConfigs: seq<Range>, uinput: Bytes, output: array<byte>)
      returns (ghost r: Round, ghost reply: ResultImage)
      requires Valid()
      requires output != cmd && output != result
      requires opType != START_LONG_DATA && opType != FINISH_LONG_DATA
      requires m >= 0 && k > 0
      requires b.base + b.cur <= |inputConfigs| && Span(b.base, m) + Span(b.cur, m) <= |uinput|
      requires CommandSize(b.cur, m, |weightName|, |biasName|) <= CMD_SIZE
      requires Len(b, k * 4) <= RESULT_SIZE && Lo(b, k * 4) + Len(b, k * 4) <= output.Length
      modifies cmd, result, flag, output, this`posted
      ensures posted == old(posted) + [r]
      ensures PostsBatch(r, opType, b, m, k, weightName, biasName, inputConfigs, uinput)
      ensures reply == peer(posted) && result[..] == reply
      ensures output[..] == Splice(old(output[..]), Lo(b, k * 4), reply[..Len(b, k * 4)])
      ensures Received(posted) == old(Received(posted))
      ensures SlotsAre(flag[..], old(flag[..]), 0, serverNumaCnt)
    {
      var c := BatchCommand(b, m, k, weightName, biasName, inputConfigs, uinput);
      WriteLinearCommand(c);
      ghost var before := posted;
      Launch(opType);
      r := Round(opType, cmd[..]);
      ReceivedOtherRound(before, r);
      Wait();
      reply := result[..];
      Store(output, Lo(b, k * 4), result[..Len(b, k * 4)]);
    }

    /**
     * One turn of the sub-batch loop: runs sub-batch `b` after the sub-batches
     * `done`, extending the record of rounds and the output read back so far.
     */
    method RunNextBatch(b: SubBatch, opType: int, m: int, k: int, weightName: Bytes, biasName: Bytes,
                        inputConfigs: seq<Range>, uinput: Bytes, output: array<byte>,
                        ghost prior: seq<Round>, ghost rounds: seq<Round>, ghost replies: seq<ResultImage>,
                        ghost done: seq<SubBatch>, ghost original: Bytes)
      returns (ghost r: Round, ghost reply: ResultImage)
      requires Valid()
      requires output != cmd && output != result
      requires opType != START_LONG_DATA && opType != FINISH_LONG_DATA
      requires m > 0 && k > 0
      requires b.base + b.cur <= |inputConfigs| && Span(b.base, m) + Span(b.cur, m) <= |uinput|
      requires CommandSize(b.cur, m, |weightName|, |biasName|) <= CMD_SIZE
      requires Len(b, k * 4) <= TRANS_LIMIT && Lo(b, k * 4) + Len(b, k * 4) <= output.Length
      requires posted == prior + rounds
      requires Ran(prior, rounds, replies, done, peer, opType, m, k, weightName, biasName, inputConfigs, uinput)
      requires |original| == output.Length && |ReadBack(replies, done, k * 4)| == Lo(b, k * 4)
      requires output[..] == ReadBack(replies, done, k * 4) + original[Lo(b, k * 4)..]
      modifies cmd, result, flag, output, this`posted
      ensures posted == prior + (rounds + [r])
      ensures Ran(prior, rounds + [r], replies + [reply], done + [b], peer, opType, m, k, weightName, biasName,
                  inputConfigs, uinput)
      ensures |ReadBack(replies + [reply], done + [b], k * 4)| == Lo(b, k * 4) + Len(b, k * 4)
      ensures output[..] == ReadBack(replies + [reply], done + [b], k * 4) + original[Lo(b, k * 4) + Len(b, k * 4)..]
      ensures Received(posted) == old(Received(posted))
    {
      r, reply := RunSubBatch(b, opType, m, k, weightName, biasName, inputConfigs, uinput, output);
      assert posted == prior + (rounds + [r]);
      RanSnoc(prior, rounds, replies, done, peer, opType, m, k, weightName, biasName, inputConfigs, uinput,
              r, reply, b);
      ReadBackAfter(replies, done, k * 4, original, reply, b);
    }

    /**
     * The turn of the sub-batch loop at row `baseN`: runs the next sub-batch
     * of the walk over `[0, n)`, which moves from the walk still to go to
     * the sub-batches done, and its results join those read back so far.
     */
    method RunStep(n: int, maxN: int, baseN: int, opType: int, m: int, k: int, weightName: Bytes, biasName: Bytes,
                   inputConfigs: seq<Range>, uinput: Bytes, output: array<byte>,
                   ghost prior: seq<Round>, ghost rounds: seq<Round>, ghost replies: seq<ResultImage>,
                   ghost done: seq<SubBatch>, ghost bs: seq<SubBatch>, ghost original: Bytes)
      returns (ghost r: Round, ghost reply: ResultImage, b: SubBatch)
      requires Valid()
      requires output != cmd && output != result
      requires opType != START_LONG_DATA && opType != FINISH_LONG_DATA
      requires m > 0 && k > 0 && SizeFits(maxN, m, k, |weightName|, |biasName|)
      requires n <= |inputConfigs| && Span(n, m) <= |uinput| && Span(n, k * 4) <= output.Length
      requires 0 <= baseN < n && done + Walk(n, maxN, baseN) == bs
      requires posted == prior + rounds
      requires Ran(prior, rounds, replies, done, peer, opType, m, k, weightName, biasName, inputConfigs, uinput)
      requires ReadSoFar(output, original, replies, done, k, Min(baseN, n))
      modifies cmd, result, flag, output, this`posted
      ensures (done + [b]) + Walk(n, maxN, baseN + maxN) == bs
      ensures posted == prior + (rounds + [r])
      ensures Ran(prior, rounds + [r], replies + [reply], done + [b], peer, opType, m, k, weightName, biasName,
                  inputConfigs, uinput)
      ensures ReadSoFar(output, original, replies + [reply], done + [b], k, Min(baseN + maxN, n))
      ensures Received(posted) == old(Received(posted))
    {
      var curN := Min(maxN, n - baseN);
      b := SubBatch(baseN, curN);
      WalkStep(n, maxN, baseN, done, bs);
      BatchFits(n, maxN, m, k, |weightName|, |biasName|, b);
      r, reply := RunNextBatch(b, opType, m, k, weightName, biasName, inputConfigs, uinput, output,
                               prior, rounds, replies, done, original);
    }

    /**
     * The sub-batch loop over `n > 0` rows: rows `[0, n)` in sub-batches of
     * `maxN`, one round each, every sub-batch's results copied to its place
     * in `output`.
     */
    method RunLoop(n: int, maxN: int, opType: int, m: int, k: int, weightName: Bytes, biasName: Bytes,
                   inputConfigs: seq<Range>, uinput: Bytes, output: array<byte>)
      returns (ghost rounds: seq<Round>, ghost replies: seq<ResultImage>)
      requires Valid()
      requires output != cmd && output != result
      requires opType != START_LONG_DATA && opType != FINISH_LONG_DATA
      requires m > 0 && k > 0 && n > 0 && SizeFits(maxN, m, k, |weightName|, |biasName|)
      requires n <= |inputConfigs| && Span(n, m) <= |uinput| && Span(n, k * 4) <= output.Length
      modifies cmd, result, flag, output, this`posted
      ensures posted == old(posted) + rounds
      ensures Ran(old(posted), rounds, replies, SubBatches(n, maxN), peer, opType, m, k, weightName, biasName,
                  inputConfigs, uinput)
      ensures output[..] == ReadBack(replies, SubBatches(n, maxN), k * 4) + old(output[..])[Span(n, k * 4)..]
      ensures Received(posted) == old(Received(posted))
    {
      ghost var bs := SubBatches(n, maxN);
      ghost var original := output[..];
      ghost var done: seq<SubBatch> := [];
      rounds := [];
      replies := [];
      var baseN := 0;
      assert [] + Walk(n, maxN, 0) == bs;
      while baseN < n
        invariant 0 <= baseN
        invariant done + Walk(n, maxN, baseN) == bs
        invariant posted == old(posted) + rounds
        invariant Received(posted) == old(Received(posted))
        invariant Ran(old(posted), rounds, replies, done, peer, opType, m, k, weightName, biasName,
                      inputConfigs, uinput)
        invariant ReadSoFar(output, original, replies, done, k, Min(baseN, n))
        decreases n - baseN
      {
        ghost var r: Round;
        ghost var reply: ResultImage;
        var b: SubBatch;
        r, reply, b := RunStep(n, maxN, baseN, opType, m, k, weightName, biasName, inputConfigs, uinput, output,
                               old(posted), rounds, replies, done, bs, original);
        rounds := rounds + [r];
        replies := replies + [reply];
        done := done + [b];
        baseN := baseN + maxN;
      }
      assert done + [] == done;
    }

    /**
     * The sub-batch loop: rows `[0, n)` in sub-batches of `maxN`; no round
     * at all when `n <= 0`.
     */
    method RunBatches(n: int, maxN: int, opType: int, m: int, k: int, weightName: Bytes, biasName: Bytes,
                      inputConfigs: seq<Range>, uinput: Bytes, output: array<byte>)
      returns (ghost rounds: seq<Round>, ghost replies: seq<ResultImage>)
      requires Valid()
      requires output != cmd && output != result
      requires opType != START_LONG_DATA && opType != FINISH_LONG_DATA
      requires m > 0 && k > 0
      requires n > 0 ==> SizeFits(maxN, m, k, |weightName|, |biasName|)
      requires Iterations(n) <= |inputConfigs| && Span(Iterations(n), m) <= |uinput|
      requires Span(Iterations(n), k * 4) <= output.Length
      modifies cmd, result, flag, output, this`posted
      ensures posted == old(posted) + rounds
      ensures Ran(old(posted), rounds, replies, Plan(n, maxN), peer, opType, m, k, weightName, biasName,
                  inputConfigs, uinput)
      ensures output[..] == ReadBack(replies, Plan(n, maxN), k * 4) + old(output[..])[Span(Iterations(n), k * 4)..]
      ensures Received(posted) == old(Received(posted))
    {
      if n <= 0 {
        rounds, replies := [], [];
        assert output[..] == [] + old(output[..])[0..];
      } else {
        rounds, replies := RunLoop(n, maxN, opType, m, k, weightName, biasName, inputConfigs, uinput, output);
      }
    }

    /**
     * Runs the quantized linear op on `n` rows: registers the weight and
     * the bias, then for each sub-batch writes its command, launches the
     * op selected by the weight's type, waits, and copies the sub-batch's
     * `cur * k` four-byte results to byte `base * k * 4` of `output`.
     */
    method RunTfaccLinearU(n: int, m: int, k: int, weight: Data, bias: Data,
                           inputConfigs: seq<Range>, uinput: Bytes, output: array<byte>)
      returns (ghost setup: seq<Round>, ghost rounds: seq<Round>, ghost replies: seq<ResultImage>)
      requires Valid()
      requires output != cmd && output != result
      requires m > 0 && k > 0
      requires Fresh(registerDataNames, weight.name) ==>
        Registrable(weight) && IsInt32(|RegistrationPayload(weight, LINEAR_ROLE)|)
      requires Fresh(Registered(registerDataNames, weight.name), bias.name) ==>
        Registrable(bias) && IsInt32(|RegistrationPayload(bias, BIAS_ROLE)|)
      requires n > 0 ==> FittingMaxN(n, m, k, |weight.name|, |BiasName(bias)|) > 0
      requires Iterations(n) <= |inputConfigs| && Span(Iterations(n), m) <= |uinput|
      requires Span(Iterations(n), k * 4) <= output.Length
      modifies cmd, result, flag, output, this`posted, this`registerDataNames
      ensures registerDataNames == Registered(Registered(old(registerDataNames), weight.name), bias.name)
      ensures Received(posted) == Deliver(old(Received(posted)),
        RegisterMessages(old(registerDataNames), weight, LINEAR_ROLE) +
        RegisterMessages(Registered(old(registerDataNames), weight.name), bias, BIAS_ROLE))
      ensures posted == old(posted) + setup + rounds
      ensures Ran(old(posted) + setup, rounds, replies,
                  Batches(n, m, k, |weight.name|, |BiasName(bias)|), peer, LinearOp(weight.dataType), m, k,
                  weight.name, BiasName(bias), inputConfigs, uinput)
      ensures output[..] == ReadBack(replies, Batches(n, m, k, |weight.name|, |BiasName(bias)|), k * 4)
                            + old(output[..])[Span(Iterations(n), k * 4)..]
    {
      ghost var r1: seq<Round>;
      ghost var r2: seq<Round>;
      r1 := RegisterFastllmData(weight, LINEAR_ROLE);
      r2 := RegisterFastllmData(bias, BIAS_ROLE);
      DeliverConcat(old(Received(posted)), RegisterMessages(old(registerDataNames), weight, LINEAR_ROLE),
        RegisterMessages(Registered(old(registerDataNames), weight.name), bias, BIAS_ROLE));
      setup := r1 + r2;
      Assoc(old(posted), r1, r2);

      var opType := LinearOp(weight.dataType);
      var biasName := BiasName(bias);
      var maxN := FittingMaxN(n, m, k, |weight.name|, |biasName|);
      if n > 0 {
        FittingMaxNSizeFits(n, m, k, |weight.name|, |biasName|);
      }
      rounds, replies := RunBatches(n, maxN, opType, m, k, weight.name, biasName, inputConfigs, uinput, output);
    }
  }

  /**
   * Round `q` of `rounds`, posted after `prior`, launched `op` with the
   * command for sub-batch `q` of `bs`; the accelerator answered it with
   * `replies[q]`, and that sub-batch's results fit the result area.
   */
  predicate RoundRan(prior: seq<Round>, rounds: seq<Round>, replies: seq<ResultImage>, bs: seq<SubBatch>, q: int,
                     peer: seq<Round> -> ResultImage, op: int, m: int, k: int, weightName: Bytes, biasName: Bytes,
                     inputConfigs: seq<Range>, uinput: Bytes)
  {
    0 <= q < |bs| && q < |rounds| && q < |replies| &&
    PostsBatch(rounds[q], op, bs[q], m, k, weightName, biasName, inputConfigs, uinput) &&
    replies[q] == peer(prior + rounds[..q + 1]) &&
    Span(bs[q].cur, k * 4) <= RESULT_SIZE
  }

  /** `rounds` are the sub-batch rounds of `bs`, one each, in order, answered by `replies`. */
  predicate Ran(prior: seq<Round>, rounds: seq<Round>, replies: seq<ResultImage>, bs: seq<SubBatch>,
                peer: seq<Round> -> ResultImage, op: int, m: int, k: int, weightName: Bytes, biasName: Bytes,
                inputConfigs: seq<Range>, uinput: Bytes)
  {
    |rounds| == |bs| && |replies| == |bs| &&
    forall q :: 0 <= q < |bs| ==>
      RoundRan(prior, rounds, replies, bs, q, peer, op, m, k, weightName, biasName, inputConfigs, uinput)
  }

  /** One more round, for sub-batch `b`, answered by `reply`, extends the record. */
  lemma RanSnoc(prior: seq<Round>, rounds: seq<Round>, replies: seq<ResultImage>, bs: seq<SubBatch>,
                peer: seq<Round> -> ResultImage, op: int, m: int, k: int, weightName: Bytes, biasName: Bytes,
                inputConfigs: seq<Range>, uinput: Bytes, r: Round, reply: ResultImage, b: SubBatch)
    requires Ran(prior, rounds, replies, bs, peer, op, m, k, weightName, biasName, inputConfigs, uinput)
    requires PostsBatch(r, op, b, m, k, weightName, biasName, inputConfigs, uinput)
    requires reply == peer(prior + (rounds + [r])) && Span(b.cur, k * 4) <= RESULT_SIZE
    ensures Ran(prior, rounds + [r], replies + [reply], bs + [b], peer, op, m, k, weightName, biasName,
                inputConfigs, uinput)
  {
    var rounds', replies', bs' := rounds + [r], replies + [reply], bs + [b];
    forall q | 0 <= q < |bs'|
      ensures RoundRan(prior, rounds', replies', bs', q, peer, op, m, k, weightName, biasName, inputConfigs, uinput)
    {
      if q < |bs| {
        assert RoundRan(prior, rounds, replies, bs, q, peer, op, m, k, weightName, biasName, inputConfigs, uinput);
        assert rounds'[..q + 1] == rounds[..q + 1];
        assert rounds'[q] == rounds[q] && replies'[q] == replies[q] && bs'[q] == bs[q];
      } else {
        assert rounds'[..q + 1] == rounds';
      }
    }
  }

  /** After the header and the body are written, the command area carries the command. */
  lemma CarriedAfterWrite(s: Bytes, c: LinearCommand)
    requires RANGES_OFFSET + |LinearBody(c)| <= |s|
    ensures Carries(Splice(Splice(s, 0, LinearHeader(c)), RANGES_OFFSET, LinearBody(c)), c)
  {
    var s0 := Splice(s, 0, LinearHeader(c));
    SpliceKeeps(s0, RANGES_OFFSET, LinearBody(c), 0, HEADER_BYTES);
    assert s0[..HEADER_BYTES] == s0[0 .. HEADER_BYTES];
  }

  /**
   * The registration message of tensor `d` in role `weightType`, assembled
   * in a U8Buffer: config length and text, dimension count and dimensions,
   * then the section its element type calls for.
   */
  method BuildRegistration(d: Data, weightType: Bytes) returns (payload: Bytes)
    requires Registrable(d)
    ensures payload == RegistrationPayload(d, weightType)
  {
    var config := RegisterConfig(d.name, weightType);
    var buffer := new U8Buffer();
    buffer.WriteInt(|config|);
    buffer.WriteBytes(config, |config|);
    assert config[..|config|] == config;
    buffer.WriteInt(|d.dims|);
    WriteInts(buffer, d.dims);
    ghost var head := buffer.buffer;
    assert head == RegistrationHead(config, d.dims);
    WriteSection(buffer, d);
    payload := buffer.buffer;
    assert payload == head + EncodeSection(SectionOf(d));
  }

  /** Appends the integers `xs`, one 4-byte store each. */
  method WriteInts(buffer: U8Buffer, xs: seq<int>)
    modifies buffer
    ensures buffer.buffer == old(buffer.buffer) + EncodeInts(xs)
  {
    var i := 0;
    while i < |xs|
      invariant 0 <= i <= |xs|
      invariant buffer.buffer == old(buffer.buffer) + EncodeInts(xs[..i])
    {
      buffer.WriteInt(xs[i]);
      EncodeIntsAppend(xs[..i], xs[i]);
      assert xs[..i + 1] == xs[..i] + [xs[i]];
      i := i + 1;
    }
    assert xs[..i] == xs;
  }

  /** Appends the type-tagged section of `d`: nothing for a type the accelerator does not take. */
  method WriteSection(buffer: U8Buffer, d: Data)
    requires Registrable(d)
    modifies buffer
    ensures buffer.buffer == old(buffer.buffer) + EncodeSection(SectionOf(d))
  {
    var t := d.dataType;
    if IsFloatType(t) {
      buffer.WriteInt(TypeTag(t));
      buffer.WriteBytes(d.cpuData, |d.cpuData|);
    } else if IsPerChannelType(t) {
      var k := if d.perChannelAxis == -1 then 1 else d.dims[d.perChannelAxis];
      WritePerChannel(buffer, TypeTag(t), d.perChannelAxis, d.perChannelsConfigs, k, d.cpuData);
    } else if t == Int4Group {
      var k := if d.perChannelAxis == -1 then 1 else d.dims[d.perChannelAxis];
      WriteGrouped(buffer, TypeTag(t), d.perChannelAxis, d.group, d.groupCnt, d.perChannelsConfigs, k, d.cpuData);
    }
  }

  /** The per-channel section: tag, axis, `k` (min, max) pairs, raw bytes. */
  method WritePerChannel(buffer: U8Buffer, tag: int, axis: int, configs: seq<Range>, k: int, raw: Bytes)
    requires Iterations(k) <= |configs|
    modifies buffer
    ensures buffer.buffer == old(buffer.buffer) + EncodeSection(PerChannel(tag, axis, configs[..Iterations(k)], raw))
  {
    ghost var b0 := buffer.buffer;
    ghost var ranges := EncodeRanges(configs[..Iterations(k)]);
    buffer.WriteInt(tag);
    buffer.WriteInt(axis);
    Assoc(b0, EncodeInt32(tag), EncodeInt32(axis));
    ghost var fields := EncodeInt32(tag) + EncodeInt32(axis);
    WriteRangePairs(buffer, configs, k);
    Assoc(b0, fields, ranges);
    buffer.WriteBytes(raw, |raw|);
    assert raw[..|raw|] == raw;
    Assoc(b0, fields + ranges, raw);
  }

  /** The grouped section: tag, axis, group, group count, `k * group` (min, max) pairs, raw bytes. */
  method WriteGrouped(buffer: U8Buffer, tag: int, axis: int, group: int, groupCnt: int,
                      configs: seq<Range>, k: int, raw: Bytes)
    requires Iterations(k * group) <= |configs|
    modifies buffer
    ensures buffer.buffer == old(buffer.buffer) +
      EncodeSection(Grouped(tag, axis, group, groupCnt, configs[..Iterations(k * group)], raw))
  {
    ghost var b0 := buffer.buffer;
    ghost var ranges := EncodeRanges(configs[..Iterations(k * group)]);
    buffer.WriteInt(tag);
    buffer.WriteInt(axis);
    Assoc(b0, EncodeInt32(tag), EncodeInt32(axis));
    ghost var f2 := EncodeInt32(tag) + EncodeInt32(axis);
    buffer.WriteInt(group);
    Assoc(b0, f2, EncodeInt32(group));
    ghost var f3 := f2 + EncodeInt32(group);
    buffer.WriteInt(groupCnt);
    Assoc(b0, f3, EncodeInt32(groupCnt));
    ghost var fields := f3 + EncodeInt32(groupCnt);
    WriteRangePairs(buffer, configs, k * group);
    Assoc(b0, fields, ranges);
    buffer.WriteBytes(raw, |raw|);
    assert raw[..|raw|] == raw;
    Assoc(b0, fields + ranges, raw);
  }

  /** The unregistration message for `name`, assembled in a U8Buffer: config length and text. */
  method BuildUnregistration(name: Bytes) returns (payload: Bytes)
    ensures payload == UnregisterPayload(name)
  {
    var config := UnregisterConfig(name);
    var buffer := new U8Buffer();
    buffer.WriteInt(|config|);
    buffer.WriteBytes(config, |config|);
    payload := buffer.buffer;
  }

  /** Appends `count` (min, max) pairs from `configs`, as a loop `for (i = 0; i < count; i++)` does. */
  method WriteRangePairs(buffer: U8Buffer, configs: seq<Range>, count: int)
    requires Iterations(count) <= |configs|
    modifies buffer
    ensures buffer.buffer == old(buffer.buffer) + EncodeRanges(configs[..Iterations(count)])
  {
    var i := 0;
    while i < count
      invariant 0 <= i <= Iterations(count)
      invariant buffer.buffer == old(buffer.buffer) + EncodeRanges(configs[..i])
    {
      buffer.WriteFloat(configs[i].min);
      buffer.WriteFloat(configs[i].max);
      EncodeRangesAppend(configs[..i], configs[i]);
      assert configs[..i + 1] == configs[..i] + [configs[i]];
      i := i + 1;
    }
  }
}
