/**
 * The quantized linear invoker's arithmetic: which op code a weight selects,
 * how a batch of `n` rows is cut into sub-batches that fit the shared
 * buffers, the layout of one sub-batch's command, and how the per-round
 * results are laid out in the caller's output.
 */
module Linear {
  import opened Wire
  import opened Protocol
  import opened Registration

  /** The weight's element type picks the op: LinearInt8 for INT8 weights, LinearInt4NoZero for every other type. */
  function LinearOp(t: DataType): (op: int)
    ensures op == LINEAR_INT8 <==> t == Int8
    ensures op == LINEAR_INT4_NO_ZERO <==> t != Int8
  {
    if t == Int8 then LINEAR_INT8 else LINEAR_INT4_NO_ZERO
  }

  /**
   * The bias is named in the command only when it has a shape and its data
   * is on the CPU; a zero-size placeholder or a null `cpuData` means "no bias".
   */
  function BiasName(bias: Data): (name: Bytes)
    ensures |bias.dims| == 0 || !bias.hasCpuData ==> name == []
    ensures |bias.dims| > 0 && bias.hasCpuData ==> name == bias.name
  {
    if |bias.dims| > 0 && bias.hasCpuData then bias.name else []
  }

  // ---- Sub-batch sizing ----

  /** `curN, m, k, group, |weightName|, |biasName|` occupy ints 0..5; the ranges start at int 10. */
  const HEADER_BYTES: int := 6 * 4
  const RANGES_OFFSET: int := 10 * 4

  /** Bytes of the command area one sub-batch of `curN` rows writes, from byte 0 to the end of its input rows. */
  function CommandSize(curN: int, m: int, wLen: int, bLen: int): int
  {
    RANGES_OFFSET + 8 * curN + wLen + bLen + Span(curN, m)
  }

  /** The sub-batch size as the source computes it: bounded by the input rows and by the output rows. */
  function SourceMaxN(n: int, m: int, k: int): (r: int)
    requires m > 0 && k > 0
    ensures r <= n
    ensures r >= 0 ==> r * m <= TRANS_LIMIT && r * (k * 4) <= TRANS_LIMIT
    ensures r < n ==> (r + 1) * m > TRANS_LIMIT || (r + 1) * (k * 4) > TRANS_LIMIT
  {
    var r := Min(n, Min(TRANS_LIMIT / m, TRANS_LIMIT / (k * 4)));
    if r < 0 then r
    else
      MulBelowDivisor(r, TRANS_LIMIT, m);
      MulBelowDivisor(r, TRANS_LIMIT, k * 4);
      if r < n then
        AboveQuotient(TRANS_LIMIT, m);
        AboveQuotient(TRANS_LIMIT, k * 4);
        r
      else r
  }

  /** One more than the quotient, times the divisor, passes the dividend. */
  lemma AboveQuotient(a: int, d: int)
    requires 0 < d
    ensures (a / d + 1) * d > a
  {
    assert a == (a / d) * d + a % d;
    assert (a / d + 1) * d == (a / d) * d + d;
  }

  /**
   * The sub-batch size bounded also by what the whole command needs: the
   * ranges (8 bytes per row) and the two names besides the input rows.
   */
  function FittingMaxN(n: int, m: int, k: int, wLen: nat, bLen: nat): (r: int)
    requires m > 0 && k > 0
    ensures r <= SourceMaxN(n, m, k)
    ensures r > 0 ==> RANGES_OFFSET + wLen + bLen + r * (m + 8) <= CMD_SIZE
  {
    var room := CMD_SIZE - RANGES_OFFSET - wLen - bLen;
    var r := Min(SourceMaxN(n, m, k), if room < 0 then 0 else room / (m + 8));
    if r > 0 && room >= 0 then MulBelowDivisor(r, room, m + 8); r else r
  }

  lemma MulMonotone(x: int, y: int, d: int)
    requires 0 <= x <= y && 0 <= d
    ensures x * d <= y * d
  {
    assert y * d - x * d == (y - x) * d;
  }

  lemma MulBelowDivisor(x: int, a: int, d: int)
    requires 0 < d && 0 <= a && 0 <= x <= a / d
    ensures x * d <= a
  {
    MulMonotone(x, a / d, d);
    assert (a / d) * d + a % d == a;
  }

  /** A non-empty sub-batch of the fitting size fits the command area, and its input and its results fit the transfer limit. */
  lemma FittingMaxNFits(n: int, m: int, k: int, wLen: nat, bLen: nat, cur: int)
    requires m > 0 && k > 0
    requires 0 < cur <= FittingMaxN(n, m, k, wLen, bLen)
    ensures CommandSize(cur, m, wLen, bLen) <= CMD_SIZE
    ensures Span(cur, m) <= TRANS_LIMIT
    ensures Span(cur, k * 4) <= TRANS_LIMIT
  {
    FittingProducts(n, m, k, wLen, bLen, cur);
    SpanIsProduct(cur, m);
    SpanIsProduct(cur, k * 4);
  }

  lemma FittingProducts(n: int, m: int, k: int, wLen: nat, bLen: nat, cur: int)
    requires m > 0 && k > 0
    requires 0 < cur <= FittingMaxN(n, m, k, wLen, bLen)
    ensures RANGES_OFFSET + 8 * cur + wLen + bLen + cur * m <= CMD_SIZE
    ensures cur * m <= TRANS_LIMIT
    ensures cur * (k * 4) <= TRANS_LIMIT
  {
    var r := FittingMaxN(n, m, k, wLen, bLen);
    var s := SourceMaxN(n, m, k);
    MulMonotone(cur, r, m + 8);
    MulMonotone(cur, s, m);
    MulMonotone(cur, s, k * 4);
    assert cur * (m + 8) == cur * m + 8 * cur;
  }

  /** Wherever the source's own sizing keeps the command inside the command area, the two sizes agree. */
  lemma FittingMaxNAgrees(n: int, m: int, k: int, wLen: nat, bLen: nat)
    requires m > 0 && k > 0
    requires SourceMaxN(n, m, k) >= 0
    requires CommandSize(SourceMaxN(n, m, k), m, wLen, bLen) <= CMD_SIZE
    ensures FittingMaxN(n, m, k, wLen, bLen) == SourceMaxN(n, m, k)
  {
    var x := SourceMaxN(n, m, k);
    var room := CMD_SIZE - RANGES_OFFSET - wLen - bLen;
    SpanIsProduct(x, m);
    assert x * (m + 8) == x * m + 8 * x;
    DivAtLeast(x, room, m + 8);
  }

  lemma DivAtLeast(x: int, a: int, d: int)
    requires 0 <= x && 0 < d && x * d <= a
    ensures x <= a / d
  {
    var q := a / d;
    assert a == q * d + a % d;
    assert (q + 1) * d == q * d + d;
    MulCancel(x, q + 1, d);
  }

  lemma MulCancel(x: int, y: int, d: int)
    requires 0 < d && x * d < y * d
    ensures x < y
  {
    assert (y - x) * d == y * d - x * d;
  }

  /**
   * With one-byte rows and one output column the source picks 7 Mi rows per
   * sub-batch; that command runs 66060328 bytes from the start of the
   * mapping, past the 32 MiB command area and over the result area into the
   * flag words at 63 MiB.
   */
  lemma SourceMaxNOverrunsCommandArea()
    ensures SourceMaxN(7 * MIB, 1, 1) == 7 * MIB
    ensures CommandSize(SourceMaxN(7 * MIB, 1, 1), 1, 0, 0) == 66060328
    ensures CommandSize(SourceMaxN(7 * MIB, 1, 1), 1, 0, 0) > FLAG_OFFSET
  {
    SpanIsProduct(7 * MIB, 1);
  }

  // ---- Sub-batches ----

  /** Rows `[base, base + cur)` of the batch. */
  datatype SubBatch = SubBatch(base: nat, cur: nat)

  /** The sub-batches the loop `for (baseN = base; baseN < n; baseN += maxN)` visits. */
  function Walk(n: int, maxN: int, base: nat): (bs: seq<SubBatch>)
    requires maxN > 0
    decreases n - base
    ensures forall j :: 0 <= j < |bs| ==> base <= bs[j].base < n
  {
    if base >= n then [] else [SubBatch(base, Min(maxN, n - base))] + Walk(n, maxN, base + maxN)
  }

  /** The sub-batches of the whole loop, from row 0; each starts at a row of the batch. */
  function SubBatches(n: int, maxN: int): (bs: seq<SubBatch>)
    requires maxN > 0
    ensures forall j :: 0 <= j < |bs| ==> bs[j].base < n
  {
    Walk(n, maxN, 0)
  }

  /** The rows of the sub-batches, listed in order. */
  function Rows(bs: seq<SubBatch>): seq<int>
  {
    if bs == [] then [] else seq(bs[0].cur, i => bs[0].base + i) + Rows(bs[1..])
  }

  /** Sub-batches are non-empty, at most `maxN` rows, and each starts where the previous one ended. */
  predicate Contiguous(bs: seq<SubBatch>, maxN: int)
  {
    (forall j :: 0 <= j < |bs| ==> 0 < bs[j].cur <= maxN) &&
    (forall j :: 0 <= j < |bs| - 1 ==> bs[j + 1].base == bs[j].base + bs[j].cur)
  }

  /** The walk from `base` is empty exactly when `base` is past `n`; otherwise it starts at `base` and ends at `n`. */
  lemma {:induction false} WalkEnds(n: int, maxN: int, base: nat)
    requires maxN > 0
    decreases n - base
    ensures var bs := Walk(n, maxN, base);
      (bs == [] <==> base >= n) &&
      (bs != [] ==> bs[0].base == base && bs[|bs| - 1].base + bs[|bs| - 1].cur == n)
  {
    if base < n {
      var rest := Walk(n, maxN, base + maxN);
      WalkEnds(n, maxN, base + maxN);
      var bs := Walk(n, maxN, base);
      assert bs == [SubBatch(base, Min(maxN, n - base))] + rest;
      if rest != [] {
        assert bs[|bs| - 1] == rest[|rest| - 1];
      }
    }
  }

  /** Every sub-batch of the walk has 1 to `maxN` rows and starts where the one before it ended. */
  lemma {:induction false} WalkContiguous(n: int, maxN: int, base: nat)
    requires maxN > 0
    decreases n - base
    ensures Contiguous(Walk(n, maxN, base), maxN)
  {
    if base < n {
      var cur := Min(maxN, n - base);
      var rest := Walk(n, maxN, base + maxN);
      WalkContiguous(n, maxN, base + maxN);
      WalkEnds(n, maxN, base + maxN);
      var bs := Walk(n, maxN, base);
      assert bs == [SubBatch(base, cur)] + rest;
      forall j | 0 <= j < |bs|
        ensures 0 < bs[j].cur <= maxN
      {
        if j > 0 {
          assert bs[j] == rest[j - 1];
        }
      }
      forall j | 0 <= j < |bs| - 1
        ensures bs[j + 1].base == bs[j].base + bs[j].cur
      {
        if j > 0 {
          assert bs[j] == rest[j - 1] && bs[j + 1] == rest[j];
        }
      }
    }
  }

  /** Listed in order, the rows of the walk from `base` are `base`, `base + 1`, ..., `n - 1`. */
  lemma {:induction false} WalkRows(n: int, maxN: int, base: nat)
    requires maxN > 0
    decreases n - base
    ensures Rows(Walk(n, maxN, base)) == seq(Iterations(n - base), i => base + i)
  {
    if base < n {
      var cur := Min(maxN, n - base);
      var rest := Walk(n, maxN, base + maxN);
      WalkRows(n, maxN, base + maxN);
      var bs := Walk(n, maxN, base);
      assert bs == [SubBatch(base, cur)] + rest;
      assert bs[1..] == rest;
      if base + maxN >= n {
        assert rest == [];
        assert cur == n - base;
        assert Rows(bs) == seq(cur, i => base + i) + [];
      } else {
        assert cur == maxN;
        assert Rows(bs) == seq(cur, i => base + i) + seq(Iterations(n - (base + maxN)), i => base + maxN + i);
      }
    }
  }

  /** One step of the loop: the next sub-batch moves from the walk still to go to the ones done. */
  lemma WalkStep(n: int, maxN: int, base: nat, done: seq<SubBatch>, bs: seq<SubBatch>)
    requires maxN > 0 && base < n && done + Walk(n, maxN, base) == bs
    ensures (done + [SubBatch(base, Min(maxN, n - base))]) + Walk(n, maxN, base + maxN) == bs
  {
    assert Walk(n, maxN, base) == [SubBatch(base, Min(maxN, n - base))] + Walk(n, maxN, base + maxN);
    assert done + ([SubBatch(base, Min(maxN, n - base))] + Walk(n, maxN, base + maxN))
        == (done + [SubBatch(base, Min(maxN, n - base))]) + Walk(n, maxN, base + maxN);
  }

  /**
   * The sub-batches partition `[0, n)`: listed in order their rows are
   * exactly 0, 1, ..., n-1, each sub-batch has between 1 and `maxN` rows and
   * starts where the previous one ended, and `n <= 0` gives no sub-batch.
   */
  lemma SubBatchesPartition(n: int, maxN: int)
    requires maxN > 0
    ensures Rows(SubBatches(n, maxN)) == seq(Iterations(n), i => i)
    ensures Contiguous(SubBatches(n, maxN), maxN)
    ensures SubBatches(n, maxN) == [] <==> n <= 0
    ensures SubBatches(n, maxN) != [] ==> SubBatches(n, maxN)[0].base == 0
    ensures SubBatches(n, maxN) != [] ==>
      SubBatches(n, maxN)[|SubBatches(n, maxN)| - 1].base + SubBatches(n, maxN)[|SubBatches(n, maxN)| - 1].cur == n
  {
    WalkEnds(n, maxN, 0);
    WalkContiguous(n, maxN, 0);
    WalkRows(n, maxN, 0);
  }

  /** A batch that fits in one sub-batch is sent in exactly one round. */
  lemma SmallBatchOneRound(n: int, maxN: int)
    requires 0 < n <= maxN
    ensures SubBatches(n, maxN) == [SubBatch(0, n)]
  {
    assert Walk(n, maxN, maxN) == [];
  }

  /** The sub-batches RunTfaccLinearU walks for `n` rows with the fitting sub-batch size; none when `n <= 0`. */
  function Batches(n: int, m: int, k: int, wLen: nat, bLen: nat): (bs: seq<SubBatch>)
    requires m > 0 && k > 0
    requires n > 0 ==> FittingMaxN(n, m, k, wLen, bLen) > 0
    ensures bs == [] <==> n <= 0
    ensures forall j :: 0 <= j < |bs| ==> 0 < bs[j].cur <= FittingMaxN(n, m, k, wLen, bLen)
  {
    if n <= 0 then [] else
      WalkContiguous(n, FittingMaxN(n, m, k, wLen, bLen), 0);
      Plan(n, FittingMaxN(n, m, k, wLen, bLen))
  }

  /** The sub-batches of `n` rows for a chosen sub-batch size: none when there are no rows. */
  function Plan(n: int, maxN: int): (bs: seq<SubBatch>)
    requires n > 0 ==> maxN > 0
    ensures bs == [] <==> n <= 0
  {
    if n <= 0 then [] else WalkEnds(n, maxN, 0); SubBatches(n, maxN)
  }

  /**
   * A sub-batch of `maxN` rows fits: its command fits the command area and
   * its results fit one transfer. Smaller sub-batches then fit as well.
   */
  predicate SizeFits(maxN: int, m: int, k: int, wLen: nat, bLen: nat)
  {
    maxN > 0 && CommandSize(maxN, m, wLen, bLen) <= CMD_SIZE && Span(maxN, k * 4) <= TRANS_LIMIT
  }

  lemma FittingMaxNSizeFits(n: int, m: int, k: int, wLen: nat, bLen: nat)
    requires m > 0 && k > 0 && FittingMaxN(n, m, k, wLen, bLen) > 0
    ensures SizeFits(FittingMaxN(n, m, k, wLen, bLen), m, k, wLen, bLen)
  {
    FittingMaxNFits(n, m, k, wLen, bLen, FittingMaxN(n, m, k, wLen, bLen));
  }

  /**
   * The batch-size scenario: `n = 2, m = 4, k = 4` with a short weight name
   * and no bias is one sub-batch of both rows, whose results are 2 * 4
   * four-byte words.
   */
  lemma ScenarioOneSubBatch(wLen: nat)
    requires wLen <= MIB
    ensures FittingMaxN(2, 4, 4, wLen, 0) == 2
    ensures Batches(2, 4, 4, wLen, 0) == [SubBatch(0, 2)]
    ensures Len(Batches(2, 4, 4, wLen, 0)[0], 4 * 4) == 2 * 4 * 4
  {
    SpanIsProduct(2, 4);
    SpanIsProduct(2, 4 * 4);
    DivAtLeast(2, CMD_SIZE - RANGES_OFFSET - wLen, 4 + 8);
    SmallBatchOneRound(2, 2);
  }

  /**
   * The sub-batch the walk takes at row `b.base` (below `n`, with a size
   * that fits) reads only rows below `n`, fits the command area, and its
   * results fit one transfer and end where the rows up to the next
   * sub-batch end.
   */
  lemma BatchFits(n: int, maxN: int, m: int, k: int, wLen: nat, bLen: nat, b: SubBatch)
    requires m > 0 && k > 0 && SizeFits(maxN, m, k, wLen, bLen)
    requires 0 <= b.base < n && b.cur == Min(maxN, n - b.base)
    ensures 0 < b.cur && b.base + b.cur <= n
    ensures Span(b.base, m) + Span(b.cur, m) <= Span(n, m)
    ensures CommandSize(b.cur, m, wLen, bLen) <= CMD_SIZE
    ensures Len(b, k * 4) <= TRANS_LIMIT
    ensures Lo(b, k * 4) + Len(b, k * 4) == Span(Min(b.base + maxN, n), k * 4) <= Span(n, k * 4)
  {
    SpanMonotone(b.cur, maxN, m);
    SpanMonotone(b.cur, maxN, k * 4);
    SpanMonotone(b.base + b.cur, n, m);
    SpanMonotone(b.base + b.cur, n, k * 4);
    SpanAdd(b.base, b.cur, m);
    SpanAdd(b.base, b.cur, k * 4);
    assert Min(b.base + maxN, n) == b.base + b.cur;
  }

  // ---- One sub-batch's command ----

  /** What one sub-batch's command tells the accelerator. */
  datatype LinearCommand = LinearCommand(
    curN: int, m: int, k: int, group: int,
    weightName: Bytes, biasName: Bytes, ranges: seq<Range>, input: Bytes)

  function LinearHeader(c: LinearCommand): (b: Bytes)
    ensures |b| == HEADER_BYTES
  {
    EncodeInts([c.curN, c.m, c.k, c.group, |c.weightName|, |c.biasName|])
  }

  /** Everything from byte 40: the ranges, the two names and the input rows, 8 bytes per range. */
  function LinearBody(c: LinearCommand): (b: Bytes)
    ensures |b| == 8 * |c.ranges| + |c.weightName| + |c.biasName| + |c.input|
  {
    EncodeRanges(c.ranges) + c.weightName + c.biasName + c.input
  }

  /** The command area holds `c`: the header ints from byte 0, the ranges, names and input from byte 40. */
  predicate Carries(command: Bytes, c: LinearCommand)
  {
    RANGES_OFFSET + |LinearBody(c)| <= |command| &&
    command[..HEADER_BYTES] == LinearHeader(c) &&
    command[RANGES_OFFSET .. RANGES_OFFSET + |LinearBody(c)|] == LinearBody(c)
  }

  /** The command for sub-batch `b`: its rows' ranges and input bytes, group 1. */
  function BatchCommand(b: SubBatch, m: int, k: int, weightName: Bytes, biasName: Bytes,
                        inputConfigs: seq<Range>, uinput: Bytes): (c: LinearCommand)
    requires m >= 0
    requires b.base + b.cur <= |inputConfigs|
    requires Span(b.base, m) + Span(b.cur, m) <= |uinput|
    ensures c.curN == b.cur && c.m == m && c.k == k && c.group == 1
    ensures |c.ranges| == b.cur && forall i :: 0 <= i < b.cur ==> c.ranges[i] == inputConfigs[b.base + i]
    ensures c.weightName == weightName && c.biasName == biasName
    ensures |c.input| == Span(b.cur, m)
    ensures c.input == uinput[Span(b.base, m) .. Span(b.base, m) + Span(b.cur, m)]
  {
    LinearCommand(b.cur, m, k, 1, weightName, biasName,
      inputConfigs[b.base .. b.base + b.cur], uinput[Span(b.base, m) .. Span(b.base, m) + Span(b.cur, m)])
  }

  /** Round `r` posts `op` with the command for sub-batch `b` of the inputs. */
  predicate PostsBatch(r: Round, op: int, b: SubBatch, m: int, k: int, weightName: Bytes, biasName: Bytes,
                       inputConfigs: seq<Range>, uinput: Bytes)
  {
    r.op == op && m >= 0 &&
    b.base + b.cur <= |inputConfigs| && Span(b.base, m) + Span(b.cur, m) <= |uinput| &&
    Carries(r.command, BatchCommand(b, m, k, weightName, biasName, inputConfigs, uinput))
  }

  /** The accelerator's reading of the bytes after the header: `curN` ranges, the two names, `curN * m` input bytes. */
  function ParseLinearBody(body: Bytes, curN: nat, m: nat, wLen: nat, bLen: nat)
    : Option<(seq<Range>, Bytes, Bytes, Bytes)>
  {
    var r :- ReadRanges(body, curN);
    var w :- ReadBytes(r.1, wLen);
    var b :- ReadBytes(w.1, bLen);
    var input :- ReadBytes(b.1, Span(curN, m));
    Some((r.0, w.0, b.0, input.0))
  }

  /** The accelerator's reading of a linear command. */
  function ParseLinearCommand(command: Bytes): Option<LinearCommand>
  {
    if |command| < RANGES_OFFSET then None
    else
      var h :- ReadInts(command, 6);
      var curN, m, k, group, wLen, bLen := h.0[0], h.0[1], h.0[2], h.0[3], h.0[4], h.0[5];
      if curN < 0 || m < 0 || wLen < 0 || bLen < 0 then None
      else
        var p :- ParseLinearBody(command[RANGES_OFFSET..], curN, m, wLen, bLen);
        Some(LinearCommand(curN, m, k, group, p.1, p.2, p.0, p.3))
  }

  predicate CommandWellFormed(c: LinearCommand)
  {
    0 <= c.curN && 0 <= c.m &&
    IsInt32(c.curN) && IsInt32(c.m) && IsInt32(c.k) && IsInt32(c.group) &&
    IsInt32(|c.weightName|) && IsInt32(|c.biasName|) &&
    |c.ranges| == c.curN && |c.input| == Span(c.curN, c.m)
  }

  lemma ParseHeader(command: Bytes, c: LinearCommand)
    requires Carries(command, c) && CommandWellFormed(c)
    ensures ReadInts(command, 6).Some?
    ensures ReadInts(command, 6).value.0 == [c.curN, c.m, c.k, c.group, |c.weightName|, |c.biasName|]
  {
    var xs := [c.curN, c.m, c.k, c.group, |c.weightName|, |c.biasName|];
    assert command == LinearHeader(c) + command[HEADER_BYTES..];
    ReadEncodedInts(xs, command[HEADER_BYTES..]);
  }

  lemma ParseBody(c: LinearCommand, tail: Bytes)
    requires CommandWellFormed(c)
    ensures ParseLinearBody(LinearBody(c) + tail, c.curN, c.m, |c.weightName|, |c.biasName|)
      == Some((c.ranges, c.weightName, c.biasName, c.input))
  {
    var t3 := c.input + tail;
    var t2 := c.biasName + t3;
    var t1 := c.weightName + t2;
    assert LinearBody(c) + tail == EncodeRanges(c.ranges) + t1;
    ReadEncodedRanges(c.ranges, t1);
    ReadWrittenBytes(c.weightName, t2);
    ReadWrittenBytes(c.biasName, t3);
    ReadWrittenBytes(c.input, tail);
  }

  /** The accelerator reads back from a carried command every field the host wrote. */
  lemma ParseCarried(command: Bytes, c: LinearCommand)
    requires Carries(command, c) && CommandWellFormed(c)
    ensures ParseLinearCommand(command) == Some(c)
  {
    ParseHeader(command, c);
    var body := command[RANGES_OFFSET..];
    var n := |LinearBody(c)|;
    assert body == LinearBody(c) + body[n..];
    ParseBody(c, body[n..]);
  }

  // ---- Results ----

  /**
   * The output the rounds produce: for each sub-batch, `cur * rowBytes` bytes
   * of its reply, in order (a reply shorter than that is taken whole; the
   * client's replies are always long enough).
   */
  function ReadBack(replies: seq<Bytes>, bs: seq<SubBatch>, rowBytes: nat): Bytes
    requires |replies| == |bs|
  {
    if bs == [] then []
    else
      var last := |bs| - 1;
      ReadBack(replies[..last], bs[..last], rowBytes) + replies[last][..Min(Len(bs[last], rowBytes), |replies[last]|)]
  }

  lemma ReadBackSnoc(replies: seq<Bytes>, bs: seq<SubBatch>, rowBytes: nat, reply: Bytes, b: SubBatch)
    requires |replies| == |bs| && Len(b, rowBytes) <= |reply|
    ensures ReadBack(replies + [reply], bs + [b], rowBytes) ==
      ReadBack(replies, bs, rowBytes) + reply[..Len(b, rowBytes)]
  {
    assert (replies + [reply])[..|replies|] == replies;
    assert (bs + [b])[..|bs|] == bs;
  }

  /** Where sub-batch `b`'s results start in the output, and how many bytes they take. */
  function Lo(b: SubBatch, rowBytes: nat): nat
  {
    Span(b.base, rowBytes)
  }

  function Len(b: SubBatch, rowBytes: nat): nat
  {
    Span(b.cur, rowBytes)
  }

  lemma SlicePreserved(init: Bytes, slice: Bytes, lo: int, len: int, x: Bytes)
    requires 0 <= lo && 0 <= len && lo + len <= |init| && init[lo .. lo + len] == x
    ensures (init + slice)[lo .. lo + len] == x
  {
    assert (init + slice)[..|init|] == init;
  }

  lemma EndDistributes(b: SubBatch, rowBytes: nat)
    ensures Span(b.base + b.cur, rowBytes) == Lo(b, rowBytes) + Len(b, rowBytes)
  {
    SpanAdd(b.base, b.cur, rowBytes);
  }

  /** A prefix of contiguous sub-batches is contiguous. */
  lemma ContiguousPrefix(bs: seq<SubBatch>, maxN: int, x: int)
    requires Contiguous(bs, maxN) && 0 <= x <= |bs|
    ensures Contiguous(bs[..x], maxN)
  {
    var p := bs[..x];
    forall j | 0 <= j < |p|
      ensures 0 < p[j].cur <= maxN
    {
      assert p[j] == bs[j];
    }
    forall j | 0 <= j < |p| - 1
      ensures p[j + 1].base == p[j].base + p[j].cur
    {
      assert p[j] == bs[j] && p[j + 1] == bs[j + 1];
    }
  }

  /** Replies long enough for their sub-batches stay so on a prefix. */
  lemma CoveredPrefix(replies: seq<Bytes>, bs: seq<SubBatch>, rowBytes: nat, x: int)
    requires |replies| == |bs| && 0 <= x <= |bs|
    requires forall j :: 0 <= j < |bs| ==> Len(bs[j], rowBytes) <= |replies[j]|
    ensures forall j :: 0 <= j < x ==> Len(bs[..x][j], rowBytes) <= |replies[..x][j]|
  {
    forall j | 0 <= j < x
      ensures Len(bs[..x][j], rowBytes) <= |replies[..x][j]|
    {
      assert bs[..x][j] == bs[j] && replies[..x][j] == replies[j];
    }
  }

  /** The last sub-batch's results come last, all `Len` bytes of them when its reply is long enough. */
  lemma ReadBackLast(replies: seq<Bytes>, bs: seq<SubBatch>, rowBytes: nat)
    requires |replies| == |bs| && bs != [] && Len(bs[|bs| - 1], rowBytes) <= |replies[|bs| - 1]|
    ensures var last := |bs| - 1;
      ReadBack(replies, bs, rowBytes) ==
        ReadBack(replies[..last], bs[..last], rowBytes) + replies[last][..Len(bs[last], rowBytes)]
  {
  }

  /** In contiguous sub-batches, sub-batch `j + 1` starts where sub-batch `j` ends. */
  lemma ContiguousAt(bs: seq<SubBatch>, maxN: int, j: int)
    requires Contiguous(bs, maxN) && 0 <= j < |bs| - 1
    ensures bs[j + 1].base == bs[j].base + bs[j].cur
  {
  }

  /** Appending to the bytes read back keeps the slices the earlier sub-batches left in them. */
  lemma EarlierSlicesKept(init: Bytes, slice: Bytes, replies: seq<Bytes>, bs: seq<SubBatch>, rowBytes: nat, last: nat)
    requires |replies| == |bs| && last <= |bs|
    requires forall j :: 0 <= j < |bs| ==> Len(bs[j], rowBytes) <= |replies[j]|
    requires forall j :: 0 <= j < |bs[..last]| ==>
      Lo(bs[..last][j], rowBytes) + Len(bs[..last][j], rowBytes) <= |init| &&
      init[Lo(bs[..last][j], rowBytes) .. Lo(bs[..last][j], rowBytes) + Len(bs[..last][j], rowBytes)]
        == replies[..last][j][..Len(bs[..last][j], rowBytes)]
    ensures forall j :: 0 <= j < last ==>
      Lo(bs[j], rowBytes) + Len(bs[j], rowBytes) <= |init + slice| &&
      (init + slice)[Lo(bs[j], rowBytes) .. Lo(bs[j], rowBytes) + Len(bs[j], rowBytes)]
        == replies[j][..Len(bs[j], rowBytes)]
  {
    forall j | 0 <= j < last
      ensures Lo(bs[j], rowBytes) + Len(bs[j], rowBytes) <= |init + slice|
      ensures (init + slice)[Lo(bs[j], rowBytes) .. Lo(bs[j], rowBytes) + Len(bs[j], rowBytes)]
        == replies[j][..Len(bs[j], rowBytes)]
    {
      assert bs[..last][j] == bs[j] && replies[..last][j] == replies[j];
      SlicePreserved(init, slice, Lo(bs[j], rowBytes), Len(bs[j], rowBytes), replies[j][..Len(bs[j], rowBytes)]);
    }
  }

  lemma {:induction false} ReadBackLayout(replies: seq<Bytes>, bs: seq<SubBatch>, rowBytes: nat, maxN: int)
    requires |replies| == |bs| && bs != []
    requires forall j :: 0 <= j < |bs| ==> Len(bs[j], rowBytes) <= |replies[j]|
    requires Contiguous(bs, maxN) && bs[0].base == 0
    ensures |ReadBack(replies, bs, rowBytes)| == Span(bs[|bs| - 1].base + bs[|bs| - 1].cur, rowBytes)
    ensures forall j :: 0 <= j < |bs| ==>
      Lo(bs[j], rowBytes) + Len(bs[j], rowBytes) <= |ReadBack(replies, bs, rowBytes)| &&
      ReadBack(replies, bs, rowBytes)[Lo(bs[j], rowBytes) .. Lo(bs[j], rowBytes) + Len(bs[j], rowBytes)]
        == replies[j][..Len(bs[j], rowBytes)]
  {
    var last := |bs| - 1;
    var out := ReadBack(replies, bs, rowBytes);
    var slice := replies[last][..Len(bs[last], rowBytes)];
    ReadBackLast(replies, bs, rowBytes);
    EndDistributes(bs[last], rowBytes);
    if last == 0 {
      assert out == [] + slice;
    } else {
      var init := ReadBack(replies[..last], bs[..last], rowBytes);
      ContiguousPrefix(bs, maxN, last);
      CoveredPrefix(replies, bs, rowBytes, last);
      ReadBackLayout(replies[..last], bs[..last], rowBytes, maxN);
      assert bs[..last][last - 1] == bs[last - 1];
      ContiguousAt(bs, maxN, last - 1);
      EndDistributes(bs[last - 1], rowBytes);
      assert |init| == Lo(bs[last], rowBytes);
      assert out == init + slice;
      EarlierSlicesKept(init, slice, replies, bs, rowBytes, last);
      assert out[Lo(bs[last], rowBytes) ..] == slice;
    }
  }

  /**
   * Sub-batch `j`'s results land at byte `base * rowBytes` of the output, and
   * together the slices fill exactly `n * rowBytes` bytes.
   */
  lemma ReadBackSlices(replies: seq<Bytes>, n: int, maxN: int, rowBytes: nat)
    requires maxN > 0 && n > 0
    requires |replies| == |SubBatches(n, maxN)|
    requires forall j :: 0 <= j < |replies| ==> Len(SubBatches(n, maxN)[j], rowBytes) <= |replies[j]|
    ensures |ReadBack(replies, SubBatches(n, maxN), rowBytes)| == Span(n, rowBytes)
    ensures forall j :: 0 <= j < |replies| ==>
      var b := SubBatches(n, maxN)[j];
      Lo(b, rowBytes) + Len(b, rowBytes) <= Span(n, rowBytes) &&
      ReadBack(replies, SubBatches(n, maxN), rowBytes)[Lo(b, rowBytes) .. Lo(b, rowBytes) + Len(b, rowBytes)]
        == replies[j][..Len(b, rowBytes)]
  {
    var bs := SubBatches(n, maxN);
    WalkEnds(n, maxN, 0);
    WalkContiguous(n, maxN, 0);
    ReadBackLayout(replies, bs, rowBytes, maxN);
  }
}
