/** Chunk files on the hosts, and what a transfer does to them and to the client's buffer:
    src/daemon/backend/data/chunk_storage.cpp and src/daemon/ops/data.cpp, in whatever order
    the tasklets run. */
module ChunkStore {
  import opened Common
  import opened Wire
  import opened Chunks
  import opened Planning
  import opened Daemon

  /** The chunk files of one path on one host. */
  type Dir = map<nat, seq<byte>>

  /** Hosts that have a chunk directory for the path. */
  type Store = map<nat, Dir>

  function DirOf(s: Store, h: nat): Dir {
    if h in s then s[h] else map[]
  }

  function FileOf(d: Dir, c: nat): seq<byte> {
    if c in d then d[c] else []
  }

  /** The file after writing `data` at offset `at`; a gap before it reads as zeros. */
  function Pwrite(file: seq<byte>, data: seq<byte>, at: nat): seq<byte> {
    var end := at + |data|;
    seq(if end < |file| then |file| else end,
        i requires 0 <= i => if at <= i < end then data[i - at] else if i < |file| then file[i] else 0)
  }

  /** At most `size` bytes from offset `at`, fewer at the end of the file. */
  function Pread(file: seq<byte>, size: nat, at: nat): seq<byte> {
    if at >= |file| then [] else if at + size <= |file| then file[at..at + size] else file[at..]
  }

  /** Byte `i` of chunk `c`; what is not stored reads as zero. */
  function Byte(d: Dir, c: nat, i: nat): byte {
    if i < |FileOf(d, c)| then FileOf(d, c)[i] else 0
  }

  // ---------------------------------------------------------------- writing

  /** One chunk write of a daemon. */
  datatype Write = Write(chunk: nat, data: seq<byte>, at: nat)

  function Apply(d: Dir, ws: seq<Write>): Dir {
    if ws == [] then d
    else
      var w := ws[|ws| - 1];
      var before := Apply(d, ws[..|ws| - 1]);
      before[w.chunk := Pwrite(FileOf(before, w.chunk), w.data, w.at)]
  }

  ghost predicate DistinctChunks(ws: seq<Write>) {
    forall i, j | 0 <= i < j < |ws| :: ws[i].chunk != ws[j].chunk
  }

  /** Writes to distinct chunk files do not disturb each other. */
  lemma {:induction false} ApplyAt(d: Dir, ws: seq<Write>, i: nat)
    requires DistinctChunks(ws) && i < |ws|
    ensures var c := ws[i].chunk;
            c in Apply(d, ws) && Apply(d, ws)[c] == Pwrite(FileOf(d, c), ws[i].data, ws[i].at)
  {
    hide Pwrite;
    var n := |ws| - 1;
    if i < n {
      ApplyAt(d, ws[..n], i);
    } else {
      ApplyElsewhere(d, ws[..n], ws[i].chunk);
    }
  }

  lemma {:induction false} ApplyElsewhere(d: Dir, ws: seq<Write>, c: nat)
    requires forall i | 0 <= i < |ws| :: ws[i].chunk != c
    ensures FileOf(Apply(d, ws), c) == FileOf(d, c) && (c in Apply(d, ws) <==> c in d)
  {
    hide Pwrite;
    if ws != [] {
      ApplyElsewhere(d, ws[..|ws| - 1], c);
    }
  }

  /** So the order of the tasklets does not matter. */
  lemma ApplyAnyOrder(d: Dir, ws: seq<Write>, ws': seq<Write>)
    requires DistinctChunks(ws) && DistinctChunks(ws')
    requires forall w :: w in ws <==> w in ws'
    ensures Apply(d, ws) == Apply(d, ws')
  {
    hide Pwrite, Apply;
    var a, b := Apply(d, ws), Apply(d, ws');
    forall c: nat
      ensures (c in a <==> c in b) && FileOf(a, c) == FileOf(b, c)
    {
      if i :| 0 <= i < |ws| && ws[i].chunk == c {
        assert ws[i] in ws';
        var j :| 0 <= j < |ws'| && ws'[j] == ws[i];
        ApplyAt(d, ws, i);
        ApplyAt(d, ws', j);
      } else {
        forall j | 0 <= j < |ws'| ensures ws'[j].chunk != c { assert ws'[j] in ws; }
        ApplyElsewhere(d, ws, c);
        ApplyElsewhere(d, ws', c);
      }
    }
    assert forall c | c in a :: a[c] == FileOf(a, c);
    assert forall c | c in b :: b[c] == FileOf(b, c);
  }

  /** The part of the client's buffer that belongs into chunk `c`. */
  function WriteOf(r: Range, buf: seq<byte>, c: nat): Write
    requires r.Valid() && |buf| == r.size && r.Touches(c)
  {
    ChunkPiece(r, c);
    Write(c, buf[r.Lo(c) - r.offset..r.Hi(c) - r.offset], r.Lo(c) - c * CHUNK)
  }

  /** `ws` are the writes of the listed chunks, in any order. */
  ghost predicate Schedule(ws: seq<Write>, r: Range, buf: seq<byte>, chunks: seq<nat>)
    requires r.Valid() && |buf| == r.size
  {
    && DistinctChunks(ws)
    && (forall i | 0 <= i < |ws| ::
          ws[i].chunk in chunks && r.Touches(ws[i].chunk) && ws[i] == WriteOf(r, buf, ws[i].chunk))
    && (forall c | c in chunks :: exists i :: 0 <= i < |ws| && ws[i].chunk == c)
  }

  lemma PiecesConsecutive(r: Range, chunks: seq<nat>, k: nat)
    requires k < |chunks|
    ensures |PiecesOf(r, chunks)| == |chunks|
    ensures PiecesOf(r, chunks)[k] == PieceOf(r, chunks[..k], chunks[k])
    decreases |chunks|
  {
    hide Bytes, PieceOf;
    var n := |chunks| - 1;
    PiecesCount(r, chunks);
    PiecesCount(r, chunks[..n]);
    if k < n {
      PiecesConsecutive(r, chunks[..n], k);
      assert chunks[..n][..k] == chunks[..k];
    }
  }

  lemma {:induction false} BytesMonotone(r: Range, chunks: seq<nat>, k: nat, n: nat)
    requires r.Valid() && k <= n <= |chunks| && forall c | c in chunks :: r.Touches(c)
    ensures 0 <= Bytes(r, chunks[..k]) <= Bytes(r, chunks[..n])
  {
    hide Range.Len, Range.First, Range.Last;
    if k < n {
      BytesMonotone(r, chunks, k, n - 1);
      assert chunks[..n][..n - 1] == chunks[..n - 1];
      assert chunks[n - 1] in chunks;
      ChunkPiece(r, chunks[n - 1]);
    } else if n > 0 {
      BytesMonotone(r, chunks, n - 1, n - 1);
      assert chunks[..n][..n - 1] == chunks[..n - 1];
      assert chunks[n - 1] in chunks;
      ChunkPiece(r, chunks[n - 1]);
    }
  }

  ghost predicate AllTouch(r: Range, chunks: seq<nat>)
    requires r.Valid()
  {
    forall c | c in chunks :: r.Touches(c)
  }

  lemma HostChunksTouch(t: Targets, r: Range, h: nat)
    requires r.Valid()
    ensures AllTouch(r, ChunksOf(t, r, h))
  {
    hide HostChunks, Range.First, Range.Last;
    forall c | c in ChunksOf(t, r, h)
      ensures r.Touches(c)
    {
      HostChunksMembers(t, h, r.First(), r.Last() + 1, c);
    }
  }

  /** Piece `k` is the part of the range in chunk `k` of the list, and fits both buffers. */
  lemma PieceFacts(r: Range, chunks: seq<nat>, k: nat)
    requires r.Valid() && AllTouch(r, chunks) && k < |chunks|
    ensures |PiecesOf(r, chunks)| == |chunks|
    ensures var p := PiecesOf(r, chunks)[k];
            && p.chunk == chunks[k] && r.Touches(p.chunk)
            && p.local == p.ptr == Bytes(r, chunks[..k])
            && p.local + p.size == Bytes(r, chunks[..k + 1])
            && 0 <= p.local && p.local + p.size <= Bytes(r, chunks)
            && p.origin == r.Lo(p.chunk) - r.offset && p.origin + p.size == r.Hi(p.chunk) - r.offset
            && 0 <= p.origin && 0 < p.size && p.origin + p.size <= r.size
            && p.at == r.Lo(p.chunk) - p.chunk * CHUNK && 0 <= p.at && p.at + p.size <= CHUNK
  {
    hide PiecesOf, Range.First, Range.Last;
    PiecesConsecutive(r, chunks, k);
    assert chunks[k] in chunks;
    ChunkPiece(r, chunks[k]);
    assert chunks[..k + 1] == chunks[..k] + [chunks[k]];
    BytesSnoc(r, chunks[..k], chunks[k]);
    BytesMonotone(r, chunks, k, k + 1);
    BytesMonotone(r, chunks, k + 1, |chunks|);
    assert chunks[..|chunks|] == chunks;
  }

  /** A later transfer leaves what an earlier one brought. */
  lemma SpliceElsewhere(b: seq<byte>, at: nat, data: seq<byte>, from: nat, to: nat)
    requires at + |data| <= |b| && from <= to <= at
    ensures Splice(b, at, data)[from..to] == b[from..to]
    ensures Splice(b, at, data)[at..at + |data|] == data
  {
  }

  /** The bulk buffer holds the pieces of the first `n` chunks. */
  ghost predicate Pulled(local: seq<byte>, pieces: seq<Piece>, buf: seq<byte>, n: nat)
    requires n <= |pieces|
  {
    forall k | 0 <= k < n ::
      var p := pieces[k];
      && 0 <= p.local && 0 < p.size && p.local + p.size <= |local|
      && 0 <= p.origin && p.origin + p.size <= |buf|
      && local[p.local..p.local + p.size] == buf[p.origin..p.origin + p.size]
  }

  lemma PullStep(r: Range, chunks: seq<nat>, local: seq<byte>, buf: seq<byte>, n: nat)
    requires r.Valid() && AllTouch(r, chunks) && n < |chunks|
    requires |local| >= Bytes(r, chunks) && |buf| == r.size && |PiecesOf(r, chunks)| == |chunks|
    requires Pulled(local, PiecesOf(r, chunks), buf, n)
    ensures var p := PiecesOf(r, chunks)[n];
            && 0 <= p.local && p.local + p.size <= |local| && 0 <= p.origin && p.origin + p.size <= |buf|
            && 0 < p.size
            && Pulled(Splice(local, p.local, buf[p.origin..p.origin + p.size]), PiecesOf(r, chunks), buf, n + 1)
  {
    hide PiecesOf, AllTouch, Bytes, Range.First, Range.Last, Splice, Range.Lo, Range.Hi;
    var pieces := PiecesOf(r, chunks);
    var p := pieces[n];
    PieceFacts(r, chunks, n);
    var after := Splice(local, p.local, buf[p.origin..p.origin + p.size]);
    SpliceElsewhere(local, p.local, buf[p.origin..p.origin + p.size], 0, 0);
    forall k | 0 <= k < n
      ensures after[pieces[k].local..pieces[k].local + pieces[k].size] ==
              local[pieces[k].local..pieces[k].local + pieces[k].size]
    {
      PieceFacts(r, chunks, k);
      PiecesInOrder(r, chunks, k, n);
      SpliceElsewhere(local, p.local, buf[p.origin..p.origin + p.size], pieces[k].local,
                      pieces[k].local + pieces[k].size);
    }
  }

  lemma PiecesInOrder(r: Range, chunks: seq<nat>, k: nat, n: nat)
    requires r.Valid() && AllTouch(r, chunks) && k < n < |chunks|
    ensures |PiecesOf(r, chunks)| == |chunks|
    ensures PiecesOf(r, chunks)[k].local + PiecesOf(r, chunks)[k].size <= PiecesOf(r, chunks)[n].local
  {
    hide PiecesOf, Bytes, Range.First, Range.Last, Range.Lo, Range.Hi;
    PieceFacts(r, chunks, k);
    PieceFacts(r, chunks, n);
    BytesMonotone(r, chunks, k + 1, n);
  }

  lemma PieceIsWrite(r: Range, chunks: seq<nat>, local: seq<byte>, buf: seq<byte>, k: nat)
    requires r.Valid() && AllTouch(r, chunks) && k < |chunks|
    requires |local| >= Bytes(r, chunks) && |buf| == r.size && |PiecesOf(r, chunks)| == |chunks|
    requires Pulled(local, PiecesOf(r, chunks), buf, |chunks|)
    ensures var p := PiecesOf(r, chunks)[k];
            && r.Touches(p.chunk) && p.chunk == chunks[k]
            && 0 <= p.ptr && 0 < p.size && p.ptr + p.size <= |local| && 0 <= p.at
            && Write(p.chunk, local[p.ptr..p.ptr + p.size], p.at) == WriteOf(r, buf, p.chunk)
  {
    hide PiecesOf, Bytes, AllTouch, Range.First, Range.Last, Range.Lo, Range.Hi;
    PieceFacts(r, chunks, k);
  }

  /** The chunks whose bytes a daemon can pull: all its own, but for a last one that reaches beyond
      the client's buffer. */
  function Pullable(t: Targets, r: Range, h: nat): seq<nat>
    requires r.Valid()
  {
    var own := Own(t, r, h);
    if Excess(t, r, h) == 0 || own == [] then own else own[..|own| - 1]
  }

  lemma OwnTouch(t: Targets, r: Range, h: nat)
    requires r.Valid()
    ensures AllTouch(r, Own(t, r, h)) && AllTouch(r, Pullable(t, r, h))
  {
    hide Seen, Excess, Range.First, Range.Last;
    forall c | c in Own(t, r, h)
      ensures r.Touches(c)
    {
      SeenMembers(t, h, r.First(), r.Last() + 1, c);
    }
  }

  lemma PiecesPrefix(r: Range, chunks: seq<nat>, n: nat)
    requires n < |chunks|
    ensures |PiecesOf(r, chunks)| == |chunks| && |PiecesOf(r, chunks[..n])| == n
    ensures forall k | 0 <= k < n :: PiecesOf(r, chunks[..n])[k] == PiecesOf(r, chunks)[k]
  {
    hide PiecesOf, PieceOf;
    PiecesCount(r, chunks);
    PiecesCount(r, chunks[..n]);
    forall k | 0 <= k < n
      ensures PiecesOf(r, chunks[..n])[k] == PiecesOf(r, chunks)[k]
    {
      PiecesConsecutive(r, chunks, k);
      PiecesConsecutive(r, chunks[..n], k);
      assert chunks[..n][..k] == chunks[..k];
    }
  }

  /** Which of the computed pieces fit the client's buffer. */
  lemma PullablePieces(t: Targets, r: Range, h: nat)
    requires r.Valid()
    ensures var pieces, good := Grown(PiecesOf(r, Own(t, r, h)), Excess(t, r, h)), Pullable(t, r, h);
            && |PiecesOf(r, good)| == |good| <= |pieces|
            && (forall k | 0 <= k < |good| :: pieces[k] == PiecesOf(r, good)[k])
            && (Excess(t, r, h) == 0 ==> |pieces| == |good|)
            && (Excess(t, r, h) != 0 ==> |pieces| == |good| + 1 && pieces[|good|].origin + pieces[|good|].size > r.size)
  {
    var own := Own(t, r, h);
    PiecesCount(r, own);
    if Excess(t, r, h) != 0 {
      LastOwn(t, r, h);
      hide Seen, Excess, PiecesOf, Range.First, Range.Last;
      NothingLeftIff(t, r, h);
      OwnTouch(t, r, h);
      PieceFacts(r, own, |own| - 1);
      PiecesPrefix(r, own, |own| - 1);
      LastReachesEnd(r);
    }
  }

  lemma LastOwn(t: Targets, r: Range, h: nat)
    requires r.Valid() && Excess(t, r, h) != 0
    ensures Own(t, r, h) != [] && Own(t, r, h)[|Own(t, r, h)| - 1] == r.Last()
  {
    SeenMembers(t, h, r.First(), r.Last() + 1, r.Last());
  }

  lemma LastReachesEnd(r: Range)
    requires r.Valid()
    ensures r.Hi(r.Last()) == r.End()
  {
    RangeBounds(r);
  }

  function Volume(ws: seq<Write>): nat {
    if ws == [] then 0 else Volume(ws[..|ws| - 1]) + |ws[|ws| - 1].data|
  }

  /** `wait_for_tasks`, which waits for as many tasks as the request has chunks. Where no task was
      started there is nothing to wait for: that is EIO, and the size then zero. */
  method WaitForTasks(ws: seq<Write>, n: nat) returns (err: int, total: nat)
    requires |ws| <= n
    ensures err == if |ws| == n then 0 else EIO
    ensures total == if err == 0 then Volume(ws) else 0
  {
    err, total := 0, 0;
    assert ws[..0] == [];
    for k := 0 to n
      invariant err == if k <= |ws| then 0 else EIO
      invariant err == 0 ==> total == Volume(ws[..k])
    {
      if k >= |ws| {
        err := EIO;
      } else if err == 0 {
        assert ws[..k + 1][..k] == ws[..k];
        total := total + |ws[k].data|;
      }
    }
    assert ws[..|ws|] == ws;
    if err != 0 {
      total := 0;
    }
  }

  lemma {:induction false} VolumeIsBytes(ws: seq<Write>, r: Range, buf: seq<byte>, chunks: seq<nat>)
    requires r.Valid() && |buf| == r.size && |ws| == |chunks|
    requires forall i | 0 <= i < |ws| :: r.Touches(chunks[i]) && ws[i] == WriteOf(r, buf, chunks[i])
    ensures Volume(ws) == Bytes(r, chunks)
  {
    hide Range.First, Range.Last;
    if ws != [] {
      var n := |ws| - 1;
      VolumeIsBytes(ws[..n], r, buf, chunks[..n]);
      ChunkPiece(r, chunks[n]);
    }
  }

  /** The error a host reports that stays up: it is asked for more than the client's buffer holds,
      or waits for a task it never started, because a chunk is listed twice. */
  ghost function Reported(t: Targets, r: Range, h: nat): int
    requires r.Valid()
  {
    if Excess(t, r, h) != 0 then EBUSY else if NoDup(ChunksOf(t, r, h)) then 0 else EIO
  }

  /** `rpc_srv_write`: pull the pieces into the bulk buffer, start one chunk write for each, which
      finds its bytes in that buffer, and wait for them. A piece that reaches beyond the client's
      buffer cannot be pulled. */
  method ServeWrite(q: Request, buf: seq<byte>, ghost t: Targets, ghost r: Range)
    returns (err: int, ioSize: nat, ws: seq<Write>)
    requires r.Valid() && Sound(q, t, r) && |buf| == r.size
    ensures err == Reported(t, r, q.host)
    ensures ioSize == if err == 0 then Bytes(r, Own(t, r, q.host)) else 0
    ensures Schedule(ws, r, buf, Pullable(t, r, q.host))
  {
    hide PiecesOf, AllTouch, Bytes, Range.First, Range.Last, Splice, Pulled, WriteOf, ChunksOf, Sound, Pullable, Grown;
    hide Own, Excess, Volume, NoDup;
    ghost var chunks := Pullable(t, r, q.host);
    SoundTotal(q, t, r);
    OwnTouch(t, r, q.host);
    PullablePieces(t, r, q.host);
    PullableBytes(t, r, q.host);
    var pieces, left := ServePieces(q, |buf|, t, r);
    var local := Zeros(q.total);
    PulledNothing(local, PiecesOf(r, chunks), buf);
    var n := 0;
    err := 0;
    while n < |pieces| && err == 0
      invariant 0 <= n <= |chunks| && |local| == q.total && Pulled(local, PiecesOf(r, chunks), buf, n)
      invariant err == 0 || (err == EBUSY && n == |chunks| < |pieces|)
      decreases |pieces| - n, err == 0
    {
      var p := pieces[n];
      if n < |chunks| {
        PullStep(r, chunks, local, buf, n);
      }
      if p.origin + p.size > |buf| {
        err := EBUSY;
      } else {
        local := Splice(local, p.local, buf[p.origin..p.origin + p.size]);
        n := n + 1;
      }
    }
    ws, ioSize := [], 0;
    for k := 0 to n
      invariant |ws| == k
      invariant forall i | 0 <= i < k ::
                  ws[i].chunk == chunks[i] && r.Touches(chunks[i]) && ws[i] == WriteOf(r, buf, chunks[i])
    {
      var p := pieces[k];
      PieceIsWrite(r, chunks, local, buf, k);
      PieceFacts(r, chunks, k);
      ws := ws + [Write(p.chunk, local[p.ptr..p.ptr + p.size], p.at)];
    }
    PullableIsOwn(t, r, q.host);
    PullableOnce(t, r, q.host);
    ScheduleInOrder(ws, r, buf, chunks);
    OwnCount(q, t, r);
    if err == 0 {
      VolumeIsBytes(ws, r, buf, chunks);
      err, ioSize := WaitForTasks(ws, q.chunkCount);
    }
  }

  /** As many tasks are waited for as chunks were listed, and one is started for each chunk seen. */
  lemma OwnCount(q: Request, t: Targets, r: Range)
    requires r.Valid() && Sound(q, t, r)
    ensures |Own(t, r, q.host)| <= q.chunkCount
    ensures |Own(t, r, q.host)| == q.chunkCount <==> NoDup(ChunksOf(t, r, q.host))
  {
    hide Seen, HostChunks, Discounted, BitsOf, NoDup, Range.First, Range.Last;
    SeenAgainstListed(t, q.host, r.First(), r.Last() + 1);
    SeenOnce(t, q.host, r.First(), r.Last() + 1);
  }

  lemma PullableIsOwn(t: Targets, r: Range, h: nat)
    requires r.Valid()
    ensures Excess(t, r, h) == 0 ==> Pullable(t, r, h) == Own(t, r, h)
  {
  }

  lemma PullableBytes(t: Targets, r: Range, h: nat)
    requires r.Valid()
    ensures 0 <= Bytes(r, Pullable(t, r, h)) <= Bytes(r, Own(t, r, h))
    ensures |Own(t, r, h)| <= |ChunksOf(t, r, h)|
  {
    hide Own, Excess, Bytes, Range.First, Range.Last;
    var own, good := Own(t, r, h), Pullable(t, r, h);
    OwnTouch(t, r, h);
    OwnIsListed(t, r, h);
    BytesMonotone(r, own, |good|, |own|);
    assert own[..|own|] == own && own[..|good|] == good;
  }

  lemma PullableOnce(t: Targets, r: Range, h: nat)
    requires r.Valid()
    ensures NoDup(Pullable(t, r, h))
  {
    SeenOnce(t, h, r.First(), r.Last() + 1);
    hide Seen, Excess;
  }

  /** A host that is listed once for each of its chunks can pull them all. */
  lemma PullsAll(t: Targets, r: Range, h: nat)
    requires r.Valid() && NoDup(ChunksOf(t, r, h))
    ensures Excess(t, r, h) == 0 && Pullable(t, r, h) == ChunksOf(t, r, h)
  {
    OwnIsListed(t, r, h);
  }

  lemma PulledNothing(local: seq<byte>, pieces: seq<Piece>, buf: seq<byte>)
    ensures Pulled(local, pieces, buf, 0)
  {
  }

  lemma BytesNotNegative(r: Range, chunks: seq<nat>)
    requires r.Valid() && AllTouch(r, chunks)
    ensures Bytes(r, chunks) >= 0
  {
    hide Bytes;
    BytesMonotone(r, chunks, |chunks|, |chunks|);
    assert chunks[..|chunks|] == chunks;
  }

  lemma ScheduleInOrder(ws: seq<Write>, r: Range, buf: seq<byte>, chunks: seq<nat>)
    requires r.Valid() && NoDup(chunks) && |buf| == r.size && |ws| == |chunks|
    requires forall k | 0 <= k < |ws| ::
               ws[k].chunk == chunks[k] && r.Touches(chunks[k]) && ws[k] == WriteOf(r, buf, chunks[k])
    ensures Schedule(ws, r, buf, chunks)
  {
    hide WriteOf, Range.First, Range.Last;
    forall c | c in chunks
      ensures exists i :: 0 <= i < |ws| && ws[i].chunk == c
    {
      var i :| 0 <= i < |chunks| && chunks[i] == c;
      assert ws[i].chunk == c;
    }
  }
}
