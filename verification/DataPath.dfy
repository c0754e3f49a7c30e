/** The data path end to end: what a write leaves on the hosts, what a read brings back, and
    that together they behave like one flat file, whatever the distributor, the order in which
    hosts and tasklets run, and the copies that are read. */
module DataPath {
  import opened Common
  import opened Wire
  import opened Chunks
  import opened Planning
  import opened Daemon
  import opened ChunkStore

  // ---------------------------------------------------------------- writing

  /** A set of hosts. */
  type Hosts = nat -> bool

  /** A host that takes part in a write changes no chunk file but those it is sent, and makes none
      longer than the range. */
  ghost predicate Spared(d: Dir, d': Dir, r: Range, chunks: seq<nat>) {
    forall c: nat :: if c in chunks then Extended(d, d', r, c) else FileOf(d', c) == FileOf(d, c)
  }

  predicate Extended(d: Dir, d': Dir, r: Range, c: nat) {
    |FileOf(d', c)| <= |FileOf(d, c)| || c * CHUNK + |FileOf(d', c)| <= r.End()
  }

  /** A host has carried out its part of a write, in its own order. */
  ghost predicate Applied(d: Dir, d': Dir, r: Range, buf: seq<byte>, chunks: seq<nat>)
    requires r.Valid() && |buf| == r.size
  {
    exists ws :: Schedule(ws, r, buf, chunks) && d' == Apply(d, ws)
  }

  /** The store after one `forward_write` that the hosts in `live` have served. Of any other host
      nothing is known but that it left the chunks it was not sent alone, and wrote nothing behind the
      range: it may have done part of its work, or spoilt what it was working on. */
  ghost predicate Written(s: Store, s': Store, t: Targets, r: Range, buf: seq<byte>, live: Hosts)
    requires r.Valid() && |buf| == r.size
  {
    forall h: nat ::
      && Spared(DirOf(s, h), DirOf(s', h), r, ChunksOf(t, r, h))
      && (live(h) ==> Applied(DirOf(s, h), DirOf(s', h), r, buf, ChunksOf(t, r, h)))
  }

  lemma PwriteByte(file: seq<byte>, data: seq<byte>, at: nat, i: nat)
    ensures var out := Pwrite(file, data, at);
            && (at <= i < at + |data| ==> i < |out| && out[i] == data[i - at])
            && (!(at <= i < at + |data|) ==>
                  (if i < |out| then out[i] else 0) == (if i < |file| then file[i] else 0))
  {
  }

  /** Byte `i` of chunk `c` on a host after a write of the range. */
  ghost predicate Overwritten(d: Dir, d': Dir, r: Range, buf: seq<byte>, c: nat, i: nat)
    requires r.Valid() && |buf| == r.size
  {
    if r.offset <= c * CHUNK + i < r.End() then
      i < |FileOf(d', c)| && Byte(d', c, i) == buf[c * CHUNK + i - r.offset]
    else Byte(d', c, i) == Byte(d, c, i)
  }

  lemma InRangeTouches(r: Range, c: nat, i: nat)
    requires r.Valid() && i < CHUNK
    ensures r.offset <= c * CHUNK + i < r.End() ==> r.Touches(c)
    ensures r.Touches(c) ==> (r.offset <= c * CHUNK + i < r.End() <==> r.Lo(c) <= c * CHUNK + i < r.Hi(c))
  {
    RangeBounds(r);
  }

  /** The bytes of the range in chunk `c` are the written part of its file. */
  lemma WriteOfCovers(r: Range, buf: seq<byte>, c: nat, i: nat)
    requires r.Valid() && |buf| == r.size && r.Touches(c) && i < CHUNK
    ensures var w := WriteOf(r, buf, c);
            && (w.at <= i < w.at + |w.data| <==> r.offset <= c * CHUNK + i < r.End())
            && (w.at <= i < w.at + |w.data| ==> w.data[i - w.at] == buf[c * CHUNK + i - r.offset])
  {
    ChunkPiece(r, c);
    InRangeTouches(r, c, i);
  }

  lemma WrittenChunk(d: Dir, ws: seq<Write>, r: Range, buf: seq<byte>, chunks: seq<nat>, c: nat, i: nat)
    requires r.Valid() && |buf| == r.size && i < CHUNK && r.Touches(c)
    requires Schedule(ws, r, buf, chunks) && c in chunks
    ensures Overwritten(d, Apply(d, ws), r, buf, c, i)
  {
    hide Pwrite, Apply, WriteOf, Range.First, Range.Last, Range.Lo, Range.Hi;
    var k :| 0 <= k < |ws| && ws[k].chunk == c;
    ApplyAt(d, ws, k);
    WriteOfCovers(r, buf, c, i);
    PwriteByte(FileOf(d, c), ws[k].data, ws[k].at, i);
  }

  /** A write reaches every copy on a live host it is sent to, and no other chunk of any host. */
  lemma WriteReachesCopies(s: Store, s': Store, t: Targets, r: Range, buf: seq<byte>, live: Hosts, h: nat, c: nat,
                           i: nat)
    requires r.Valid() && |buf| == r.size && i < CHUNK
    requires Written(s, s', t, r, buf, live)
    ensures live(h) && h in t(c) ==> Overwritten(DirOf(s, h), DirOf(s', h), r, buf, c, i)
    ensures !(h in t(c) && r.Touches(c)) ==> FileOf(DirOf(s', h), c) == FileOf(DirOf(s, h), c)
  {
    hide HostChunks, Apply, Range.First, Range.Last, Range.Lo, Range.Hi, Byte, Schedule;
    var chunks := ChunksOf(t, r, h);
    HostChunksMembers(t, h, r.First(), r.Last() + 1, c);
    InRangeTouches(r, c, i);
    assert Spared(DirOf(s, h), DirOf(s', h), r, chunks);
    if c in chunks {
      if live(h) {
        var ws: seq<Write> :| Schedule(ws, r, buf, chunks) && DirOf(s', h) == Apply(DirOf(s, h), ws);
        WrittenChunk(DirOf(s, h), ws, r, buf, chunks, c, i);
      }
    } else {
      SameFileSameByte(DirOf(s, h), DirOf(s', h), c, i);
    }
  }

  lemma SameFileSameByte(d: Dir, d': Dir, c: nat, i: nat)
    requires FileOf(d, c) == FileOf(d', c)
    ensures Byte(d, c, i) == Byte(d', c, i)
  {
  }

  /** Host `h` has served every call of a write that concerns its copies of chunk `c`: `first` are
      the hosts that served the call for the primary copies, `second` that for the replicas. */
  ghost predicate Wrote(first: Hosts, second: Hosts, locate: (nat, nat) -> nat, replicas: nat, c: nat, h: nat) {
    && (h in CopyHosts(locate, 0, c) ==> first(h))
    && (replicas > 0 && h in CopyHosts(locate, replicas, c) ==> second(h))
  }

  /** `gkfs_do_write` sends the primary copies in one call and the replicas 1 to `replicas` in a
      second. Afterwards a copy holds the flat file with the range overwritten if its host has
      served the calls that concern it, or the write does not touch the chunk. */
  lemma BothCallsReachEveryCopy(
    s0: Store, s1: Store, s2: Store, locate: (nat, nat) -> nat, replicas: nat,
    r: Range, buf: seq<byte>, first: Hosts, second: Hosts, copy: nat, c: nat, i: nat)
    requires r.Valid() && |buf| == r.size && i < CHUNK
    requires Written(s0, s1, WriteTargets(locate, 0), r, buf, first)
    requires if replicas == 0 then s2 == s1 else Written(s1, s2, WriteTargets(locate, replicas), r, buf, second)
    requires copy <= replicas && (r.Touches(c) ==> Wrote(first, second, locate, replicas, c, locate(c, copy)))
    ensures Overwritten(DirOf(s0, locate(c, copy)), DirOf(s2, locate(c, copy)), r, buf, c, i)
  {
    hide Written, CopyHosts, Byte, Range.First, Range.Last;
    var h := locate(c, copy);
    CopyHostsAt(locate, 0, c);
    CopyHostsAt(locate, replicas, c);
    InRangeTouches(r, c, i);
    WriteReachesCopies(s0, s1, WriteTargets(locate, 0), r, buf, first, h, c, i);
    KeepsByte(DirOf(s0, h), DirOf(s1, h), c, i);
    if replicas > 0 {
      WriteReachesCopies(s1, s2, WriteTargets(locate, replicas), r, buf, second, h, c, i);
      KeepsByte(DirOf(s1, h), DirOf(s2, h), c, i);
      if copy > 0 {
        assert CopyHosts(locate, replicas, c)[copy - 1] == h;
      }
    }
    if copy == 0 {
      assert CopyHosts(locate, 0, c)[0] == h;
    }
  }

  lemma KeepsByte(d: Dir, d': Dir, c: nat, i: nat)
    ensures FileOf(d', c) == FileOf(d, c) ==> Byte(d', c, i) == Byte(d, c, i)
  {
  }

  // ---------------------------------------------------------------- reading

  /** One bulk transfer back into the client's buffer. */
  datatype Push = Push(origin: nat, data: seq<byte>)

  /** What a daemon reads of chunk `c` for this range, and where it belongs. */
  function PushOf(r: Range, d: Dir, c: nat): Push
    requires r.Valid() && r.Touches(c)
  {
    ChunkPiece(r, c);
    Push(r.Lo(c) - r.offset, Pread(FileOf(d, c), r.Len(c), r.Lo(c) - c * CHUNK))
  }

  /** The pushes of one host: one for each of its chunks that has bytes there. */
  ghost predicate Served(ps: seq<Push>, r: Range, d: Dir, chunks: seq<nat>)
    requires r.Valid() && AllTouch(r, chunks)
  {
    && (forall p | p in ps :: exists c :: c in chunks && p == PushOf(r, d, c))
    && (forall c | c in chunks && PushOf(r, d, c).data != [] :: PushOf(r, d, c) in ps)
  }

  /** The bytes of the listed chunks that a host has. */
  function Stored(r: Range, d: Dir, chunks: seq<nat>): nat
    requires r.Valid() && AllTouch(r, chunks)
  {
    if chunks == [] then 0
    else
      var n := |chunks| - 1;
      assert chunks[n] in chunks && forall c | c in chunks[..n] :: c in chunks;
      Stored(r, d, chunks[..n]) + |PushOf(r, d, chunks[n]).data|
  }

  lemma StoredSnoc(r: Range, d: Dir, chunks: seq<nat>, c: nat)
    requires r.Valid() && AllTouch(r, chunks) && r.Touches(c)
    ensures AllTouch(r, chunks + [c])
    ensures Stored(r, d, chunks + [c]) == Stored(r, d, chunks) + |PushOf(r, d, c).data|
  {
    hide PushOf, Range.First, Range.Last;
    assert (chunks + [c])[..|chunks|] == chunks;
  }

  lemma ServedSnoc(ps: seq<Push>, r: Range, d: Dir, chunks: seq<nat>, c: nat)
    requires r.Valid() && AllTouch(r, chunks) && r.Touches(c) && Served(ps, r, d, chunks)
    ensures AllTouch(r, chunks + [c])
    ensures Served(if PushOf(r, d, c).data == [] then ps else ps + [PushOf(r, d, c)], r, d, chunks + [c])
  {
    hide PushOf, Range.First, Range.Last;
    var q := PushOf(r, d, c);
    var ps' := if q.data == [] then ps else ps + [q];
    assert c in chunks + [c] && forall x | x in chunks :: x in chunks + [c];
    forall p | p in ps'
      ensures exists x :: x in chunks + [c] && p == PushOf(r, d, x)
    {
      if p in ps {
        var x :| x in chunks && p == PushOf(r, d, x);
        assert x in chunks + [c];
      } else {
        assert p == q;
      }
    }
    forall x | x in chunks + [c] && PushOf(r, d, x).data != []
      ensures PushOf(r, d, x) in ps'
    {
      if x in chunks { assert PushOf(r, d, x) in ps; }
    }
  }

  /** What the tasklet reads for piece `k` is the push of its chunk. */
  lemma PieceIsPush(r: Range, d: Dir, chunks: seq<nat>, k: nat)
    requires r.Valid() && AllTouch(r, chunks) && k < |chunks|
    ensures |PiecesOf(r, chunks)| == |chunks| && r.Touches(chunks[k])
    ensures var p := PiecesOf(r, chunks)[k];
            && p.chunk == chunks[k] && 0 <= p.origin && 0 <= p.at && 0 < p.size
            && 0 <= p.ptr == p.local && p.ptr + p.size <= Bytes(r, chunks)
            && PushOf(r, d, p.chunk) == Push(p.origin, Pread(FileOf(d, p.chunk), p.size, p.at))
  {
    hide PiecesOf, Bytes, AllTouch, Pread, Range.First, Range.Last, Range.Lo, Range.Hi;
    PieceFacts(r, chunks, k);
  }

  lemma PreadShort(file: seq<byte>, size: nat, at: nat)
    ensures |Pread(file, size, at)| <= size
  {
  }

  /** `rpc_srv_read`: read each piece into the bulk buffer and push back as many bytes as there
      were. A missing chunk file or an empty read is skipped. */
  method ServeRead(q: Request, bulkSize: nat, d: Dir, ghost t: Targets, ghost r: Range)
    returns (ps: seq<Push>, ioSize: nat)
    requires r.Valid() && Sound(q, t, r) && NoDup(ChunksOf(t, r, q.host)) && bulkSize == r.size
    ensures AllTouch(r, ChunksOf(t, r, q.host))
    ensures Served(ps, r, d, ChunksOf(t, r, q.host))
    ensures ioSize == Stored(r, d, ChunksOf(t, r, q.host))
  {
    hide PiecesOf, Bytes, Range.First, Range.Last, Splice, ChunksOf, Sound, Pread, PushOf, Served, Stored, AllTouch;
    ghost var chunks := ChunksOf(t, r, q.host);
    SoundTotal(q, t, r);
    OwnIsListed(t, r, q.host);
    PullsAll(t, r, q.host);
    HostChunksTouch(t, r, q.host);
    PiecesCount(r, chunks);
    BytesNotNegative(r, chunks);
    var pieces, left := ServePieces(q, bulkSize, t, r);
    var local := Zeros(q.total);
    ps, ioSize := [], 0;
    NothingServed(r, d, chunks[..0]);
    for n := 0 to |pieces|
      invariant |local| == q.total
      invariant AllTouch(r, chunks[..n])
      invariant Served(ps, r, d, chunks[..n]) && ioSize == Stored(r, d, chunks[..n])
    {
      var p := pieces[n];
      PieceIsPush(r, d, chunks, n);
      assert chunks[..n + 1] == chunks[..n] + [chunks[n]];
      ServedSnoc(ps, r, d, chunks[..n], chunks[n]);
      StoredSnoc(r, d, chunks[..n], chunks[n]);
      var data := Pread(FileOf(d, p.chunk), p.size, p.at);
      PreadShort(FileOf(d, p.chunk), p.size, p.at);
      SpliceElsewhere(local, p.ptr, data, 0, 0);
      local := Splice(local, p.ptr, data);
      if data != [] {
        ps := ps + [Push(p.origin, local[p.local..p.local + |data|])];
        ioSize := ioSize + |data|;
      }
    }
    assert chunks[..|pieces|] == chunks;
  }

  lemma NothingServed(r: Range, d: Dir, none: seq<nat>)
    requires r.Valid() && none == []
    ensures AllTouch(r, none) && Served([], r, d, none) && Stored(r, d, none) == 0
  {
  }

  // ---------------------------------------------------------------- the client's buffer

  function ApplyPushes(buf: seq<byte>, ps: seq<Push>): (out: seq<byte>)
    requires forall p | p in ps :: p.origin + |p.data| <= |buf|
    ensures |out| == |buf|
  {
    if ps == [] then buf
    else
      var n := |ps| - 1;
      assert ps[n] in ps && forall p | p in ps[..n] :: p in ps;
      Splice(ApplyPushes(buf, ps[..n]), ps[n].origin, ps[n].data)
  }

  predicate Covers(p: Push, i: nat) {
    p.origin <= i < p.origin + |p.data|
  }

  lemma CoveredByLast(ps: seq<Push>, n: nat, i: nat)
    requires |ps| == n + 1
    ensures (exists p :: p in ps && Covers(p, i)) <==> Covers(ps[n], i) || exists p :: p in ps[..n] && Covers(p, i)
  {
    hide Covers;
    assert ps == ps[..n] + [ps[n]];
  }

  /** Transfers that agree wherever they overlap: each byte is the one that some transfer
      brings, and is left alone when none does. */
  lemma {:induction false} ApplyPushesAt(buf: seq<byte>, ps: seq<Push>, i: nat, x: byte)
    requires forall p | p in ps :: p.origin + |p.data| <= |buf|
    requires i < |buf| && forall p | p in ps && Covers(p, i) :: p.data[i - p.origin] == x
    ensures ApplyPushes(buf, ps)[i] == if exists p :: p in ps && Covers(p, i) then x else buf[i]
  {
    hide Splice;
    if ps != [] {
      var n := |ps| - 1;
      assert ps == ps[..n] + [ps[n]];
      assert ps[n] in ps && forall p | p in ps[..n] :: p in ps;
      ApplyPushesAt(buf, ps[..n], i, x);
      SpliceAt(ApplyPushes(buf, ps[..n]), ps[n].origin, ps[n].data, i);
      CoveredByLast(ps, n, i);
    }
  }

  /** A push brings a chunk from the host chosen for it, which is one of `ok`. */
  ghost predicate FromHost(p: Push, r: Range, s: Store, picks: seq<nat>, ok: Hosts)
    requires r.Valid() && |picks| == Count(r)
  {
    exists c: nat ::
      r.Touches(c) && ok(picks[c - r.First()]) && p == PushOf(r, DirOf(s, picks[c - r.First()]), c)
  }

  ghost predicate FromHosts(ps: seq<Push>, r: Range, s: Store, picks: seq<nat>, ok: Hosts)
    requires r.Valid() && |picks| == Count(r)
  {
    forall p | p in ps :: FromHost(p, r, s, picks, ok)
  }

  function Anyone(): Hosts {
    (h: nat) => true
  }

  /** All pushes of a read: every chunk comes from the host chosen for it. */
  ghost predicate Gathered(ps: seq<Push>, r: Range, s: Store, picks: seq<nat>)
    requires r.Valid() && |picks| == Count(r)
  {
    && FromHosts(ps, r, s, picks, Anyone())
    && (forall c: nat | r.Touches(c) ::
          var p := PushOf(r, DirOf(s, picks[c - r.First()]), c); p.data != [] ==> p in ps)
  }

  lemma ReadTargetsAt(picks: seq<nat>, r: Range, h: nat, c: nat)
    requires r.Valid() && |picks| == Count(r)
    ensures c in ChunksOf(ReadTargets(picks, r.First()), r, h) <==> r.Touches(c) && picks[c - r.First()] == h
  {
    hide HostChunks, Range.First, Range.Last;
    HostChunksMembers(ReadTargets(picks, r.First()), h, r.First(), r.Last() + 1, c);
  }

  /** Whatever the hosts answer, merged in any order, is a complete gathering. */
  lemma AnyMergeGathers(ps: seq<Push>, parts: map<nat, seq<Push>>, r: Range, s: Store, picks: seq<nat>)
    requires r.Valid() && |picks| == Count(r)
    requires forall h: nat :: AllTouch(r, ChunksOf(ReadTargets(picks, r.First()), r, h))
    requires forall h: nat ::
               ChunksOf(ReadTargets(picks, r.First()), r, h) != [] ==>
                 h in parts && Served(parts[h], r, DirOf(s, h), ChunksOf(ReadTargets(picks, r.First()), r, h))
    requires forall h | h in parts :: ChunksOf(ReadTargets(picks, r.First()), r, h) != []
    requires forall p :: p in ps <==> exists h :: h in parts && p in parts[h]
    ensures Gathered(ps, r, s, picks)
  {
    hide ChunksOf, PushOf, ReadTargets, Range.First, Range.Last;
    var t := ReadTargets(picks, r.First());
    forall p | p in ps
      ensures FromHost(p, r, s, picks, Anyone())
    {
      var h :| h in parts && p in parts[h];
      var c :| c in ChunksOf(t, r, h) && p == PushOf(r, DirOf(s, h), c);
      ReadTargetsAt(picks, r, h, c);
    }
    forall c: nat | r.Touches(c)
      ensures var p := PushOf(r, DirOf(s, picks[c - r.First()]), c); p.data != [] ==> p in ps
    {
      var h := picks[c - r.First()];
      ReadTargetsAt(picks, r, h, c);
      var p := PushOf(r, DirOf(s, h), c);
      if p.data != [] {
        assert p in parts[h];
      }
    }
  }

  /** A push covers exactly the stored bytes of its chunk that lie in the range. */
  lemma PushCovers(r: Range, d: Dir, c: nat, i: nat, c': nat, j: nat)
    requires r.Valid() && r.Touches(c) && j < CHUNK && i < r.size && r.offset + i == c' * CHUNK + j
    ensures Covers(PushOf(r, d, c), i) <==> c == c' && j < |FileOf(d, c)|
    ensures Covers(PushOf(r, d, c), i) ==> PushOf(r, d, c).data[i - PushOf(r, d, c).origin] == FileOf(d, c)[j]
    ensures PushOf(r, d, c).origin + |PushOf(r, d, c).data| <= r.size
  {
    ChunkPiece(r, c);
    hide Range.First, Range.Last;
    SameChunk(c, c', r, i, j);
    PreadShort(FileOf(d, c), r.Len(c), r.Lo(c) - c * CHUNK);
  }

  lemma SameChunk(c: nat, c': nat, r: Range, i: nat, j: nat)
    requires j < CHUNK && r.offset + i == c' * CHUNK + j && i < r.size
    ensures r.Lo(c) <= r.offset + i < r.Hi(c) <==> c == c'
  {
  }

  /** What a read returns: each byte that the chosen host has stored, and the client's own
      byte where it has none. */
  lemma ReadReturnsStoredBytes(
    ps: seq<Push>, r: Range, s: Store, picks: seq<nat>, buf: seq<byte>, i: nat, c: nat, j: nat)
    requires r.Valid() && |picks| == Count(r) && |buf| == r.size && i < r.size
    requires Gathered(ps, r, s, picks)
    requires j < CHUNK && r.offset + i == c * CHUNK + j
    ensures forall p | p in ps :: p.origin + |p.data| <= |buf|
    ensures r.Touches(c)
    ensures var file := FileOf(DirOf(s, picks[c - r.First()]), c);
            ApplyPushes(buf, ps)[i] == if j < |file| then file[j] else buf[i]
  {
    assert FromHosts(ps, r, s, picks, Anyone());
    hide PushOf, ApplyPushes, Covers, Gathered, FromHost, Range.First, Range.Last, Range.Lo, Range.Hi;
    PositionTouches(r, c, i, j);
    var d := DirOf(s, picks[c - r.First()]);
    var file := FileOf(d, c);
    forall p | p in ps
      ensures p.origin + |p.data| <= |buf|
      ensures Covers(p, i) ==> p.origin <= i < p.origin + |p.data| && j < |file| && p.data[i - p.origin] == file[j]
    {
      PushFromHost(p, r, s, picks, Anyone(), i, c, j);
    }
    if j < |file| {
      StoredByteIsPushed(ps, r, s, picks, i, c, j);
    }
    ApplyPushesAt(buf, ps, i, if j < |file| then file[j] else 0);
  }

  lemma PositionTouches(r: Range, c: nat, i: nat, j: nat)
    requires r.Valid() && i < r.size && j < CHUNK && r.offset + i == c * CHUNK + j
    ensures r.Touches(c) && c - r.First() < Count(r)
  {
    RangeBounds(r);
  }

  lemma PushFromHost(p: Push, r: Range, s: Store, picks: seq<nat>, ok: Hosts, i: nat, c: nat, j: nat)
    requires r.Valid() && |picks| == Count(r) && i < r.size && r.Touches(c)
    requires FromHost(p, r, s, picks, ok)
    requires j < CHUNK && r.offset + i == c * CHUNK + j
    ensures p.origin + |p.data| <= r.size
    ensures var h := picks[c - r.First()];
            var file := FileOf(DirOf(s, h), c);
            Covers(p, i) ==>
              ok(h) && p.origin <= i < p.origin + |p.data| && j < |file| && p.data[i - p.origin] == file[j]
  {
    hide PushOf, Range.First, Range.Last, Range.Lo, Range.Hi;
    var c': nat :| r.Touches(c') && ok(picks[c' - r.First()]) && p == PushOf(r, DirOf(s, picks[c' - r.First()]), c');
    PushCovers(r, DirOf(s, picks[c' - r.First()]), c', i, c, j);
  }

  /** Pushes from the hosts chosen, even if some are missing, leave a byte as it was or bring the
      one that its host has stored. */
  lemma PartialRead(ps: seq<Push>, r: Range, s: Store, picks: seq<nat>, ok: Hosts, buf: seq<byte>, i: nat, c: nat,
                    j: nat)
    requires r.Valid() && |picks| == Count(r) && |buf| == r.size && i < r.size && r.Touches(c)
    requires FromHosts(ps, r, s, picks, ok) && j < CHUNK && r.offset + i == c * CHUNK + j
    ensures forall p | p in ps :: p.origin + |p.data| <= |buf|
    ensures var h := picks[c - r.First()];
            var file := FileOf(DirOf(s, h), c);
            ApplyPushes(buf, ps)[i] == buf[i] || (ok(h) && j < |file| && ApplyPushes(buf, ps)[i] == file[j])
  {
    hide PushOf, ApplyPushes, Covers, FromHost, Range.First, Range.Last, Range.Lo, Range.Hi;
    var h := picks[c - r.First()];
    var file := FileOf(DirOf(s, h), c);
    forall p | p in ps
      ensures p.origin + |p.data| <= |buf|
      ensures Covers(p, i) ==>
                ok(h) && p.origin <= i < p.origin + |p.data| && j < |file| && p.data[i - p.origin] == file[j]
    {
      PushFromHost(p, r, s, picks, ok, i, c, j);
    }
    ApplyPushesAt(buf, ps, i, if j < |file| then file[j] else 0);
  }

  lemma StoredByteIsPushed(ps: seq<Push>, r: Range, s: Store, picks: seq<nat>, i: nat, c: nat, j: nat)
    requires r.Valid() && |picks| == Count(r) && i < r.size && r.Touches(c)
    requires Gathered(ps, r, s, picks)
    requires j < CHUNK && r.offset + i == c * CHUNK + j
    requires j < |FileOf(DirOf(s, picks[c - r.First()]), c)|
    ensures exists p :: p in ps && Covers(p, i)
  {
    hide PushOf, Covers, Range.First, Range.Last, Range.Lo, Range.Hi;
    var mine := PushOf(r, DirOf(s, picks[c - r.First()]), c);
    PushCovers(r, DirOf(s, picks[c - r.First()]), c, i, c, j);
    CoversSomething(mine, i);
  }

  lemma CoversSomething(p: Push, i: nat)
    requires Covers(p, i)
    ensures p.data != []
  {
  }

  // ---------------------------------------------------------------- write, then read

  /** `h` is where the distributor puts some copy of chunk `c`. */
  ghost predicate HoldsCopy(locate: (nat, nat) -> nat, replicas: nat, c: nat, h: nat) {
    exists copy: nat :: copy <= replicas && h == locate(c, copy)
  }

  /** Both calls of `gkfs_do_write`, served by the hosts in `first` and in `second`. */
  ghost predicate WrittenToAll(
    s: Store, s': Store, locate: (nat, nat) -> nat, replicas: nat, w: Range, data: seq<byte>,
    first: Hosts, second: Hosts)
    requires w.Valid() && |data| == w.size
  {
    exists mid ::
      && Written(s, mid, WriteTargets(locate, 0), w, data, first)
      && (if replicas == 0 then s' == mid else Written(mid, s', WriteTargets(locate, replicas), w, data, second))
  }

  lemma CopyIsOverwritten(
    s: Store, s': Store, locate: (nat, nat) -> nat, replicas: nat, w: Range, data: seq<byte>,
    first: Hosts, second: Hosts, h: nat, c: nat, j: nat)
    requires w.Valid() && |data| == w.size && j < CHUNK
    requires WrittenToAll(s, s', locate, replicas, w, data, first, second)
    requires HoldsCopy(locate, replicas, c, h) && (w.Touches(c) ==> Wrote(first, second, locate, replicas, c, h))
    ensures Overwritten(DirOf(s, h), DirOf(s', h), w, data, c, j)
  {
    hide Written, Overwritten, WriteTargets, Wrote;
    var mid :| && Written(s, mid, WriteTargets(locate, 0), w, data, first)
               && (if replicas == 0 then s' == mid
                   else Written(mid, s', WriteTargets(locate, replicas), w, data, second));
    var copy: nat :| copy <= replicas && h == locate(c, copy);
    BothCallsReachEveryCopy(s, mid, s', locate, replicas, w, data, first, second, copy, c, j);
  }

  /** Byte `i` of a read that follows a write, `i` being byte `j` of chunk `c` of the file. */
  lemma ReadAfterWrite(
    s: Store, s': Store, locate: (nat, nat) -> nat, replicas: nat, first: Hosts, second: Hosts,
    w: Range, data: seq<byte>, r: Range, picks: seq<nat>, ps: seq<Push>, buf: seq<byte>, i: nat, c: nat, j: nat)
    requires w.Valid() && |data| == w.size && WrittenToAll(s, s', locate, replicas, w, data, first, second)
    requires r.Valid() && |picks| == Count(r) && Gathered(ps, r, s', picks)
    requires |buf| == r.size && i < r.size && j < CHUNK && r.offset + i == c * CHUNK + j && r.Touches(c)
    requires var h := picks[c - r.First()];
             HoldsCopy(locate, replicas, c, h) && (w.Touches(c) ==> Wrote(first, second, locate, replicas, c, h))
    ensures forall p | p in ps :: p.origin + |p.data| <= |buf|
    ensures var out := ApplyPushes(buf, ps)[i];
            if w.offset <= r.offset + i < w.End() then out == data[r.offset + i - w.offset]
            else buf[i] == 0 ==> out == Byte(DirOf(s, picks[c - r.First()]), c, j)
  {
    hide WrittenToAll, Gathered, ApplyPushes, HoldsCopy, Wrote, Range.First, Range.Last;
    ReadReturnsStoredBytes(ps, r, s', picks, buf, i, c, j);
    CopyIsOverwritten(s, s', locate, replicas, w, data, first, second, picks[c - r.First()], c, j);
  }

  /** After a write of any range, a read of any range returns the written bytes inside the first
      range, and elsewhere the bytes that were there (zero in a gap, if the buffer was zeroed). It
      holds for every distributor, for every order in which hosts and tasklets ran, and whichever
      copy each chunk was read from, as long as its host has served the write. */
  lemma WriteThenRead(
    s: Store, s': Store, locate: (nat, nat) -> nat, replicas: nat, first: Hosts, second: Hosts,
    w: Range, data: seq<byte>, r: Range, picks: seq<nat>, ps: seq<Push>, buf: seq<byte>, i: nat)
    requires w.Valid() && |data| == w.size && WrittenToAll(s, s', locate, replicas, w, data, first, second)
    requires r.Valid() && |picks| == Count(r) && Gathered(ps, r, s', picks)
    requires forall k: nat | k < |picks| ::
               && HoldsCopy(locate, replicas, r.First() + k, picks[k])
               && (w.Touches(r.First() + k) ==> Wrote(first, second, locate, replicas, r.First() + k, picks[k]))
    requires |buf| == r.size && i < r.size
    ensures forall p | p in ps :: p.origin + |p.data| <= |buf|
    ensures var pos, out := r.offset + i, ApplyPushes(buf, ps)[i];
            && r.Touches(pos / CHUNK)
            && if w.offset <= pos < w.End() then out == data[pos - w.offset]
               else buf[i] == 0 ==> out == Byte(DirOf(s, picks[pos / CHUNK - r.First()]), pos / CHUNK, pos % CHUNK)
  {
    hide WrittenToAll, Gathered, ApplyPushes, HoldsCopy, Wrote, Byte, Range.First, Range.Last;
    var pos := r.offset + i;
    var c, j := pos / CHUNK, pos % CHUNK;
    PositionTouches(r, c, i, j);
    assert HoldsCopy(locate, replicas, r.First() + (c - r.First()), picks[c - r.First()]);
    ReadAfterWrite(s, s', locate, replicas, first, second, w, data, r, picks, ps, buf, i, c, j);
  }

  /** Any host may fail: whatever becomes of the chunks it was sent, the others have still served
      the write. */
  lemma AnyHostMayFail(s: Store, s': Store, t: Targets, r: Range, buf: seq<byte>, live: Hosts, h: nat, d: Dir)
    requires r.Valid() && |buf| == r.size && Written(s, s', t, r, buf, live)
    requires Spared(DirOf(s, h), d, r, ChunksOf(t, r, h))
    ensures Written(s, s'[h := d], t, r, buf, (x: nat) => x != h && live(x))
  {
    hide ChunksOf, Applied, Spared;
  }
}
