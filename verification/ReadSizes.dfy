/** How much a read brings: the sizes the daemons report add up to the number of positions of the
    range that the copies read from have stored. */
module ReadSizes {
  import opened Common
  import opened Wire
  import opened Chunks
  import opened Planning
  import opened ChunkStore
  import opened DataPath
  import opened Transfers

  // ---------------------------------------------------------------- by hosts and by chunks

  /** The bytes of the range that a host has of chunk `c`. */
  ghost function PushLen(r: Range, d: Dir, c: nat): nat
    requires r.Valid()
  {
    if r.Touches(c) then |PushOf(r, d, c).data| else 0
  }

  ghost function HostLen(r: Range, d: Dir, chunks: seq<nat>): nat
    requires r.Valid()
  {
    if chunks == [] then 0 else HostLen(r, d, chunks[..|chunks| - 1]) + PushLen(r, d, chunks[|chunks| - 1])
  }

  lemma {:induction false} HostLenIsStored(r: Range, d: Dir, chunks: seq<nat>)
    requires r.Valid() && AllTouch(r, chunks)
    ensures Stored(r, d, chunks) == HostLen(r, d, chunks)
  {
    hide PushOf, Range.First, Range.Last;
    if chunks != [] {
      var n := |chunks| - 1;
      assert chunks[n] in chunks && forall c | c in chunks[..n] :: c in chunks;
      HostLenIsStored(r, d, chunks[..n]);
    }
  }

  /** What the hosts asked have of the chunks below `b`. */
  ghost function SumLen(reqs: seq<Request>, t: Targets, r: Range, s: Store, b: nat): nat
    requires r.Valid()
  {
    if reqs == [] then 0
    else
      var n := |reqs| - 1;
      SumLen(reqs[..n], t, r, s, b) +
      HostLen(r, DirOf(s, reqs[n].host), HostChunks(t, reqs[n].host, r.First(), b))
  }

  lemma HostLenNext(t: Targets, h: nat, r: Range, d: Dir, b: nat)
    requires r.Valid() && r.First() < b && |t(b - 1)| == 1
    ensures HostLen(r, d, HostChunks(t, h, r.First(), b)) ==
            HostLen(r, d, HostChunks(t, h, r.First(), b - 1)) + if t(b - 1)[0] == h then PushLen(r, d, b - 1) else 0
  {
    hide PushLen, Range.First, Range.Last;
    var l, c := HostChunks(t, h, r.First(), b - 1), b - 1;
    assert t(c) == [t(c)[0]] && t(c)[..0] == [];
    assert Echo(t(c), h, c) == if t(c)[0] == h then [c] else [];
    assert (l + [c])[..|l|] == l && l + [] == l;
  }

  lemma {:induction false} ChunkAddsLen(reqs: seq<Request>, t: Targets, r: Range, s: Store, b: nat)
    requires r.Valid() && r.First() < b && |t(b - 1)| == 1 && HostsDiffer(reqs)
    ensures SumLen(reqs, t, r, s, b) ==
            SumLen(reqs, t, r, s, b - 1) +
            if t(b - 1)[0] in HostSet(reqs) then PushLen(r, DirOf(s, t(b - 1)[0]), b - 1) else 0
  {
    hide PushLen, HostLen, HostChunks, HostSet, HostsDiffer, Range.First, Range.Last;
    if reqs != [] {
      var n := |reqs| - 1;
      HostSetSnoc(reqs, n);
      ChunkAddsLen(reqs[..n], t, r, s, b);
      HostLenNext(t, reqs[n].host, r, DirOf(s, reqs[n].host), b);
    } else {
      NoHosts(reqs);
    }
  }

  /** What the hosts picked have of the chunks below `b`, each of its own. */
  ghost function PickedLen(r: Range, s: Store, picks: seq<nat>, b: nat): nat
    requires r.Valid() && |picks| == Count(r) && b <= r.Last() + 1
  {
    if b <= r.First() then 0
    else PickedLen(r, s, picks, b - 1) + PushLen(r, DirOf(s, picks[b - 1 - r.First()]), b - 1)
  }

  lemma {:induction false} NothingYet(reqs: seq<Request>, t: Targets, r: Range, s: Store)
    requires r.Valid()
    ensures SumLen(reqs, t, r, s, r.First()) == 0
  {
    hide Range.First;
    if reqs != [] {
      NothingYet(reqs[..|reqs| - 1], t, r, s);
      assert HostChunks(t, reqs[|reqs| - 1].host, r.First(), r.First()) == [];
    }
  }

  lemma {:induction false} SumLenIsPicked(reqs: seq<Request>, picks: seq<nat>, r: Range, s: Store, b: nat)
    requires r.Valid() && |picks| == Count(r) && r.First() <= b <= r.Last() + 1
    requires Dispatched(reqs, ReadTargets(picks, r.First()), r, true)
    ensures SumLen(reqs, ReadTargets(picks, r.First()), r, s, b) == PickedLen(r, s, picks, b)
  {
    hide Dispatched, PushLen, SumLen, HostSet, Elements, Range.First, Range.Last;
    var t := ReadTargets(picks, r.First());
    if r.First() < b {
      SumLenIsPicked(reqs, picks, r, s, b - 1);
      EveryTargetAsked(reqs, t, r, b - 1, true);
      ChunkAddsLen(reqs, t, r, s, b);
      assert t(b - 1) == [picks[b - 1 - r.First()]];
      InElements(t(b - 1), HostSet(reqs));
    } else {
      NothingYet(reqs, t, r, s);
    }
  }

  lemma InElements(one: seq<nat>, hosts: set<nat>)
    requires |one| == 1 && hosts * Elements(one) == Elements(one)
    ensures one[0] in hosts
  {
    assert one[0] in Elements(one);
  }

  lemma {:induction false} SumIoIsSumLen(reqs: seq<Request>, replies: seq<Reply>, t: Targets, r: Range, s: Store)
    requires r.Valid() && |replies| == |reqs|
    requires forall i | 0 <= i < |reqs| ::
               var chunks := HostChunks(t, reqs[i].host, r.First(), r.Last() + 1);
               replies[i].Answer? && replies[i].ioSize == HostLen(r, DirOf(s, reqs[i].host), chunks)
    ensures SumIo(replies) == SumLen(reqs, t, r, s, r.Last() + 1)
  {
    hide HostLen, HostChunks, Range.First, Range.Last;
    if reqs != [] {
      SumIoIsSumLen(reqs[..|reqs| - 1], replies[..|reqs| - 1], t, r, s);
    }
  }

  // ---------------------------------------------------------------- position by position

  /** The host picked for the chunk of position `pos` has stored it. */
  ghost predicate StoredHere(s: Store, r: Range, picks: seq<nat>, pos: nat)
    requires r.Valid() && |picks| == Count(r) && r.offset <= pos < r.End()
  {
    var c := pos / CHUNK;
    pos % CHUNK < |FileOf(DirOf(s, picks[c - r.First()]), c)|
  }

  /** How many of the first `n` positions of the range are stored where they are read from. */
  ghost function CountStored(s: Store, r: Range, picks: seq<nat>, n: nat): nat
    requires r.Valid() && |picks| == Count(r) && n <= r.size
  {
    if n == 0 then 0
    else CountStored(s, r, picks, n - 1) + if StoredHere(s, r, picks, r.offset + n - 1) then 1 else 0
  }

  lemma StoredInChunk(s: Store, r: Range, picks: seq<nat>, c: nat, pos: nat)
    requires r.Valid() && |picks| == Count(r) && r.Touches(c) && r.Lo(c) <= pos < r.Hi(c)
    ensures r.offset <= pos < r.End() && 0 <= c - r.First() < |picks|
    ensures StoredHere(s, r, picks, pos) <==>
            pos < r.Lo(c) + PushLen(r, DirOf(s, picks[c - r.First()]), c)
  {
    ChunkPiece(r, c);
    InChunkOf(c, pos);
  }

  lemma InChunkOf(c: nat, pos: nat)
    requires c * CHUNK <= pos < (c + 1) * CHUNK
    ensures pos / CHUNK == c && pos % CHUNK == pos - c * CHUNK
  {
  }

  lemma CoveredIs(r: Range, c: nat)
    requires r.Valid() && r.Touches(c)
    ensures Covered(r, c) == r.Lo(c) - r.offset && Covered(r, c + 1) == r.Hi(c) - r.offset
    ensures 0 <= Covered(r, c) && Covered(r, c + 1) <= r.size && r.Hi(c) == r.Lo(c) + r.Len(c)
  {
    RangeBounds(r);
    ChunkPiece(r, c);
  }

  /** In one chunk, the positions stored are the first of its piece. */
  lemma {:induction false} PieceCount(s: Store, r: Range, picks: seq<nat>, c: nat, m: nat)
    requires r.Valid() && |picks| == Count(r) && r.Touches(c) && m <= r.Len(c)
    ensures 0 <= c - r.First() < |picks| && r.offset <= r.Lo(c) && r.Lo(c) + m <= r.End()
    ensures var from, len := r.Lo(c) - r.offset, PushLen(r, DirOf(s, picks[c - r.First()]), c);
            CountStored(s, r, picks, from + m) == CountStored(s, r, picks, from) + if m < len then m else len
    decreases m
  {
    hide PushLen, StoredHere, Covered, Range.First, Range.Last, Range.Lo, Range.Hi, Range.Len;
    ChunkPiece(r, c);
    CoveredIs(r, c);
    if m > 0 {
      PieceCount(s, r, picks, c, m - 1);
      StoredInChunk(s, r, picks, c, r.Lo(c) + m - 1);
    }
  }

  lemma PushWithin(r: Range, d: Dir, c: nat)
    requires r.Valid() && r.Touches(c)
    ensures PushLen(r, d, c) <= r.Len(c)
  {
    ChunkPiece(r, c);
  }

  lemma {:induction false} PickedIsCount(s: Store, r: Range, picks: seq<nat>, b: nat)
    requires r.Valid() && |picks| == Count(r) && r.First() <= b <= r.Last() + 1
    ensures 0 <= Covered(r, b) <= r.size
    ensures PickedLen(r, s, picks, b) == CountStored(s, r, picks, Covered(r, b))
  {
    hide PushLen, CountStored, Range.First, Range.Last, Range.Lo, Range.Hi, Range.Len;
    if r.First() < b {
      var c := b - 1;
      PickedIsCount(s, r, picks, c);
      CoveredIs(r, c);
      PushWithin(r, DirOf(s, picks[c - r.First()]), c);
      hide Covered;
      PieceCount(s, r, picks, c, r.Len(c));
    } else {
      NothingCounted(s, r, picks);
    }
  }

  lemma NothingCounted(s: Store, r: Range, picks: seq<nat>)
    requires r.Valid() && |picks| == Count(r)
    ensures CountStored(s, r, picks, 0) == 0
  {
  }

  /** The sizes the hosts report add up to the positions stored where they are read from. */
  lemma SizeIsCount(reqs: seq<Request>, replies: seq<Reply>, picks: seq<nat>, r: Range, s: Store)
    requires r.Valid() && |picks| == Count(r) && |replies| == |reqs|
    requires Dispatched(reqs, ReadTargets(picks, r.First()), r, true)
    requires forall i | 0 <= i < |reqs| ::
               var chunks := ChunksOf(ReadTargets(picks, r.First()), r, reqs[i].host);
               && AllTouch(r, chunks) && replies[i].Answer?
               && replies[i].ioSize == Stored(r, DirOf(s, reqs[i].host), chunks)
    ensures SumIo(replies) == CountStored(s, r, picks, r.size)
  {
    hide Dispatched, HostLen, Stored, HostChunks, ReadTargets, SumIo, CountStored, Range.First, Range.Last;
    var t := ReadTargets(picks, r.First());
    forall i | 0 <= i < |reqs|
      ensures var chunks := HostChunks(t, reqs[i].host, r.First(), r.Last() + 1);
              replies[i].Answer? && replies[i].ioSize == HostLen(r, DirOf(s, reqs[i].host), chunks)
    {
      HostLenIsStored(r, DirOf(s, reqs[i].host), ChunksOf(t, r, reqs[i].host));
    }
    RangeBounds(r);
    SumIoIsSumLen(reqs, replies, t, r, s);
    SumLenIsPicked(reqs, picks, r, s, r.Last() + 1);
    PickedIsCount(s, r, picks, r.Last() + 1);
    CoveredIs(r, r.Last());
    LastHi(r);
  }

  lemma LastHi(r: Range)
    requires r.Valid()
    ensures r.Touches(r.Last()) && r.Hi(r.Last()) == r.End()
  {
    RangeBounds(r);
  }

  /** How much of the range lies below `n`. */
  function Below(r: Range, n: nat): nat {
    if n <= r.offset then 0 else if n < r.End() then n - r.offset else r.size
  }

  /** Where exactly the positions below `n` are stored, those are counted. */
  lemma {:induction false} CountBelow(s: Store, r: Range, picks: seq<nat>, n: nat, k: nat)
    requires r.Valid() && |picks| == Count(r) && k <= r.size
    requires forall pos: nat | r.offset <= pos < r.End() :: StoredHere(s, r, picks, pos) <==> pos < n
    ensures CountStored(s, r, picks, k) == if Below(r, n) < k then Below(r, n) else k
    decreases k
  {
    hide StoredHere;
    if k > 0 {
      CountBelow(s, r, picks, n, k - 1);
    }
  }
}
