/** The daemon's side of a data transfer: which slice of the client's buffer belongs to which
    part of which chunk file (src/daemon/handler/srv_data.cpp). */
module Daemon {
  import opened Arithmetic
  import opened Wire
  import opened Chunks
  import opened Planning

  /** One bulk transfer with its disk access: `size` bytes at `origin` of the client's buffer
      and at `local` of the daemon's, which the tasklet finds at `ptr` and reads or writes at
      offset `at` of the chunk file. */
  datatype Piece = Piece(chunk: nat, origin: int, local: int, ptr: int, size: int, at: int)

  /** The piece of the range in chunk `c`, when `before` are the chunks the host has handled. */
  function PieceOf(r: Range, before: seq<nat>, c: nat): Piece {
    Piece(c, r.Lo(c) - r.offset, Bytes(r, before), Bytes(r, before), r.Len(c), r.Lo(c) - c * CHUNK)
  }

  function PiecesOf(r: Range, chunks: seq<nat>): seq<Piece> {
    if chunks == [] then []
    else
      var n := |chunks| - 1;
      PiecesOf(r, chunks[..n]) + [PieceOf(r, chunks[..n], chunks[n])]
  }

  lemma PiecesSnoc(r: Range, chunks: seq<nat>, c: nat)
    ensures PiecesOf(r, chunks + [c]) == PiecesOf(r, chunks) + [PieceOf(r, chunks, c)]
  {
    assert (chunks + [c])[..|chunks|] == chunks;
  }

  // ---------------------------------------------------------------- reading the request

  /** With no more chunks than positions, the bits a daemon decodes are its chunk list. */
  lemma BitsAreExact(vector: seq<byte>, chunks: seq<nat>, r: Range, c: nat, wide: bool)
    requires r.Valid() && r.Touches(c) && Count(r) <= UINT16
    requires BitsOf(vector, chunks, r, wide) && forall x | x in chunks :: r.Touches(x)
    ensures vector <= Decoded(Encoded(vector))
    ensures (c - r.First()) % UINT16 / 8 < |vector|
    ensures GetBitset(Decoded(Encoded(vector)), c - r.First()) <==> c in chunks
  {
    hide GetBit, Decoded, Encoded, Range.First, Range.Last;
    var q := c - r.First();
    PositionFits(r, q);
    SmallRemainder(q, UINT16);
    BitsSurviveTheWire(vector, q);
    if Marked(chunks, r.First(), q, wide) {
      var x :| x in chunks && Position(x - r.First(), wide) == q;
      SmallRemainder(x - r.First(), UINT16);
    }
    if c in chunks {
      assert Position(c - r.First(), wide) == q;
    }
  }

  /** What a daemon reads out of a request. */
  ghost predicate Sees(q: Request, c: nat) {
    && q.chunkStart <= c && (c - q.chunkStart) % UINT16 / 8 < |Decoded(q.bitset)|
    && GetBitset(Decoded(q.bitset), c - q.chunkStart)
  }

  /** `q` is the request for a host whose chunks under `t` it describes. */
  ghost predicate RequestFor(q: Request, t: Targets, r: Range, wide: bool)
    requires r.Valid()
  {
    Describes(q, r, ChunksOf(t, r, q.host), wide)
  }

  lemma SeesExactly(q: Request, t: Targets, r: Range, c: nat, wide: bool)
    requires r.Valid() && RequestFor(q, t, r, wide) && r.Touches(c) && Count(r) <= UINT16
    ensures (c - q.chunkStart) % UINT16 / 8 < |Decoded(q.bitset)|
    ensures Sees(q, c) <==> c in ChunksOf(t, r, q.host)
  {
    hide HostChunks, BitsOf, Range.First, Range.Last, Discounted, GetBitset, Decoded, Encoded;
    var chunks := ChunksOf(t, r, q.host);
    var vector :| BitsOf(vector, chunks, r, wide) && q.bitset == Encoded(vector);
    HostChunksInRange(t, q.host, r);
    BitsAreExact(vector, chunks, r, c, wide);
  }

  /** A distributor that puts one chunk on host 0 and all others on host 1. */
  function Lone(lone: nat): (nat, nat) -> nat {
    (c: nat, k: nat) => if c == lone then 0 else 1
  }

  lemma {:induction false} LoneChunks(lone: nat, a: nat, b: nat)
    ensures HostChunks(WriteTargets(Lone(lone), 0), 0, a, b) == if a <= lone < b then [lone] else []
  {
    hide Echo;
    if a < b {
      LoneChunks(lone, a, b - 1);
      var hosts := WriteTargets(Lone(lone), 0)(b - 1);
      assert hosts == [if b - 1 == lone then 0 else 1];
      EchoOnce(hosts, 0, b - 1);
    }
  }

  /** The request the client builds for host 0 when it holds the chunk `lone` only. */
  lemma LoneRequest(r: Range, lone: nat, wide: bool) returns (q: Request)
    requires r.Valid() && r.Touches(lone)
    ensures q.host == 0 && RequestFor(q, WriteTargets(Lone(lone), 0), r, wide)
    ensures ChunksOf(WriteTargets(Lone(lone), 0), r, 0) == [lone]
    ensures var p := Position(lone - r.First(), wide);
            var zeros := Zeros((Count(r) + 7) / 8);
            0 <= p && p / 8 < |zeros| && q.chunkStart == r.First() && q.bitset == Encoded(SetBit(zeros, p))
  {
    hide HostChunks, BitsOf, SetBit, Encoded, Discounted, Range.First, Range.Last;
    LoneChunks(lone, r.First(), r.Last() + 1);
    RangeBounds(r);
    ZeroBits(r, wide);
    var zeros := Zeros((Count(r) + 7) / 8);
    BitsOfStep(zeros, [], lone, r, wide);
    assert [] + [lone] == [lone];
    var vector := SetBit(zeros, Position(lone - r.First(), wide));
    q := Request(0, r.offset - r.First() * CHUNK, Encoded(vector), 1, r.First(), r.Last(), Discounted(r, [lone]));
    assert BitsOf(vector, [lone], r, wide);
  }

  /** With one chunk more than positions a daemon is misled: on a write it sees chunk 65536 of the
      request though it was handed the first one only, on a read it does not see the one chunk it
      was handed. */
  lemma MisledBeyond16Bits(r: Range, wide: bool) returns (q: Request, t: Targets)
    requires r.Valid() && Count(r) > UINT16
    ensures RequestFor(q, t, r, wide) && r.Touches(r.First() + UINT16)
    ensures Sees(q, r.First() + UINT16) <==> !wide
    ensures r.First() + UINT16 in ChunksOf(t, r, q.host) <==> wide
  {
    hide GetBit, SetBit, Decoded, Encoded, RequestFor, Range.First, Range.Last;
    var lone := if wide then r.First() + UINT16 else r.First();
    t := WriteTargets(Lone(lone), 0);
    q := LoneRequest(r, lone, wide);
    var zeros := Zeros((Count(r) + 7) / 8);
    var p := Position(lone - r.First(), wide);
    PositionFits(r, UINT16);
    BitsSurviveTheWire(SetBit(zeros, p), UINT16);
    SetBitThenGet(zeros, p, 0);
    NoBit(|zeros|, 0);
  }

  lemma NoBit(n: nat, q: nat)
    requires q / 8 < n
    ensures !GetBit(Zeros(n), q)
  {
  }

  /** Every daemon sees exactly its chunks, whatever the distribution, if and only if the request
      has no more chunks than 16-bit positions. */
  lemma SeenExactlyIff(r: Range, wide: bool)
    requires r.Valid()
    ensures (forall q: Request, t: Targets, c: nat | RequestFor(q, t, r, wide) && r.Touches(c) ::
               Sees(q, c) <==> c in ChunksOf(t, r, q.host)) <==> Count(r) <= UINT16
  {
    hide Sees, RequestFor, ChunksOf;
    if Count(r) <= UINT16 {
      forall q: Request, t: Targets, c: nat | RequestFor(q, t, r, wide) && r.Touches(c)
        ensures Sees(q, c) <==> c in ChunksOf(t, r, q.host)
      {
        SeesExactly(q, t, r, c, wide);
      }
    } else {
      var q, t := MisledBeyond16Bits(r, wide);
    }
  }

  // ---------------------------------------------------------------- the arithmetic of one piece

  lemma FirstPiece(r: Range, c: nat)
    requires r.Valid() && c == r.First() && r.offset > r.First() * CHUNK
    ensures var over := r.offset - r.First() * CHUNK;
            && r.Lo(c) == r.offset
            && r.Len(c) == if over + r.size <= CHUNK then r.size else CHUNK - over
  {
    RangeBounds(r);
  }

  lemma LaterPiece(r: Range, c: nat)
    requires r.Valid() && r.Touches(c) && !(c == r.First() && r.offset > r.First() * CHUNK)
    ensures var over := r.offset - r.First() * CHUNK;
            r.Lo(c) - r.offset == if over > 0 then (CHUNK - over) + (c - r.First() - 1) * CHUNK
                                  else (c - r.First()) * CHUNK
    ensures r.Lo(c) == c * CHUNK
    ensures c < r.Last() ==> r.Len(c) == CHUNK && r.size > CHUNK
  {
    RangeBounds(r);
  }

  // ---------------------------------------------------------------- the host's chunks, once each

  /** The chunks from `a` up to but not including `b` that are sent to host `h`, each once. */
  function Seen(t: Targets, h: nat, a: nat, b: nat): seq<nat> {
    if b <= a then [] else Seen(t, h, a, b - 1) + if h in t(b - 1) then [b - 1] else []
  }

  lemma {:induction false} SeenMembers(t: Targets, h: nat, a: nat, b: nat, c: nat)
    ensures c in Seen(t, h, a, b) <==> a <= c < b && h in t(c)
  {
    if a < b {
      SeenMembers(t, h, a, b - 1, c);
    }
  }

  lemma {:induction false} SeenPrefix(t: Targets, h: nat, a: nat, b: nat, b': nat)
    requires b <= b'
    ensures Seen(t, h, a, b) <= Seen(t, h, a, b')
  {
    if b < b' {
      SeenPrefix(t, h, a, b, b' - 1);
    }
  }

  lemma {:induction false} SeenOnce(t: Targets, h: nat, a: nat, b: nat)
    ensures NoDup(Seen(t, h, a, b))
  {
    if a < b {
      var l := Seen(t, h, a, b - 1);
      SeenOnce(t, h, a, b - 1);
      SeenMembers(t, h, a, b - 1, b - 1);
      assert l + [] == l;
      assert (l + [b - 1])[..|l|] == l;
      NoDupSnoc(l + [b - 1], |l|);
    }
  }

  lemma {:induction false} EchoLength(hosts: seq<nat>, h: nat, c: nat)
    ensures h !in hosts ==> Echo(hosts, h, c) == []
    ensures h in hosts ==> |Echo(hosts, h, c)| >= 1 && Echo(hosts, h, c)[0] == c
    ensures |Echo(hosts, h, c)| >= 2 ==> Echo(hosts, h, c)[1] == c
  {
    if hosts != [] {
      var n := |hosts| - 1;
      assert hosts == hosts[..n] + [hosts[n]];
      EchoLength(hosts[..n], h, c);
    }
  }

  lemma NoDupParts(l: seq<nat>, tail: seq<nat>)
    requires NoDup(l + tail) && (|tail| >= 2 ==> tail[0] == tail[1])
    ensures NoDup(l) && |tail| <= 1
  {
    assert forall i | 0 <= i < |l| :: (l + tail)[i] == l[i];
    assert forall i | 0 <= i < |tail| :: (l + tail)[|l| + i] == tail[i];
  }

  /** The list of a host is as long as its chunks exactly when none is listed twice, and is then
      the same. */
  lemma {:induction false} SeenAgainstListed(t: Targets, h: nat, a: nat, b: nat)
    ensures |Seen(t, h, a, b)| <= |HostChunks(t, h, a, b)|
    ensures |Seen(t, h, a, b)| == |HostChunks(t, h, a, b)| ==> Seen(t, h, a, b) == HostChunks(t, h, a, b)
    ensures NoDup(HostChunks(t, h, a, b)) ==> |Seen(t, h, a, b)| == |HostChunks(t, h, a, b)|
  {
    hide Echo;
    if a < b {
      var l, tail := HostChunks(t, h, a, b - 1), Echo(t(b - 1), h, b - 1);
      SeenAgainstListed(t, h, a, b - 1);
      EchoLength(t(b - 1), h, b - 1);
      if NoDup(l + tail) {
        NoDupParts(l, tail);
      }
      if |tail| == 1 {
        assert tail == [b - 1];
      }
    }
  }

  /** The host's own chunks of the range. */
  function Own(t: Targets, r: Range, h: nat): seq<nat>
    requires r.Valid()
  {
    Seen(t, h, r.First(), r.Last() + 1)
  }

  lemma OwnIsListed(t: Targets, r: Range, h: nat)
    requires r.Valid()
    ensures |Own(t, r, h)| <= |ChunksOf(t, r, h)|
    ensures NoDup(ChunksOf(t, r, h)) <==> |Own(t, r, h)| == |ChunksOf(t, r, h)|
    ensures NoDup(ChunksOf(t, r, h)) ==> Own(t, r, h) == ChunksOf(t, r, h)
  {
    hide Range.First, Range.Last;
    SeenAgainstListed(t, h, r.First(), r.Last() + 1);
    SeenOnce(t, h, r.First(), r.Last() + 1);
  }

  /** The total a host is sent: its bytes, and a whole chunk for every repetition. */
  lemma TotalOf(q: Request, t: Targets, r: Range, wide: bool)
    requires r.Valid() && RequestFor(q, t, r, wide)
    ensures var own, listed := Own(t, r, q.host), ChunksOf(t, r, q.host);
            q.total == Bytes(r, own) + (|listed| - |own|) * CHUNK
  {
    hide HostChunks, Seen, Bytes, BitsOf, Range.First, Range.Last;
    var own, listed := Own(t, r, q.host), ChunksOf(t, r, q.host);
    SeenOnce(t, q.host, r.First(), r.Last() + 1);
    forall c: nat
      ensures c in own <==> c in listed
      ensures c in own ==> r.Touches(c)
    {
      SeenMembers(t, q.host, r.First(), r.Last() + 1, c);
      HostChunksMembers(t, q.host, r.First(), r.Last() + 1, c);
    }
    DiscountedExact(r, own);
    HeldIsBytes(r, own);
  }

  // ---------------------------------------------------------------- the loop

  /** A request as a daemon gets it: it describes the chunks of its host, and has no more chunks
      than positions. */
  ghost predicate Sound(q: Request, t: Targets, r: Range)
    requires r.Valid()
  {
    Count(r) <= UINT16 && (RequestFor(q, t, r, false) || RequestFor(q, t, r, true))
  }

  lemma SoundTotal(q: Request, t: Targets, r: Range)
    requires r.Valid() && Sound(q, t, r)
    ensures var own, listed := Own(t, r, q.host), ChunksOf(t, r, q.host);
            q.total == Bytes(r, own) + (|listed| - |own|) * CHUNK
    ensures q.chunkStart == r.First() && q.chunkEnd == r.Last() && q.chunkCount == |ChunksOf(t, r, q.host)|
    ensures q.overrun == r.offset - r.First() * CHUNK
  {
    hide Discounted, Bytes, HostChunks, Own, BitsOf, Range.First, Range.Last;
    TotalOf(q, t, r, RequestFor(q, t, r, true));
  }

  lemma DecodedBit(q: Request, t: Targets, r: Range, c: nat)
    requires r.Valid() && Sound(q, t, r) && r.Touches(c)
    ensures q.chunkStart == r.First()
    ensures (c - r.First()) % UINT16 / 8 < |Decoded(q.bitset)|
    ensures GetBitset(Decoded(q.bitset), c - r.First()) <==> q.host in t(c)
  {
    hide HostChunks, BitsOf, Range.First, Range.Last, Discounted, GetBitset, Decoded, Encoded;
    SeesExactly(q, t, r, c, RequestFor(q, t, r, true));
    HostChunksMembers(t, q.host, r.First(), r.Last() + 1, c);
  }

  /** The pieces with the last one taking `excess` bytes too many. */
  function Grown(pieces: seq<Piece>, excess: int): seq<Piece> {
    if excess == 0 || pieces == [] then pieces
    else
      var n := |pieces| - 1;
      pieces[..n] + [pieces[n].(size := pieces[n].size + excess)]
  }

  /** What the last piece of a host takes too much. A host that is listed twice for a chunk never
      counts up to its last piece, and so does not shorten it: it asks for as much as any other. */
  function Excess(t: Targets, r: Range, h: nat): int
    requires r.Valid()
  {
    if |Own(t, r, h)| < |ChunksOf(t, r, h)| && r.Last() in Own(t, r, h) && r.First() < r.Last()
    then (if r.size <= CHUNK then r.size else CHUNK) - r.Len(r.Last())
    else 0
  }

  /** Where the loop of the handlers stands before chunk `c`: what is assigned, and the size that
      is left for this host. */
  ghost predicate Standing(q: Request, t: Targets, r: Range, c: nat, pieces: seq<Piece>, ptr: int, left: int,
                           excess: int)
    requires r.Valid()
  {
    var before := Seen(t, q.host, r.First(), c);
    && pieces == Grown(PiecesOf(r, before), excess)
    && ptr == Bytes(r, before) + excess
    && left == q.total - Bytes(r, before) - excess
    && (c <= r.Last() ==> excess == 0)
    && (c > r.Last() ==> excess == Excess(t, r, q.host))
  }

  lemma {:induction false} PiecesCount(r: Range, chunks: seq<nat>)
    ensures |PiecesOf(r, chunks)| == |chunks|
  {
    if chunks != [] {
      PiecesCount(r, chunks[..|chunks| - 1]);
    }
  }

  /** The host's next chunk: how many are left, and what is left for it. */
  lemma NextOwn(q: Request, t: Targets, r: Range, c: nat)
    requires r.Valid() && Sound(q, t, r) && r.Touches(c) && q.host in t(c)
    ensures var before, own, n := Seen(t, q.host, r.First(), c), Own(t, r, q.host), q.chunkCount;
            && Seen(t, q.host, r.First(), c + 1) == before + [c]
            && |before| < |own| <= n == |ChunksOf(t, r, q.host)|
            && (|before| == n - 1 ==> |own| == n && q.total - Bytes(r, before) == r.Len(c))
            && (|own| == n && |before| < n - 1 ==> c < r.Last())
            && (c == r.Last() ==> c in own)
  {
    hide HostChunks, Bytes, BitsOf, Describes, Range.First, Range.Last, Range.Len;
    var before, own := Seen(t, q.host, r.First(), c), Own(t, r, q.host);
    assert Seen(t, q.host, r.First(), c + 1) == before + [c];
    SoundTotal(q, t, r);
    OwnIsListed(t, r, q.host);
    hide Seen, Sound;
    SeenPrefix(t, q.host, r.First(), c + 1, r.Last() + 1);
    BytesSnoc(r, before, c);
    if |before| == q.chunkCount - 1 {
      assert own == before + [c];
    }
    assert own[|before|] == (before + [c])[|before|];
  }

  /** The size the loop gives the piece of chunk `c` beyond what it should. */
  function ExcessAt(t: Targets, r: Range, h: nat, c: nat): int
    requires r.Valid()
  {
    if c == r.Last() then Excess(t, r, h) else 0
  }

  /** A chunk with its piece added: the loop stands before the next one. */
  lemma ServeStep(q: Request, t: Targets, r: Range, c: nat, pieces: seq<Piece>, ptr: int, left: int, size: int)
    requires r.Valid() && r.Touches(c) && q.host in t(c)
    requires Standing(q, t, r, c, pieces, ptr, left, 0)
    requires size == r.Len(c) + ExcessAt(t, r, q.host, c)
    ensures var piece := PieceOf(r, Seen(t, q.host, r.First(), c), c).(size := size);
            && piece.local == piece.ptr == ptr
            && Standing(q, t, r, c + 1, pieces + [piece], ptr + size, left - size, size - r.Len(c))
  {
    hide Bytes, Excess, Range.First, Range.Last, Range.Len, PiecesOf;
    var before := Seen(t, q.host, r.First(), c);
    assert Seen(t, q.host, r.First(), c + 1) == before + [c];
    hide Seen;
    PiecesSnoc(r, before, c);
    BytesSnoc(r, before, c);
    GrownSnoc(PiecesOf(r, before), PieceOf(r, before, c), size - r.Len(c));
  }

  lemma GrownSnoc(pieces: seq<Piece>, p: Piece, excess: int)
    ensures Grown(pieces + [p], excess) == pieces + [p.(size := p.size + excess)]
    ensures Grown(pieces, 0) == pieces
  {
    assert (pieces + [p])[..|pieces|] == pieces;
  }

  lemma SkipStep(q: Request, t: Targets, r: Range, c: nat, pieces: seq<Piece>, ptr: int, left: int)
    requires r.Valid() && r.Touches(c) && q.host !in t(c)
    requires Standing(q, t, r, c, pieces, ptr, left, 0)
    ensures Standing(q, t, r, c + 1, pieces, ptr, left, 0)
  {
    if c == r.Last() {
      SeenMembers(t, q.host, r.First(), r.Last() + 1, c);
    }
    hide Bytes, Range.First, Range.Last, PiecesOf, ChunksOf;
    var before := Seen(t, q.host, r.First(), c);
    assert Seen(t, q.host, r.First(), c + 1) == before + [];
    assert before + [] == before;
  }

  lemma ServeStart(q: Request, t: Targets, r: Range)
    requires r.Valid()
    ensures Standing(q, t, r, r.First(), [], 0, q.total, 0)
  {
    RangeBounds(r);
  }

  /** When the loop stops, at the end of the range or for having seen enough chunks, all chunks
      of the host have been seen. */
  lemma ServeEnd(q: Request, t: Targets, r: Range, c: nat, pieces: seq<Piece>, ptr: int, left: int, excess: int)
    requires r.Valid() && Sound(q, t, r) && r.First() <= c <= r.Last() + 1
    requires Standing(q, t, r, c, pieces, ptr, left, excess)
    requires c == r.Last() + 1 || |pieces| >= q.chunkCount
    ensures var own, listed, over := Own(t, r, q.host), ChunksOf(t, r, q.host), Excess(t, r, q.host);
            && pieces == Grown(PiecesOf(r, own), over)
            && left == (|listed| - |own|) * CHUNK - over
  {
    hide HostChunks, Bytes, Range.First, Range.Last, PiecesOf, Sound;
    SoundTotal(q, t, r);
    OwnIsListed(t, r, q.host);
    SeenPrefix(t, q.host, r.First(), c, r.Last() + 1);
    var before := Seen(t, q.host, r.First(), c);
    PiecesCount(r, before);
    hide Seen, NoDup;
    assert before == Own(t, r, q.host);
  }

  /** Nothing is left exactly when no chunk was listed twice. */
  lemma NothingLeftIff(t: Targets, r: Range, h: nat)
    requires r.Valid()
    ensures 0 <= Excess(t, r, h) < CHUNK
    ensures (|ChunksOf(t, r, h)| - |Own(t, r, h)|) * CHUNK - Excess(t, r, h) >= 0
    ensures (|ChunksOf(t, r, h)| - |Own(t, r, h)|) * CHUNK == Excess(t, r, h) <==> NoDup(ChunksOf(t, r, h))
  {
    OwnIsListed(t, r, h);
    PieceSizes(r, r.Last());
    RangeBounds(r);
    hide Own, ChunksOf, NoDup, Range.First, Range.Last, Range.Len;
  }

  /** The loop of `rpc_srv_write` and `rpc_srv_read` that finds the chunks meant for this host
      and computes sizes and offsets. `bulkSize` is the size of the client's buffer. Every chunk
      of the host gets its piece; a host that is listed twice for a chunk is left with bytes it
      does not find. */
  method ServePieces(q: Request, bulkSize: nat, ghost t: Targets, ghost r: Range)
    returns (pieces: seq<Piece>, left: int)
    requires r.Valid() && Sound(q, t, r) && bulkSize == r.size
    ensures pieces == Grown(PiecesOf(r, Own(t, r, q.host)), Excess(t, r, q.host))
    ensures left >= 0 && (left == 0 <==> NoDup(ChunksOf(t, r, q.host)))
  {
    hide Standing, Sound, GetBitset, Decoded, PiecesOf, Bytes, HostChunks, Seen, NoDup, Grown;
    hide Range.First, Range.Last, Range.Len, Range.Lo;
    SoundTotal(q, t, r);
    RangeBounds(r);
    var vector := Base64Decode(q.bitset);
    var ptr := 0;
    pieces, left := [], q.total;
    ghost var excess := 0;
    var transferSize: int := if bulkSize <= CHUNK then bulkSize else CHUNK;
    ServeStart(q, t, r);
    var c := q.chunkStart;
    while c <= q.chunkEnd && |pieces| < q.chunkCount
      invariant r.First() <= c <= r.Last() + 1
      invariant Standing(q, t, r, c, pieces, ptr, left, excess)
      invariant c <= r.Last() ==> excess == 0
      invariant |pieces| < q.chunkCount ==> transferSize == if bulkSize <= CHUNK then bulkSize else CHUNK
      decreases q.chunkEnd + 1 - c
    {
      DecodedBit(q, t, r, c);
      if GetBitset(vector, c - q.chunkStart) {
        var at := if c == q.chunkStart then q.overrun else 0;
        NextOwn(q, t, r, c);
        ServingCount(q, t, r, c, pieces, ptr, left);
        if c == q.chunkStart && q.overrun > 0 {
          FirstPiece(r, c);
          var size := if q.overrun + bulkSize <= CHUNK then bulkSize else CHUNK - q.overrun;
          ServeStep(q, t, r, c, pieces, ptr, left, size);
          pieces := pieces + [Piece(c, 0, 0, ptr, size, at)];
          ptr := ptr + size;
          left := left - size;
        } else {
          LaterPiece(r, c);
          var origin := if q.overrun > 0 then (CHUNK - q.overrun) + (c - q.chunkStart - 1) * CHUNK
                        else (c - q.chunkStart) * CHUNK;
          if |pieces| == q.chunkCount - 1 {
            transferSize := left;
          }
          if c == r.First() == r.Last() {
            OnlyChunk(r, c);
          }
          ServeStep(q, t, r, c, pieces, ptr, left, transferSize);
          pieces := pieces + [Piece(c, origin, q.total - left, ptr, transferSize, at)];
          ptr := ptr + transferSize;
          left := left - transferSize;
          excess := transferSize - r.Len(c);
        }
      } else {
        SkipStep(q, t, r, c, pieces, ptr, left);
      }
      c := c + 1;
    }
    ServeEnd(q, t, r, c, pieces, ptr, left, excess);
    NothingLeftIff(t, r, q.host);
  }

  /** A request of one chunk that starts at the chunk's start. */
  lemma OnlyChunk(r: Range, c: nat)
    requires r.Valid() && c == r.First() == r.Last()
    ensures r.offset == c * CHUNK ==> r.Len(c) == r.size && r.size <= CHUNK
  {
    RangeBounds(r);
  }

  lemma ServingCount(q: Request, t: Targets, r: Range, c: nat, pieces: seq<Piece>, ptr: int, left: int)
    requires r.Valid() && Standing(q, t, r, c, pieces, ptr, left, 0)
    ensures var before := Seen(t, q.host, r.First(), c);
            |pieces| == |before| && ptr == Bytes(r, before) && left == q.total - ptr
    ensures c == r.First() ==> ptr == 0
  {
    PiecesCount(r, Seen(t, q.host, r.First(), c));
  }

  lemma PieceSizes(r: Range, c: nat)
    requires r.Valid() && r.Touches(c)
    ensures 0 < r.Len(c) <= CHUNK && r.Len(c) <= r.size
  {
    ChunkPiece(r, c);
  }
}
