/** The client's side of a data transfer: which host gets which chunks of a byte range, and
    what each of them is told (src/client/rpc/forward_data.cpp). */
module Planning {
  import opened Arithmetic
  import opened Wire
  import opened Chunks

  /** What one host is sent. `bitset` is the base64 text of its chunk bits. */
  datatype Request = Request(
    host: nat, overrun: nat, bitset: string, chunkCount: nat, chunkStart: nat, chunkEnd: nat, total: int)

  /** The containers filled by the planning loops: `target_chnks`, `targets`, the bit vectors,
      and the hosts of the first and the last chunk. */
  datatype Plan = Plan(
    chunks: map<nat, seq<nat>>, targets: seq<nat>, bits: map<nat, seq<byte>>,
    starts: set<nat>, ends: set<nat>)

  const EMPTY := Plan(map[], [], map[], {}, {})

  /** Chunks of the range, `chnk_total`. */
  function Count(r: Range): nat
    requires r.Valid()
  {
    RangeBounds(r);
    r.Last() - r.First() + 1
  }

  function Zeros(n: nat): (z: seq<byte>)
    ensures |z| == n
  {
    seq(n, i => 0)
  }

  /** Where the bit of the `q`-th chunk goes: `forward_write` calls `set_bitset` with its 16-bit
      position, `forward_read` sets the bit itself. */
  function Position(q: int, wide: bool): int {
    if wide then q else q % UINT16
  }

  /** The loops' body: chunk `c` goes to host `h`. */
  function Add(p: Plan, h: nat, c: nat, r: Range, wide: bool): Plan
    requires r.Valid() && r.Touches(c)
    requires h in p.bits ==> |p.bits[h]| == (Count(r) + 7) / 8
  {
    var vector := if h in p.bits then p.bits[h] else Zeros((Count(r) + 7) / 8);
    PositionFits(r, c - r.First());
    Plan(
      if h in p.chunks then p.chunks[h := p.chunks[h] + [c]] else p.chunks[h := [c]],
      if h in p.chunks then p.targets else p.targets + [h],
      p.bits[h := SetBit(vector, Position(c - r.First(), wide))],
      if c == r.First() then p.starts + {h} else p.starts,
      if c == r.Last() then p.ends + {h} else p.ends)
  }

  // ---------------------------------------------------------------- what a plan must be

  /** The chunks handed to each host so far. */
  type Tally = nat -> seq<nat>

  ghost predicate ListsAgree(p: Plan, a: Tally) {
    forall h: nat :: (h in p.chunks <==> a(h) != []) && (h in p.chunks ==> p.chunks[h] == a(h))
  }

  ghost predicate TargetsAgree(p: Plan) {
    NoDup(p.targets) && forall h: nat :: h in p.targets <==> h in p.chunks
  }

  function FirstIn(chunks: seq<nat>): nat {
    if chunks == [] then 0 else chunks[0]
  }

  /** The targets stand in the order of the first chunk they were handed. */
  ghost predicate OrderAgrees(p: Plan, a: Tally) {
    forall i, j | 0 <= i < j < |p.targets| :: FirstIn(a(p.targets[i])) <= FirstIn(a(p.targets[j]))
  }

  lemma PositionFits(r: Range, q: nat)
    requires r.Valid() && q < Count(r)
    ensures q % UINT16 / 8 < (Count(r) + 7) / 8 && q / 8 < (Count(r) + 7) / 8
  {
  }

  /** Some listed chunk has its bit at position `q`. */
  ghost predicate Marked(chunks: seq<nat>, first: nat, q: nat, wide: bool) {
    exists c :: c in chunks && Position(c - first, wide) == q
  }

  /** The vector has room for every chunk of the range, and its bits are those of the listed ones. */
  ghost predicate BitsOf(vector: seq<byte>, chunks: seq<nat>, r: Range, wide: bool)
    requires r.Valid()
  {
    && |vector| == (Count(r) + 7) / 8
    && forall q: nat | q / 8 < |vector| :: GetBit(vector, q) <==> Marked(chunks, r.First(), q, wide)
  }

  ghost predicate BitsAgree(p: Plan, a: Tally, r: Range, wide: bool)
    requires r.Valid()
  {
    && p.bits.Keys == p.chunks.Keys
    && forall h: nat | h in p.bits :: BitsOf(p.bits[h], a(h), r, wide)
  }

  ghost predicate EndsAgree(p: Plan, a: Tally, r: Range)
    requires r.Valid()
  {
    forall h: nat :: (h in p.starts <==> r.First() in a(h)) && (h in p.ends <==> r.Last() in a(h))
  }

  ghost predicate Agrees(p: Plan, a: Tally, r: Range, wide: bool)
    requires r.Valid()
  {
    ListsAgree(p, a) && TargetsAgree(p) && OrderAgrees(p, a) && BitsAgree(p, a, r, wide) && EndsAgree(p, a, r)
  }

  /** Chunks are handed out in order: none behind `c` has been yet. */
  ghost predicate NoneBehind(a: Tally, c: nat) {
    forall g: nat, x: nat | x in a(g) :: x <= c
  }

  /** `b` is `a` with chunk `c` handed to host `h`. */
  ghost predicate HandedTo(a: Tally, b: Tally, h: nat, c: nat) {
    forall g: nat :: b(g) == if g == h then a(g) + [c] else a(g)
  }

  lemma ListsStep(p: Plan, a: Tally, b: Tally, h: nat, c: nat, r: Range, wide: bool)
    requires r.Valid() && r.Touches(c)
    requires h in p.bits ==> |p.bits[h]| == (Count(r) + 7) / 8
    requires ListsAgree(p, a) && HandedTo(a, b, h, c)
    ensures ListsAgree(Add(p, h, c, r, wide), b)
  {
    hide SetBit;
    var p' := Add(p, h, c, r, wide);
    forall g: nat
      ensures (g in p'.chunks <==> b(g) != []) && (g in p'.chunks ==> p'.chunks[g] == b(g))
    {
      assert b(g) == if g == h then a(g) + [c] else a(g);
    }
  }

  lemma TargetsStep(p: Plan, h: nat, c: nat, r: Range, wide: bool)
    requires r.Valid() && r.Touches(c)
    requires h in p.bits ==> |p.bits[h]| == (Count(r) + 7) / 8
    requires TargetsAgree(p)
    ensures TargetsAgree(Add(p, h, c, r, wide))
  {
    hide SetBit;
  }

  lemma OrderStep(p: Plan, a: Tally, b: Tally, h: nat, c: nat, r: Range, wide: bool)
    requires r.Valid() && r.Touches(c) && NoneBehind(a, c)
    requires h in p.bits ==> |p.bits[h]| == (Count(r) + 7) / 8
    requires ListsAgree(p, a) && TargetsAgree(p) && OrderAgrees(p, a) && HandedTo(a, b, h, c)
    ensures OrderAgrees(Add(p, h, c, r, wide), b)
  {
    hide SetBit;
    var p' := Add(p, h, c, r, wide);
    forall g: nat | g in p.targets
      ensures FirstIn(b(g)) == FirstIn(a(g)) <= c
    {
      assert g in p.chunks && a(g) != [];
      assert a(g)[0] in a(g);
      assert b(g) == if g == h then a(g) + [c] else a(g);
    }
    if h !in p.chunks {
      assert b(h) == a(h) + [c] == [c];
    }
  }

  lemma MarkedSnoc(chunks: seq<nat>, c: nat, first: nat, q: nat, wide: bool)
    ensures Marked(chunks + [c], first, q, wide) <==>
            (Marked(chunks, first, q, wide) || Position(c - first, wide) == q)
  {
    assert c in chunks + [c] && forall x | x in chunks :: x in chunks + [c];
    if Marked(chunks + [c], first, q, wide) {
      var x :| x in chunks + [c] && Position(x - first, wide) == q;
      assert x in chunks || x == c;
    }
  }

  lemma BitsOfStep(vector: seq<byte>, chunks: seq<nat>, c: nat, r: Range, wide: bool)
    requires r.Valid() && r.Touches(c) && BitsOf(vector, chunks, r, wide)
    ensures c - r.First() < Count(r) && 0 <= Position(c - r.First(), wide)
    ensures Position(c - r.First(), wide) / 8 < |vector|
    ensures BitsOf(SetBit(vector, Position(c - r.First(), wide)), chunks + [c], r, wide)
  {
    PositionFits(r, c - r.First());
    var p := Position(c - r.First(), wide);
    hide GetBit, SetBit, Marked, Position, Range.First, Range.Last;
    var after := SetBit(vector, p);
    forall q: nat | q / 8 < |after|
      ensures GetBit(after, q) <==> Marked(chunks + [c], r.First(), q, wide)
    {
      SetBitThenGet(vector, p, q);
      MarkedSnoc(chunks, c, r.First(), q, wide);
    }
  }

  lemma ZeroBits(r: Range, wide: bool)
    requires r.Valid()
    ensures BitsOf(Zeros((Count(r) + 7) / 8), [], r, wide)
  {
  }

  lemma BitsStep(p: Plan, a: Tally, b: Tally, h: nat, c: nat, r: Range, wide: bool)
    requires r.Valid() && r.Touches(c)
    requires ListsAgree(p, a) && BitsAgree(p, a, r, wide) && HandedTo(a, b, h, c)
    ensures BitsAgree(Add(p, h, c, r, wide), b, r, wide)
  {
    hide SetBit, BitsOf;
    assert h in p.bits ==> |p.bits[h]| == (Count(r) + 7) / 8 by { BitsLength(p, a, r, h, wide); }
    var p' := Add(p, h, c, r, wide);
    forall g: nat | g in p'.bits
      ensures BitsOf(p'.bits[g], b(g), r, wide)
    {
      if g == h {
        if h !in p.bits { ZeroBits(r, wide); }
        BitsOfStep(if h in p.bits then p.bits[h] else Zeros((Count(r) + 7) / 8), a(h), c, r, wide);
      }
    }
  }

  lemma BitsLength(p: Plan, a: Tally, r: Range, h: nat, wide: bool)
    requires r.Valid() && BitsAgree(p, a, r, wide)
    ensures h in p.bits ==> |p.bits[h]| == (Count(r) + 7) / 8
  {
  }

  lemma EndsStep(p: Plan, a: Tally, b: Tally, h: nat, c: nat, r: Range, wide: bool)
    requires r.Valid() && r.Touches(c)
    requires h in p.bits ==> |p.bits[h]| == (Count(r) + 7) / 8
    requires EndsAgree(p, a, r) && HandedTo(a, b, h, c)
    ensures EndsAgree(Add(p, h, c, r, wide), b, r)
  {
    hide SetBit;
    var p' := Add(p, h, c, r, wide);
    forall g: nat
      ensures (g in p'.starts <==> r.First() in b(g)) && (g in p'.ends <==> r.Last() in b(g))
    {
      assert b(g) == if g == h then a(g) + [c] else a(g);
    }
  }

  /** Handing a chunk to a host keeps the plan in agreement with the tally. */
  lemma AddKeepsAgreement(p: Plan, a: Tally, b: Tally, h: nat, c: nat, r: Range, wide: bool)
    requires r.Valid() && r.Touches(c)
    requires Agrees(p, a, r, wide) && HandedTo(a, b, h, c) && NoneBehind(a, c)
    ensures h in p.bits ==> |p.bits[h]| == (Count(r) + 7) / 8
    ensures Agrees(Add(p, h, c, r, wide), b, r, wide)
  {
    hide Add, ListsAgree, TargetsAgree, OrderAgrees, BitsAgree, EndsAgree, HandedTo, NoneBehind;
    BitsLength(p, a, r, h, wide);
    ListsStep(p, a, b, h, c, r, wide);
    TargetsStep(p, h, c, r, wide);
    OrderStep(p, a, b, h, c, r, wide);
    BitsStep(p, a, b, h, c, r, wide);
    EndsStep(p, a, b, h, c, r, wide);
  }

  // ---------------------------------------------------------------- the planning loops

  /** What each host has been handed after all targets of the chunks below `c` and the first
      `j` targets of chunk `c`. */
  function TallyAt(t: Targets, first: nat, c: nat, j: nat): Tally
    requires j <= |t(c)|
  {
    (h: nat) => HostChunks(t, h, first, c) + Echo(t(c)[..j], h, c)
  }

  lemma TallyStep(t: Targets, first: nat, c: nat, j: nat)
    requires j < |t(c)|
    ensures HandedTo(TallyAt(t, first, c, j), TallyAt(t, first, c, j + 1), t(c)[j], c)
  {
    hide HostChunks;
    var hosts := t(c)[..j + 1];
    assert hosts[..j] == t(c)[..j] && hosts[j] == t(c)[j];
  }

  lemma TallyBehind(t: Targets, first: nat, c: nat, j: nat)
    requires j <= |t(c)|
    ensures NoneBehind(TallyAt(t, first, c, j), c)
  {
    hide HostChunks, Echo;
    forall h: nat, x: nat | x in TallyAt(t, first, c, j)(h)
      ensures x <= c
    {
      HostChunksMembers(t, h, first, c, x);
      EchoMembers(t(c)[..j], h, c, x);
    }
  }

  ghost predicate SameTally(a: Tally, b: Tally) {
    forall h: nat :: a(h) == b(h)
  }

  lemma TallyNext(t: Targets, first: nat, c: nat)
    requires first <= c
    ensures SameTally(TallyAt(t, first, c, |t(c)|), TallyAt(t, first, c + 1, 0))
  {
    assert t(c)[..|t(c)|] == t(c);
  }

  lemma AgreesWithSame(p: Plan, a: Tally, b: Tally, r: Range, wide: bool)
    requires r.Valid() && Agrees(p, a, r, wide) && SameTally(a, b)
    ensures Agrees(p, b, r, wide)
  {
    hide BitsOf;
  }

  lemma NothingPlanned(t: Targets, r: Range, wide: bool)
    requires r.Valid()
    ensures Agrees(EMPTY, TallyAt(t, r.First(), r.First(), 0), r, wide)
  {
    hide BitsOf;
  }

  lemma PlanStep(p: Plan, t: Targets, r: Range, c: nat, j: nat, wide: bool)
    requires r.Valid() && r.Touches(c) && j < |t(c)|
    requires Agrees(p, TallyAt(t, r.First(), c, j), r, wide)
    ensures t(c)[j] in p.bits ==> |p.bits[t(c)[j]]| == (Count(r) + 7) / 8
    ensures Agrees(Add(p, t(c)[j], c, r, wide), TallyAt(t, r.First(), c, j + 1), r, wide)
  {
    hide Agrees, Add, HandedTo, TallyAt, NoneBehind;
    TallyStep(t, r.First(), c, j);
    TallyBehind(t, r.First(), c, j);
    AddKeepsAgreement(p, TallyAt(t, r.First(), c, j), TallyAt(t, r.First(), c, j + 1), t(c)[j], c, r, wide);
  }

  lemma PlanNext(p: Plan, t: Targets, r: Range, c: nat, wide: bool)
    requires r.Valid() && r.Touches(c)
    requires Agrees(p, TallyAt(t, r.First(), c, |t(c)|), r, wide)
    ensures Agrees(p, TallyAt(t, r.First(), c + 1, 0), r, wide)
  {
    hide Agrees, TallyAt, SameTally;
    TallyNext(t, r.First(), c);
    AgreesWithSame(p, TallyAt(t, r.First(), c, |t(c)|), TallyAt(t, r.First(), c + 1, 0), r, wide);
  }

  /** The hosts of the copies that one `forward_write` call writes: the primary when no number
      of replicas is given, the replicas 1 to `copies` otherwise. */
  function CopyHosts(locate: (nat, nat) -> nat, copies: nat, c: nat): seq<nat> {
    if copies == 0 then [locate(c, 0)] else seq(copies, i requires 0 <= i => locate(c, i + 1))
  }

  lemma CopyHostsAt(locate: (nat, nat) -> nat, copies: nat, c: nat)
    ensures var from := if copies == 0 then 0 else 1;
            var hosts := CopyHosts(locate, copies, c);
            |hosts| == copies + 1 - from && forall j: nat | j < |hosts| :: hosts[j] == locate(c, from + j)
  {
  }

  function WriteTargets(locate: (nat, nat) -> nat, copies: nat): Targets {
    (c: nat) => CopyHosts(locate, copies, c)
  }

  /** The planning loops of `forward_write`. */
  method PlanWrite(locate: (nat, nat) -> nat, copies: nat, r: Range) returns (p: Plan)
    requires r.Valid()
    ensures Agrees(p, TallyAt(WriteTargets(locate, copies), r.First(), r.Last() + 1, 0), r, false)
  {
    hide Agrees, Add, TallyAt, BlockIndex, BlockSize, CopyHosts, Range.First, Range.Last;
    ghost var t := WriteTargets(locate, copies);
    ChunkInterval(r);
    var start := BlockIndex(r.offset, CHUNK);
    var end := BlockIndex(r.offset + r.size - 1, CHUNK);
    p := EMPTY;
    NothingPlanned(t, r, false);
    for c := start to end + 1
      invariant Agrees(p, TallyAt(t, start, c, 0), r, false)
    {
      CopyHostsAt(locate, copies, c);
      var from := if copies == 0 then 0 else 1;
      for copy := from to copies + 1
        invariant Agrees(p, TallyAt(t, start, c, copy - from), r, false)
      {
        var target := locate(c, copy);
        PlanStep(p, t, r, c, copy - from, false);
        p := Add(p, target, c, r, false);
      }
      PlanNext(p, t, r, c, false);
    }
  }

  // ---------------------------------------------------------------- the requests

  /** All chunks of the range that go to host `h`. */
  function ChunksOf(t: Targets, r: Range, h: nat): seq<nat>
    requires r.Valid()
  {
    HostChunks(t, h, r.First(), r.Last() + 1)
  }

  /** The copies of each chunk are on distinct hosts exactly when no host is listed twice for a chunk. */
  lemma DistinctIff(t: Targets, r: Range)
    requires r.Valid()
    ensures Distinct(t, r) <==> forall h: nat :: NoDup(ChunksOf(t, r, h))
  {
    hide HostChunks, Echo, NoDup, Range.First, Range.Last;
    if Distinct(t, r) {
      forall h: nat
        ensures NoDup(ChunksOf(t, r, h))
      {
        HostChunksOnce(t, h, r, r.Last() + 1);
      }
    }
    if forall h: nat :: NoDup(ChunksOf(t, r, h)) {
      forall c | r.Touches(c)
        ensures NoDup(t(c))
      {
        CopiesApart(t, r, c);
      }
    }
  }

  lemma CopiesApart(t: Targets, r: Range, c: nat)
    requires r.Valid() && r.Touches(c) && forall h: nat :: NoDup(ChunksOf(t, r, h))
    ensures NoDup(t(c))
  {
    hide HostChunks, Echo, Range.First, Range.Last;
    forall i, j | 0 <= i < j < |t(c)|
      ensures t(c)[i] != t(c)[j]
    {
      var h := t(c)[i];
      assert NoDup(ChunksOf(t, r, h));
      ListedOnce(t, h, r.First(), r.Last() + 1, c);
      EchoedOnce(t(c), h, c, i, j);
    }
  }

  /** `q` tells a host about exactly these chunks of the range. */
  ghost predicate Describes(q: Request, r: Range, chunks: seq<nat>, wide: bool)
    requires r.Valid()
  {
    && chunks != []
    && q.chunkStart == r.First() && q.chunkEnd == r.Last()
    && q.overrun == r.offset - r.First() * CHUNK
    && q.chunkCount == |chunks|
    && q.total == Discounted(r, chunks)
    && exists vector :: BitsOf(vector, chunks, r, wide) && q.bitset == Encoded(vector)
  }

  /** One request for every host that gets a chunk, describing that host's chunks, in the order of
      the first of them. */
  ghost predicate Dispatched(reqs: seq<Request>, t: Targets, r: Range, wide: bool)
    requires r.Valid()
  {
    && (forall i, j | 0 <= i < j < |reqs| :: reqs[i].host != reqs[j].host)
    && (forall h: nat :: ChunksOf(t, r, h) != [] ==> exists i :: 0 <= i < |reqs| && reqs[i].host == h)
    && (forall i | 0 <= i < |reqs| :: Describes(reqs[i], r, ChunksOf(t, r, reqs[i].host), wide))
    && forall i, j | 0 <= i < j < |reqs| ::
         FirstIn(ChunksOf(t, r, reqs[i].host)) <= FirstIn(ChunksOf(t, r, reqs[j].host))
  }

  /** The request for one target, as the second loop of `forward_write` computes it. */
  method MakeRequest(p: Plan, r: Range, h: nat, ghost chunks: seq<nat>, ghost wide: bool)
    returns (q: Request)
    requires r.Valid() && chunks != []
    requires h in p.chunks && p.chunks[h] == chunks
    requires h in p.starts <==> r.First() in chunks
    requires h in p.ends <==> r.Last() in chunks
    requires h in p.bits && BitsOf(p.bits[h], chunks, r, wide)
    ensures q.host == h && Describes(q, r, chunks, wide)
  {
    hide BlockIndex, BlockOverrun, BlockUnderrun, IsAligned, BlockSize, Encoded, BitsOf, Range.First, Range.Last;
    ClientArithmetic(r);
    var total := |p.chunks[h]| * CHUNK;
    if h in p.starts {
      total := total - BlockOverrun(r.offset, CHUNK);
    }
    if h in p.ends && !IsAligned(r.offset + r.size, CHUNK) {
      total := total - BlockUnderrun(r.offset + r.size, CHUNK);
    }
    var text := Base64Encode(p.bits[h]);
    q := Request(h, BlockOverrun(r.offset, CHUNK), text, |p.chunks[h]|,
                 BlockIndex(r.offset, CHUNK), BlockIndex(r.offset + r.size - 1, CHUNK), total);
  }

  lemma FinalTally(t: Targets, r: Range, h: nat)
    requires r.Valid()
    ensures TallyAt(t, r.First(), r.Last() + 1, 0)(h) == ChunksOf(t, r, h)
  {
  }

  lemma TargetFacts(p: Plan, t: Targets, r: Range, h: nat, wide: bool)
    requires r.Valid() && Agrees(p, TallyAt(t, r.First(), r.Last() + 1, 0), r, wide)
    ensures h in p.targets <==> ChunksOf(t, r, h) != []
    ensures h in p.targets ==>
              var chunks := ChunksOf(t, r, h);
              && h in p.chunks && p.chunks[h] == chunks
              && (h in p.starts <==> r.First() in chunks)
              && (h in p.ends <==> r.Last() in chunks)
              && h in p.bits && BitsOf(p.bits[h], chunks, r, wide)
    ensures NoDup(p.targets)
  {
    hide BitsOf, TallyAt, HostChunks;
    FinalTally(t, r, h);
  }

  /** The second loop of `forward_write` and `forward_read`: one request for each target. */
  method BuildRequests(p: Plan, ghost t: Targets, r: Range, ghost wide: bool) returns (reqs: seq<Request>)
    requires r.Valid() && Agrees(p, TallyAt(t, r.First(), r.Last() + 1, 0), r, wide)
    ensures Dispatched(reqs, t, r, wide) && |reqs| == |p.targets|
    ensures forall i | 0 <= i < |reqs| :: reqs[i].host == p.targets[i]
  {
    hide BitsOf, TallyAt, Agrees, Describes, ChunksOf, FirstIn;
    reqs := [];
    for i := 0 to |p.targets|
      invariant |reqs| == i && forall k | 0 <= k < i :: reqs[k].host == p.targets[k]
      invariant forall k | 0 <= k < i :: Describes(reqs[k], r, ChunksOf(t, r, reqs[k].host), wide)
    {
      var h := p.targets[i];
      TargetFacts(p, t, r, h, wide);
      var q := MakeRequest(p, r, h, ChunksOf(t, r, h), wide);
      reqs := reqs + [q];
    }
    forall h: nat | ChunksOf(t, r, h) != []
      ensures exists i :: 0 <= i < |reqs| && reqs[i].host == h
    {
      TargetFacts(p, t, r, h, wide);
      var i :| 0 <= i < |p.targets| && p.targets[i] == h;
      assert reqs[i].host == h;
    }
    TargetFacts(p, t, r, 0, wide);
    TargetsInOrder(p, t, r, wide);
  }

  lemma TargetsInOrder(p: Plan, t: Targets, r: Range, wide: bool)
    requires r.Valid() && Agrees(p, TallyAt(t, r.First(), r.Last() + 1, 0), r, wide)
    ensures forall i, j | 0 <= i < j < |p.targets| ::
              FirstIn(ChunksOf(t, r, p.targets[i])) <= FirstIn(ChunksOf(t, r, p.targets[j]))
  {
    hide BitsOf, TallyAt, FirstIn, HostChunks, Range.First, Range.Last;
    forall h: nat
      ensures TallyAt(t, r.First(), r.Last() + 1, 0)(h) == ChunksOf(t, r, h)
    {
      FinalTally(t, r, h);
    }
  }

  /** `forward_write` up to sending: plan, then one request for each target. */
  method WriteRequests(locate: (nat, nat) -> nat, copies: nat, r: Range) returns (reqs: seq<Request>)
    requires r.Valid()
    ensures Dispatched(reqs, WriteTargets(locate, copies), r, false)
  {
    hide Agrees, Dispatched, TallyAt;
    var p := PlanWrite(locate, copies, r);
    reqs := BuildRequests(p, WriteTargets(locate, copies), r, false);
  }

  // ---------------------------------------------------------------- choosing whom to read from

  /** A `uint64_t` stored in or looked up in a `std::set<int8_t>`. */
  function ToInt8(x: nat): int {
    (x + 128) % 256 - 128
  }

  /** Some later draw finds a copy on a host that has not failed. `draw` is the stream of
      `rand()` values; the modulus never selects the last copy. */
  ghost predicate DrawSucceeds(locate: (nat, nat) -> nat, copies: nat, failed: set<int>, draw: nat -> nat, from: nat,
                               c: nat)
    requires copies > 0
  {
    exists i: nat :: from <= i && ToInt8(locate(c, draw(i) % copies)) !in failed
  }

  /** The host `h` may serve chunk `c`: the primary unless it is known to fail, and otherwise a copy
      the client chooses from that is not. */
  ghost predicate Eligible(locate: (nat, nat) -> nat, copies: nat, failed: set<int>, c: nat, h: nat) {
    && (exists k: nat :: k < (if copies == 0 then 1 else copies) && h == locate(c, k))
    && (copies > 0 ==> ToInt8(h) !in failed)
    && (ToInt8(locate(c, 0)) !in failed ==> h == locate(c, 0))
  }

  /** The selection loop of `forward_read`. */
  method ChooseTarget(locate: (nat, nat) -> nat, copies: nat, failed: set<int>, draw: nat -> nat, from: nat, c: nat)
    returns (target: nat, next: nat)
    requires copies > 0 && ToInt8(locate(c, 0)) in failed ==>
               forall i: nat :: DrawSucceeds(locate, copies, failed, draw, i, c)
    ensures Eligible(locate, copies, failed, c, target)
  {
    target, next := locate(c, 0), from;
    assert target == locate(c, 0);
    if copies > 0 {
      ghost var hit := from;
      if ToInt8(target) in failed {
        assert DrawSucceeds(locate, copies, failed, draw, from, c);
        hit :| from <= hit && ToInt8(locate(c, draw(hit) % copies)) !in failed;
      }
      while ToInt8(target) in failed
        invariant exists k: nat :: k < copies && target == locate(c, k)
        invariant from <= next <= hit || ToInt8(target) !in failed
        invariant next == from ==> target == locate(c, 0)
        invariant next > from ==> ToInt8(locate(c, 0)) in failed
        invariant ToInt8(target) in failed ==> ToInt8(locate(c, draw(hit) % copies)) !in failed
        decreases hit - next
      {
        var k := draw(next) % copies;
        target := locate(c, k);
        next := next + 1;
      }
    }
  }

  /** The chosen hosts as targets: one for each chunk from `first` on. */
  function ReadTargets(picks: seq<nat>, first: nat): Targets {
    (c: nat) => if first <= c < first + |picks| then [picks[c - first]] else []
  }

  lemma {:induction false} HostChunksDependOn(t: Targets, t': Targets, h: nat, a: nat, b: nat)
    requires forall c | a <= c < b :: t(c) == t'(c)
    ensures HostChunks(t, h, a, b) == HostChunks(t', h, a, b)
  {
    if a < b {
      HostChunksDependOn(t, t', h, a, b - 1);
    }
  }

  lemma PickAppends(picks: seq<nat>, h: nat, first: nat)
    ensures var c := first + |picks|;
            var t, t' := ReadTargets(picks, first), ReadTargets(picks + [h], first);
            t'(c) == [h] && SameTally(TallyAt(t, first, c, 0), TallyAt(t', first, c, 0))
  {
    var c := first + |picks|;
    var t, t' := ReadTargets(picks, first), ReadTargets(picks + [h], first);
    forall g: nat
      ensures TallyAt(t, first, c, 0)(g) == TallyAt(t', first, c, 0)(g)
    {
      HostChunksDependOn(t, t', g, first, c);
    }
  }

  lemma PickStep(p: Plan, picks: seq<nat>, h: nat, r: Range)
    requires r.Valid() && |picks| < Count(r)
    requires var c := r.First() + |picks|;
             Agrees(p, TallyAt(ReadTargets(picks, r.First()), r.First(), c, 0), r, true)
    ensures var c := r.First() + |picks|;
            && r.Touches(c)
            && (h in p.bits ==> |p.bits[h]| == (Count(r) + 7) / 8)
            && Agrees(Add(p, h, c, r, true), TallyAt(ReadTargets(picks + [h], r.First()), r.First(), c + 1, 0), r, true)
  {
    hide Agrees, TallyAt, SameTally, Add, ReadTargets, Range.First, Range.Last;
    var first, c := r.First(), r.First() + |picks|;
    var t, t' := ReadTargets(picks, first), ReadTargets(picks + [h], first);
    PickAppends(picks, h, first);
    AgreesWithSame(p, TallyAt(t, first, c, 0), TallyAt(t', first, c, 0), r, true);
    PlanStep(p, t', r, c, 0, true);
    PlanNext(Add(p, h, c, r, true), t', r, c, true);
  }

  /** The requests of a read for which `picks` are the hosts chosen for its chunks. */
  ghost predicate ReadPlan(reqs: seq<Request>, picks: seq<nat>, locate: (nat, nat) -> nat, copies: nat,
                           failed: set<int>, r: Range)
    requires r.Valid()
  {
    && |picks| == Count(r)
    && (forall k: nat | k < |picks| :: Eligible(locate, copies, failed, r.First() + k, picks[k]))
    && Dispatched(reqs, ReadTargets(picks, r.First()), r, true)
  }

  /** The plan hands each chunk to the host picked for it. */
  ghost predicate Picked(p: Plan, picks: seq<nat>, locate: (nat, nat) -> nat, copies: nat, failed: set<int>, r: Range)
    requires r.Valid()
  {
    && |picks| == Count(r)
    && (forall k: nat | k < |picks| :: Eligible(locate, copies, failed, r.First() + k, picks[k]))
    && Agrees(p, TallyAt(ReadTargets(picks, r.First()), r.First(), r.Last() + 1, 0), r, true)
  }

  /** The planning loop of `forward_read`. */
  method PlanRead(locate: (nat, nat) -> nat, copies: nat, failed: set<int>, draw: nat -> nat, from: nat, r: Range)
    returns (p: Plan, next: nat)
    requires r.Valid()
    requires copies > 0 ==>
               forall c: nat, i: nat | r.Touches(c) && ToInt8(locate(c, 0)) in failed ::
                 DrawSucceeds(locate, copies, failed, draw, i, c)
    ensures exists picks :: Picked(p, picks, locate, copies, failed, r)
  {
    hide Agrees, Add, TallyAt, BlockIndex, BlockSize, Eligible, DrawSucceeds, ReadTargets, ToInt8, Range.First;
    hide Range.Last;
    ChunkInterval(r);
    var start := BlockIndex(r.offset, CHUNK);
    var end := BlockIndex(r.offset + r.size - 1, CHUNK);
    p, next := EMPTY, from;
    ghost var picks: seq<nat> := [];
    NothingPlanned(ReadTargets(picks, start), r, true);
    for c := start to end + 1
      invariant |picks| == c - start
      invariant forall k: nat | k < |picks| :: Eligible(locate, copies, failed, r.First() + k, picks[k])
      invariant Agrees(p, TallyAt(ReadTargets(picks, start), start, c, 0), r, true)
    {
      var target;
      target, next := ChooseTarget(locate, copies, failed, draw, next, c);
      PickStep(p, picks, target, r);
      p := Add(p, target, c, r, true);
      picks := picks + [target];
    }
    assert Picked(p, picks, locate, copies, failed, r);
  }

  /** `forward_read` up to sending. */
  method ReadRequests(locate: (nat, nat) -> nat, copies: nat, failed: set<int>, draw: nat -> nat, from: nat, r: Range)
    returns (reqs: seq<Request>, next: nat)
    requires r.Valid()
    requires copies > 0 ==>
               forall c: nat, i: nat | r.Touches(c) && ToInt8(locate(c, 0)) in failed ::
                 DrawSucceeds(locate, copies, failed, draw, i, c)
    ensures exists picks :: ReadPlan(reqs, picks, locate, copies, failed, r)
  {
    hide Agrees, TallyAt, Eligible, DrawSucceeds, Dispatched, ReadTargets, ToInt8, Range.First, Range.Last, ReadPlan;
    var p;
    p, next := PlanRead(locate, copies, failed, draw, from, r);
    ghost var picks :| Picked(p, picks, locate, copies, failed, r);
    reqs := BuildRequests(p, ReadTargets(picks, r.First()), r, true);
    Planned(reqs, picks, locate, copies, failed, r);
  }

  lemma Planned(reqs: seq<Request>, picks: seq<nat>, locate: (nat, nat) -> nat, copies: nat, failed: set<int>, r: Range)
    requires r.Valid() && |picks| == Count(r) && Dispatched(reqs, ReadTargets(picks, r.First()), r, true)
    requires forall k: nat | k < |picks| :: Eligible(locate, copies, failed, r.First() + k, picks[k])
    ensures ReadPlan(reqs, picks, locate, copies, failed, r)
  {
  }

  // ---------------------------------------------------------------- totals

  /** Every request carries a positive total: the bytes of the range in the host's chunks. */
  lemma TotalsAreExact(reqs: seq<Request>, t: Targets, r: Range, i: nat, wide: bool)
    requires r.Valid() && Distinct(t, r) && Dispatched(reqs, t, r, wide) && i < |reqs|
    ensures reqs[i].total == Held(r, ChunksOf(t, r, reqs[i].host)) == Bytes(r, ChunksOf(t, r, reqs[i].host)) > 0
  {
    hide Discounted, Bytes, Range.First, Range.Last, HostChunks, BitsOf;
    var h := reqs[i].host;
    assert Describes(reqs[i], r, ChunksOf(t, r, h), wide);
    DiscountedIsBytes(t, h, r);
    forall c | c in ChunksOf(t, r, h)
      ensures r.Touches(c)
    {
      HostChunksMembers(t, h, r.First(), r.Last() + 1, c);
    }
    BytesPositive(r, ChunksOf(t, r, h));
  }

  lemma BothCopiesOnOneHost(h: nat, size: nat)
    requires 0 < size <= CHUNK && Range(0, size).Valid()
    ensures ChunksOf(WriteTargets((c, k) => h, 2), Range(0, size), h) == [0, 0]
  {
    var r, t := Range(0, size), WriteTargets((c, k) => h, 2);
    assert r.First() == 0 && r.Last() == 0;
    assert t(0) == [h, h];
    assert Echo([h], h, 0) == [0] by { assert [h][..0] == []; }
    assert Echo([h, h], h, 0) == [0, 0] by { assert [h, h][..1] == [h]; }
    assert HostChunks(t, h, 0, 0) == [];
    assert HostChunks(t, h, 0, 1) == [0, 0];
  }

  lemma CountedTwice(size: nat)
    requires 0 < size <= CHUNK
    ensures var r := Range(0, size);
            r.Valid() && Held(r, [0, 0]) == size && Discounted(r, [0, 0]) == CHUNK + size
  {
    var r := Range(0, size);
    assert r.First() == 0 && r.Last() == 0;
    assert [0, 0][..1] == [0] && [0][..0] == [];
    assert Held(r, [0]) == size;
  }

  /** A chunk that goes to one host twice, whether cut short or whole, makes that host's total one
      chunk too large. */
  lemma DuplicateCopiesOvercount(h: nat, size: nat)
    requires 0 < size <= CHUNK
    ensures var r, t := Range(0, size), WriteTargets((c, k) => h, 2);
            && r.Valid()
            && ChunksOf(t, r, h) == [0, 0]
            && Held(r, ChunksOf(t, r, h)) == size
            && Discounted(r, ChunksOf(t, r, h)) == CHUNK + size
  {
    hide ChunksOf, Held, Discounted, Range.Valid, WriteTargets;
    CountedTwice(size);
    BothCopiesOnOneHost(h, size);
  }

  function SumTotals(reqs: seq<Request>): int {
    if reqs == [] then 0 else SumTotals(reqs[..|reqs| - 1]) + reqs[|reqs| - 1].total
  }

  /** The bytes of chunks below `b` over the hosts of the first `n` requests. */
  ghost function SumBytes(reqs: seq<Request>, t: Targets, r: Range, b: nat): int {
    if reqs == [] then 0
    else
      var n := |reqs| - 1;
      SumBytes(reqs[..n], t, r, b) + Bytes(r, HostChunks(t, reqs[n].host, r.First(), b))
  }

  ghost function HostSet(reqs: seq<Request>): set<nat> {
    set i | 0 <= i < |reqs| :: reqs[i].host
  }

  ghost predicate HostsDiffer(reqs: seq<Request>) {
    forall i, j | 0 <= i < j < |reqs| :: reqs[i].host != reqs[j].host
  }

  lemma BytesOfNext(t: Targets, h: nat, r: Range, b: nat)
    requires r.First() < b && NoDup(t(b - 1))
    ensures Bytes(r, HostChunks(t, h, r.First(), b)) ==
            Bytes(r, HostChunks(t, h, r.First(), b - 1)) + if h in t(b - 1) then r.Len(b - 1) else 0
  {
    hide Bytes, Range.First, Range.Len, Echo;
    var l := HostChunks(t, h, r.First(), b - 1);
    EchoOnce(t(b - 1), h, b - 1);
    BytesSnoc(r, l, b - 1);
    assert l + [] == l;
  }

  lemma HostSetSnoc(reqs: seq<Request>, n: nat)
    requires n + 1 == |reqs| && HostsDiffer(reqs)
    ensures HostSet(reqs) == HostSet(reqs[..n]) + {reqs[n].host}
    ensures reqs[n].host !in HostSet(reqs[..n]) && HostsDiffer(reqs[..n])
  {
    var before := reqs[..n];
    forall h | h in HostSet(reqs)
      ensures h in HostSet(before) + {reqs[n].host}
    {
      var i :| 0 <= i < |reqs| && reqs[i].host == h;
      if i < n { assert before[i].host == h; }
    }
    forall h | h in HostSet(before)
      ensures h in HostSet(reqs) && h != reqs[n].host
    {
      var i :| 0 <= i < n && before[i].host == h;
      assert reqs[i].host == h;
    }
    assert reqs[n].host in HostSet(reqs);
  }

  /** Chunk `b - 1` adds its bytes once for each of the hosts it is sent to. */
  lemma {:induction false} ChunkAdds(reqs: seq<Request>, t: Targets, r: Range, b: nat)
    requires r.First() < b && NoDup(t(b - 1)) && HostsDiffer(reqs)
    ensures SumBytes(reqs, t, r, b) ==
            SumBytes(reqs, t, r, b - 1) + |HostSet(reqs) * Elements(t(b - 1))| * r.Len(b - 1)
  {
    hide Bytes, Range.First, Range.Len, HostChunks, HostSet, HostsDiffer, NoDup;
    if reqs != [] {
      var n := |reqs| - 1;
      var h, hosts := reqs[n].host, HostSet(reqs[..n]) * Elements(t(b - 1));
      HostSetSnoc(reqs, n);
      ChunkAdds(reqs[..n], t, r, b);
      BytesOfNext(t, h, r, b);
      OneMore(|hosts|, r.Len(b - 1));
      if h in t(b - 1) {
        assert HostSet(reqs) * Elements(t(b - 1)) == hosts + {h};
      } else {
        assert HostSet(reqs) * Elements(t(b - 1)) == hosts;
      }
    } else {
      assert HostSet(reqs) * Elements(t(b - 1)) == {} by { NoHosts(reqs); }
    }
  }

  lemma NoHosts(reqs: seq<Request>)
    requires reqs == []
    ensures HostSet(reqs) == {}
  {
  }

  ghost function Elements(s: seq<nat>): set<nat> {
    set x | x in s
  }

  lemma {:induction false} ElementsCount(s: seq<nat>)
    requires NoDup(s)
    ensures |Elements(s)| == |s|
  {
    if s != [] {
      var n := |s| - 1;
      ElementsCount(s[..n]);
      assert s == s[..n] + [s[n]];
      assert Elements(s) == Elements(s[..n]) + {s[n]};
    }
  }

  /** Bytes of the range in chunks below `b`. */
  function Covered(r: Range, b: nat): int {
    if b <= r.First() then 0 else (if b * CHUNK < r.End() then b * CHUNK else r.End()) - r.offset
  }

  lemma CoveredStep(r: Range, b: nat)
    requires r.Valid() && r.First() < b <= r.Last() + 1
    ensures Covered(r, b) == Covered(r, b - 1) + r.Len(b - 1)
  {
    RangeBounds(r);
  }

  lemma {:induction false} SumBytesCovers(reqs: seq<Request>, t: Targets, r: Range, b: nat, k: nat, wide: bool)
    requires r.Valid() && Distinct(t, r) && Dispatched(reqs, t, r, wide)
    requires forall c | r.Touches(c) :: |t(c)| == k
    requires r.First() <= b <= r.Last() + 1
    ensures SumBytes(reqs, t, r, b) == k * Covered(r, b)
  {
    hide Bytes, HostChunks, Range.Len, Range.First, Range.Last, Dispatched, SumBytes, HostSet, Elements;
    if r.First() < b {
      SumBytesCovers(reqs, t, r, b - 1, k, wide);
      assert r.Touches(b - 1) && NoDup(t(b - 1));
      EveryTargetAsked(reqs, t, r, b - 1, wide);
      hide HostsDiffer, NoDup;
      ChunkAdds(reqs, t, r, b);
      ElementsCount(t(b - 1));
      CoveredStep(r, b);
      hide Covered;
      Distribute(k, Covered(r, b - 1), r.Len(b - 1));
    } else {
      NothingBelowFirst(reqs, t, r);
    }
  }

  lemma OneMore(n: nat, x: int)
    ensures (n + 1) * x == n * x + x
  {
  }

  lemma Distribute(k: int, x: int, y: int)
    ensures k * (x + y) == k * x + k * y
  {
  }

  lemma EveryTargetAsked(reqs: seq<Request>, t: Targets, r: Range, c: nat, wide: bool)
    requires r.Valid() && Dispatched(reqs, t, r, wide) && r.Touches(c)
    ensures HostsDiffer(reqs)
    ensures HostSet(reqs) * Elements(t(c)) == Elements(t(c))
  {
    hide Describes;
    forall h | h in t(c)
      ensures h in HostSet(reqs)
    {
      HostChunksMembers(t, h, r.First(), r.Last() + 1, c);
      assert ChunksOf(t, r, h) != [];
    }
  }

  lemma {:induction false} NothingBelowFirst(reqs: seq<Request>, t: Targets, r: Range)
    ensures SumBytes(reqs, t, r, r.First()) == 0
  {
    hide Range.First;
    if reqs != [] {
      NothingBelowFirst(reqs[..|reqs| - 1], t, r);
      assert HostChunks(t, reqs[|reqs| - 1].host, r.First(), r.First()) == [];
    }
  }

  lemma {:induction false} SumTotalsIsSumBytes(all: seq<Request>, n: nat, t: Targets, r: Range, wide: bool)
    requires r.Valid() && Distinct(t, r) && Dispatched(all, t, r, wide) && n <= |all|
    ensures SumTotals(all[..n]) == SumBytes(all[..n], t, r, r.Last() + 1)
  {
    hide Bytes, HostChunks, Dispatched, Range.First, Range.Last, Range.Len;
    if n > 0 {
      assert all[..n][..n - 1] == all[..n - 1];
      SumTotalsIsSumBytes(all, n - 1, t, r, wide);
      TotalsAreExact(all, t, r, n - 1, wide);
    }
  }

  /** The totals of all requests add up to the size of the range, once for each copy sent. */
  lemma TotalsConserve(reqs: seq<Request>, t: Targets, r: Range, k: nat, wide: bool)
    requires r.Valid() && Distinct(t, r) && Dispatched(reqs, t, r, wide)
    requires forall c | r.Touches(c) :: |t(c)| == k
    ensures SumTotals(reqs) == k * r.size
  {
    hide SumTotals, SumBytes, Dispatched;
    RangeBounds(r);
    assert reqs[..|reqs|] == reqs;
    SumTotalsIsSumBytes(reqs, |reqs|, t, r, wide);
    SumBytesCovers(reqs, t, r, r.Last() + 1, k, wide);
  }
}
