/** Byte ranges cut into chunks, and chunks handed to hosts: the vocabulary shared by the
    client's planning loops (src/client/rpc/forward_data.cpp) and the daemon's handlers
    (src/daemon/handler/srv_data.cpp). */
module Chunks {
  import opened Arithmetic

  /** `gkfs::config::rpc::chunksize`. */
  const CHUNK: nat := 524288

  /** The byte range of a read or write. The client asserts that it is not empty; that its
      end, rounded up to a chunk, is a 64-bit offset is what keeps the sums from wrapping. */
  datatype Range = Range(offset: nat, size: nat) {
    predicate Valid() {
      size > 0 && offset + size + CHUNK < WORD
    }

    function End(): nat {
      offset + size
    }

    function First(): nat {
      offset / CHUNK
    }

    function Last(): nat
      requires Valid()
    {
      (offset + size - 1) / CHUNK
    }

    /** First byte of the range in chunk `c`. */
    function Lo(c: nat): nat {
      if c * CHUNK < offset then offset else c * CHUNK
    }

    /** End of the range in chunk `c`. */
    function Hi(c: nat): nat {
      if (c + 1) * CHUNK < End() then (c + 1) * CHUNK else End()
    }

    /** Number of bytes of the range in chunk `c`. */
    function Len(c: nat): int {
      Hi(c) - Lo(c)
    }

    /** `c` is one of the chunks of the range. */
    predicate Touches(c: nat)
      requires Valid()
    {
      First() <= c <= Last()
    }
  }

  lemma ChunkIsBlockSize()
    ensures BlockSize(CHUNK)
  {
    assert Pow2(8) == 256;
    Pow2Add(8, 8);
    assert Pow2(3) == 8;
    Pow2Add(16, 3);
    Pow2IsPowerOf2(19);
  }

  /** Where the first and the last chunk lie, free of division. */
  lemma RangeBounds(r: Range)
    requires r.Valid()
    ensures r.First() * CHUNK <= r.offset < (r.First() + 1) * CHUNK
    ensures r.Last() * CHUNK < r.End() <= (r.Last() + 1) * CHUNK
    ensures r.First() <= r.Last()
  {
  }

  lemma ChunkPiece(r: Range, c: nat)
    requires r.Valid() && r.Touches(c)
    ensures r.offset <= r.Lo(c) < r.Hi(c) <= r.End()
    ensures c * CHUNK <= r.Lo(c) && r.Hi(c) <= (c + 1) * CHUNK
    ensures 0 < r.Len(c) <= CHUNK
  {
    RangeBounds(r);
  }

  lemma EndArithmetic(e: nat, last: nat)
    requires e + CHUNK < WORD && last * CHUNK < e <= (last + 1) * CHUNK
    ensures BlockSize(CHUNK)
    ensures if IsAligned(e, CHUNK) then e == (last + 1) * CHUNK
            else BlockUnderrun(e, CHUNK) == (last + 1) * CHUNK - e
  {
    ChunkIsBlockSize();
    hide BlockUnderrun, IsAligned, BlockSize;
    OverrunIsRemainder(e, CHUNK);
    UnderrunIsDistance(e, CHUNK);
  }

  /** The bit tricks of the client, at the chunk size. */
  lemma ClientArithmetic(r: Range)
    requires r.Valid()
    ensures BlockSize(CHUNK)
    ensures BlockIndex(r.offset, CHUNK) == r.First()
    ensures BlockIndex(r.offset + r.size - 1, CHUNK) == r.Last()
    ensures BlockOverrun(r.offset, CHUNK) == r.offset - r.First() * CHUNK
    ensures if IsAligned(r.End(), CHUNK) then r.End() == (r.Last() + 1) * CHUNK
            else BlockUnderrun(r.End(), CHUNK) == (r.Last() + 1) * CHUNK - r.End()
  {
    ChunkIsBlockSize();
    hide BlockIndex, BlockOverrun, BlockUnderrun, IsAligned, BlockSize;
    IndexIsQuotient(r.offset, CHUNK);
    IndexIsQuotient(r.End() - 1, CHUNK);
    OverrunIsRemainder(r.offset, CHUNK);
    RangeBounds(r);
    EndArithmetic(r.End(), r.Last());
  }

  // ---------------------------------------------------------------- chunks of a host

  /** The chunks of a request, as the planning loops compute them. */
  lemma ChunkInterval(r: Range)
    requires r.Valid()
    ensures BlockSize(CHUNK) && r.First() <= r.Last()
    ensures BlockIndex(r.offset, CHUNK) == r.First() && BlockIndex(r.offset + r.size - 1, CHUNK) == r.Last()
  {
    hide BlockIndex, BlockOverrun, BlockUnderrun, IsAligned, BlockSize, Range.First, Range.Last;
    ClientArithmetic(r);
    RangeBounds(r);
  }

  /** The hosts a chunk is sent to, in order. */
  type Targets = nat -> seq<nat>

  ghost predicate NoDup<T(!new)>(s: seq<T>) {
    forall i, j | 0 <= i < j < |s| :: s[i] != s[j]
  }

  /** `c`, once for each time `h` is in `hosts`. */
  function Echo(hosts: seq<nat>, h: nat, c: nat): seq<nat> {
    if hosts == [] then []
    else
      var n := |hosts| - 1;
      Echo(hosts[..n], h, c) + if hosts[n] == h then [c] else []
  }

  /** The chunks from `a` up to but not including `b` that are sent to host `h`. */
  function HostChunks(t: Targets, h: nat, a: nat, b: nat): seq<nat> {
    if b <= a then [] else HostChunks(t, h, a, b - 1) + Echo(t(b - 1), h, b - 1)
  }

  /** No chunk of the range is sent to the same host twice. */
  ghost predicate Distinct(t: Targets, r: Range)
    requires r.Valid()
  {
    forall c | r.Touches(c) :: NoDup(t(c))
  }

  lemma {:induction false} EchoMembers(hosts: seq<nat>, h: nat, c: nat, x: nat)
    ensures x in Echo(hosts, h, c) <==> x == c && h in hosts
  {
    if hosts != [] {
      var n := |hosts| - 1;
      EchoMembers(hosts[..n], h, c, x);
      assert hosts == hosts[..n] + [hosts[n]];
    }
  }

  lemma {:induction false} EchoOnce(hosts: seq<nat>, h: nat, c: nat)
    requires NoDup(hosts)
    ensures Echo(hosts, h, c) == if h in hosts then [c] else []
  {
    if hosts != [] {
      var n := |hosts| - 1;
      NoDupSnoc(hosts, n);
      EchoOnce(hosts[..n], h, c);
      assert hosts == hosts[..n] + [hosts[n]];
      hide NoDup;
    }
  }

  lemma {:induction false} HostChunksMembers(t: Targets, h: nat, a: nat, b: nat, c: nat)
    ensures c in HostChunks(t, h, a, b) <==> a <= c < b && h in t(c)
  {
    hide Echo;
    if a < b {
      HostChunksMembers(t, h, a, b - 1, c);
      EchoMembers(t(b - 1), h, b - 1, c);
    }
  }

  /** The pieces of the listed chunks laid one behind the other. */
  function Bytes(r: Range, chunks: seq<nat>): int {
    if chunks == [] then 0 else Bytes(r, chunks[..|chunks| - 1]) + r.Len(chunks[|chunks| - 1])
  }

  lemma BytesSnoc(r: Range, chunks: seq<nat>, c: nat)
    ensures Bytes(r, chunks + [c]) == Bytes(r, chunks) + r.Len(c)
  {
    assert (chunks + [c])[..|chunks|] == chunks;
  }

  /** What the client computes for one host: whole chunks, less what the first and the last
      chunk of the request are short of. */
  function Discounted(r: Range, chunks: seq<nat>): int
    requires r.Valid()
  {
    |chunks| * CHUNK
    - (if r.First() in chunks then r.offset - r.First() * CHUNK else 0)
    - (if r.Last() in chunks then (r.Last() + 1) * CHUNK - r.End() else 0)
  }

  lemma LenOfPiece(r: Range, c: nat)
    requires r.Valid() && r.Touches(c)
    ensures r.Len(c) == CHUNK - (if c == r.First() then r.offset - r.First() * CHUNK else 0)
                              - (if c == r.Last() then (r.Last() + 1) * CHUNK - r.End() else 0)
  {
    RangeBounds(r);
  }

  /** Bytes of the range that lie in the listed chunks: a chunk listed again adds nothing. */
  function Held(r: Range, chunks: seq<nat>): int {
    if chunks == [] then 0
    else
      var n := |chunks| - 1;
      Held(r, chunks[..n]) + if chunks[n] in chunks[..n] then 0 else r.Len(chunks[n])
  }

  /** How many different chunks are listed. */
  function Different(chunks: seq<nat>): nat {
    if chunks == [] then 0
    else
      var n := |chunks| - 1;
      Different(chunks[..n]) + if chunks[n] in chunks[..n] then 0 else 1
  }

  lemma {:induction false} DifferentAtMost(chunks: seq<nat>)
    ensures Different(chunks) <= |chunks|
    ensures Different(chunks) == |chunks| <==> NoDup(chunks)
  {
    if chunks != [] {
      var n := |chunks| - 1;
      DifferentAtMost(chunks[..n]);
      NoDupSnoc(chunks, n);
    }
  }

  lemma NoDupSnoc(s: seq<nat>, n: nat)
    requires |s| == n + 1
    ensures NoDup(s) <==> NoDup(s[..n]) && s[n] !in s[..n]
  {
    if NoDup(s) {
      forall i | 0 <= i < n ensures s[..n][i] != s[n] { assert s[i] != s[n]; }
    }
  }

  lemma {:induction false} HeldFormula(r: Range, chunks: seq<nat>)
    requires r.Valid() && forall c | c in chunks :: r.Touches(c)
    ensures Held(r, chunks) == Different(chunks) * CHUNK
                               - (if r.First() in chunks then r.offset - r.First() * CHUNK else 0)
                               - (if r.Last() in chunks then (r.Last() + 1) * CHUNK - r.End() else 0)
  {
    if chunks != [] {
      var n := |chunks| - 1;
      var m := chunks[..n];
      assert chunks == m + [chunks[n]];
      assert forall c | c in m :: c in chunks;
      assert chunks[n] in chunks;
      HeldFormula(r, m);
      LenOfPiece(r, chunks[n]);
      hide Range.First, Range.Last, Range.Len;
    }
  }

  /** The client's figure never falls short of the bytes of the request in the listed chunks, and
      is that number exactly when no chunk is listed twice. */
  lemma DiscountedExact(r: Range, chunks: seq<nat>)
    requires r.Valid() && forall c | c in chunks :: r.Touches(c)
    ensures Discounted(r, chunks) >= Held(r, chunks)
    ensures Discounted(r, chunks) == Held(r, chunks) <==> NoDup(chunks)
  {
    HeldFormula(r, chunks);
    DifferentAtMost(chunks);
    hide Held, Different, NoDup, Range.First, Range.Last;
  }

  lemma {:induction false} HeldIsBytes(r: Range, chunks: seq<nat>)
    requires NoDup(chunks)
    ensures Held(r, chunks) == Bytes(r, chunks)
  {
    if chunks != [] {
      NoDupSnoc(chunks, |chunks| - 1);
      HeldIsBytes(r, chunks[..|chunks| - 1]);
    }
  }

  lemma {:induction false} HostChunksOnce(t: Targets, h: nat, r: Range, b: nat)
    requires r.Valid() && Distinct(t, r) && b <= r.Last() + 1
    ensures NoDup(HostChunks(t, h, r.First(), b))
  {
    hide Range.First, Range.Last, Echo;
    if r.First() < b {
      var l := HostChunks(t, h, r.First(), b - 1);
      HostChunksOnce(t, h, r, b - 1);
      HostChunksMembers(t, h, r.First(), b - 1, b - 1);
      EchoOnce(t(b - 1), h, b - 1);
      assert l + [] == l;
      assert (l + [b - 1])[..|l|] == l;
      NoDupSnoc(l + [b - 1], |l|);
    }
  }

  lemma NoDupParts(a: seq<nat>, b: seq<nat>)
    requires NoDup(a + b)
    ensures NoDup(a) && NoDup(b)
  {
    var s := a + b;
    forall i, j | 0 <= i < j < |a| ensures a[i] != a[j] { assert s[i] != s[j]; }
    forall i, j | 0 <= i < j < |b| ensures b[i] != b[j] { assert s[|a| + i] != s[|a| + j]; }
  }

  lemma {:induction false} EchoedOnce(hosts: seq<nat>, h: nat, c: nat, i: nat, j: nat)
    requires NoDup(Echo(hosts, h, c)) && i < j < |hosts|
    ensures !(hosts[i] == h && hosts[j] == h)
    decreases |hosts|
  {
    var n := |hosts| - 1;
    var l := Echo(hosts[..n], h, c);
    NoDupParts(l, if hosts[n] == h then [c] else []);
    if j < n {
      EchoedOnce(hosts[..n], h, c, i, j);
    } else if hosts[i] == h && hosts[n] == h {
      assert hosts[..n][i] == h;
      EchoMembers(hosts[..n], h, c, c);
      assert Echo(hosts, h, c)[..|l|] == l;
      NoDupSnoc(Echo(hosts, h, c), |l|);
    }
  }

  lemma {:induction false} ListedOnce(t: Targets, h: nat, a: nat, b: nat, c: nat)
    requires NoDup(HostChunks(t, h, a, b)) && a <= c < b
    ensures NoDup(Echo(t(c), h, c))
    decreases b
  {
    hide Echo, NoDup;
    NoDupParts(HostChunks(t, h, a, b - 1), Echo(t(b - 1), h, b - 1));
    if c < b - 1 {
      ListedOnce(t, h, a, b - 1, c);
    }
  }

  lemma HostChunksInRange(t: Targets, h: nat, r: Range)
    requires r.Valid()
    ensures forall c | c in HostChunks(t, h, r.First(), r.Last() + 1) :: r.Touches(c)
  {
    hide HostChunks, Range.First, Range.Last;
    forall c | c in HostChunks(t, h, r.First(), r.Last() + 1)
      ensures r.Touches(c)
    {
      HostChunksMembers(t, h, r.First(), r.Last() + 1, c);
    }
  }

  /** With the copies of each chunk on distinct hosts, the figure is exact for every host. */
  lemma DiscountedIsBytes(t: Targets, h: nat, r: Range)
    requires r.Valid() && Distinct(t, r)
    ensures var l := HostChunks(t, h, r.First(), r.Last() + 1);
            Discounted(r, l) == Held(r, l) == Bytes(r, l)
  {
    hide Discounted, Held, Bytes, HostChunks, NoDup, Distinct, Range.First, Range.Last;
    var l := HostChunks(t, h, r.First(), r.Last() + 1);
    HostChunksInRange(t, h, r);
    HostChunksOnce(t, h, r, r.Last() + 1);
    DiscountedExact(r, l);
    HeldIsBytes(r, l);
  }

  lemma {:induction false} BytesPositive(r: Range, chunks: seq<nat>)
    requires r.Valid() && chunks != [] && forall c | c in chunks :: r.Touches(c)
    ensures Bytes(r, chunks) > 0
  {
    var n := |chunks| - 1;
    assert chunks[n] in chunks;
    ChunkPiece(r, chunks[n]);
    if n > 0 {
      assert forall c | c in chunks[..n] :: c in chunks;
      BytesPositive(r, chunks[..n]);
    }
  }
}
