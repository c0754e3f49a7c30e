/** Cutting a file: which hosts `forward_truncate` contacts, what a contacted daemon does
    (`truncate_abt` in src/daemon/ops/data.cpp), and when the cut is complete. */
module Truncation {
  import opened Common
  import opened Arithmetic
  import opened Wire
  import opened Chunks
  import opened Planning
  import opened ChunkStore
  import opened DataPath
  import opened Transfers
  import opened FlatFile

  const UINT_MAX: nat := 0xffff_ffff

  ghost function HostsBetween(locate: (nat, nat) -> nat, replicas: nat, a: nat, b: nat): set<nat> {
    set c: nat, k: nat | a <= c < b && k < replicas + 1 :: locate(c, k)
  }

  /** The hosts that hold a copy of some chunk with bytes at or beyond the new size. */
  ghost function Concerned(locate: (nat, nat) -> nat, replicas: nat, current: nat, newSize: nat): set<nat>
    requires newSize < current
  {
    HostsBetween(locate, replicas, newSize / CHUNK, (current - 1) / CHUNK + 1)
  }

  /** The hosts the client's loop collects. Its upper end is computed from the difference of
      the sizes, not from the current size. */
  ghost function Contacted(locate: (nat, nat) -> nat, replicas: nat, current: nat, newSize: nat): set<nat>
    requires newSize < current
  {
    HostsBetween(locate, replicas, newSize / CHUNK, (current - newSize - 1) / CHUNK + 1)
  }

  lemma HostsNext(locate: (nat, nat) -> nat, replicas: nat, a: nat, c: nat)
    requires a <= c
    ensures HostsBetween(locate, replicas, a, c + 1) ==
            HostsBetween(locate, replicas, a, c) + HostsBetween(locate, replicas, c, c + 1)
  {
  }

  /** The loops of `forward_truncate`; chunk ids are `unsigned int`. */
  method TruncateHosts(locate: (nat, nat) -> nat, replicas: nat, current: nat, newSize: nat)
    returns (hosts: set<nat>)
    requires newSize < current < WORD && current / CHUNK < UINT_MAX
    ensures hosts == Contacted(locate, replicas, current, newSize)
  {
    hide BlockIndex, BlockSize, HostsBetween;
    ChunkIsBlockSize();
    IndexIsQuotient(newSize, CHUNK);
    IndexIsQuotient(current - newSize - 1, CHUNK);
    var start := BlockIndex(newSize, CHUNK) % (UINT_MAX + 1);
    var end := BlockIndex(current - newSize - 1, CHUNK) % (UINT_MAX + 1);
    UnsignedIds(current, newSize);
    hosts := {};
    var c := start;
    NoHosts(locate, replicas, start, start);
    if end < start { NoHosts(locate, replicas, start, end + 1); }
    while c <= end
      invariant start <= c && (c <= end + 1 || c == start)
      invariant hosts == HostsBetween(locate, replicas, start, c)
    {
      var copies := HostsOfCopies(locate, replicas, c);
      HostsNext(locate, replicas, start, c);
      hosts := hosts + copies;
      c := c + 1;
    }
  }

  lemma UnsignedIds(current: nat, newSize: nat)
    requires newSize < current && current / CHUNK < UINT_MAX
    ensures newSize / CHUNK % (UINT_MAX + 1) == newSize / CHUNK
    ensures (current - newSize - 1) / CHUNK % (UINT_MAX + 1) == (current - newSize - 1) / CHUNK
  {
    SmallRemainder(newSize / CHUNK, UINT_MAX + 1);
    SmallRemainder((current - newSize - 1) / CHUNK, UINT_MAX + 1);
  }

  /** The inner loop over the copies of one chunk. */
  method HostsOfCopies(locate: (nat, nat) -> nat, replicas: nat, c: nat) returns (hosts: set<nat>)
    ensures hosts == HostsBetween(locate, replicas, c, c + 1)
  {
    hide HostsBetween, CopiesBelow;
    hosts := {};
    NoCopies(locate, c);
    for copy := 0 to replicas + 1
      invariant hosts == CopiesBelow(locate, c, copy)
    {
      CopyNext(locate, c, copy);
      hosts := hosts + {locate(c, copy)};
    }
    CopiesOfChunk(locate, replicas, c);
  }

  ghost function CopiesBelow(locate: (nat, nat) -> nat, c: nat, n: nat): set<nat> {
    set k: nat | k < n :: locate(c, k)
  }

  lemma NoHosts(locate: (nat, nat) -> nat, replicas: nat, a: nat, b: nat)
    requires b <= a
    ensures HostsBetween(locate, replicas, a, b) == {}
  {
  }

  lemma NoCopies(locate: (nat, nat) -> nat, c: nat)
    ensures CopiesBelow(locate, c, 0) == {}
  {
  }

  lemma CopyNext(locate: (nat, nat) -> nat, c: nat, n: nat)
    ensures CopiesBelow(locate, c, n + 1) == CopiesBelow(locate, c, n) + {locate(c, n)}
  {
  }

  lemma CopiesOfChunk(locate: (nat, nat) -> nat, replicas: nat, c: nat)
    ensures HostsBetween(locate, replicas, c, c + 1) == CopiesBelow(locate, c, replicas + 1)
  {
    forall k: nat | k < replicas + 1
      ensures locate(c, k) in HostsBetween(locate, replicas, c, c + 1)
    {
    }
  }

  /** The loop covers every host concerned, for every distributor, exactly when the difference
      of the sizes ends in the same chunk as the file. */
  lemma ContactCoversIff(current: nat, newSize: nat, replicas: nat)
    requires newSize < current
    ensures (forall locate: (nat, nat) -> nat ::
               Concerned(locate, replicas, current, newSize) <= Contacted(locate, replicas, current, newSize))
            <==> (current - newSize - 1) / CHUNK == (current - 1) / CHUNK
  {
    var a, b, last := newSize / CHUNK, (current - newSize - 1) / CHUNK, (current - 1) / CHUNK;
    assert b <= last && a <= last;
    if b != last {
      var identity := (c: nat, k: nat) => c;
      assert identity(last, 0) == last;
      assert last in Concerned(identity, replicas, current, newSize);
      assert last !in Contacted(identity, replicas, current, newSize);
    }
  }

  // ---------------------------------------------------------------- what a daemon does

  /** `truncate(2)`: cut or extend with zeros. */
  function Resize(file: seq<byte>, length: nat): seq<byte> {
    if length <= |file| then file[..length] else file + seq(length - |file|, i => 0)
  }

  /** A daemon can carry out the request: it has a chunk directory for the path and, when the
      cut is inside a chunk, the file of that chunk. */
  predicate Truncatable(s: Store, h: nat, newSize: nat) {
    h in s && (newSize % CHUNK == 0 || newSize / CHUNK in s[h])
  }

  /** The directory after the request: the chunk of the cut shortened, later ones removed. */
  function Trimmed(d: Dir, newSize: nat): Dir
    requires newSize % CHUNK == 0 || newSize / CHUNK in d
  {
    var start, pad := newSize / CHUNK, newSize % CHUNK;
    map c | c in d && (c < start || (c == start && pad != 0)) ::
      if c == start then Resize(d[c], pad) else d[c]
  }

  /** `truncate_abt`. A missing chunk file is an error that leaves the directory as it is, the
      chunks beyond it included. */
  method TruncateDir(s: Store, h: nat, newSize: nat) returns (err: int, s': Store)
    requires newSize < WORD
    ensures err == if Truncatable(s, h, newSize) then 0 else if newSize % CHUNK != 0 then ENOENT else EIO
    ensures s' == if err == 0 then s[h := Trimmed(s[h], newSize)] else s
  {
    hide BlockIndex, BlockOverrun, BlockSize;
    ChunkIsBlockSize();
    IndexIsQuotient(newSize, CHUNK);
    OverrunIsRemainder(newSize, CHUNK);
    var start, pad := BlockIndex(newSize, CHUNK), BlockOverrun(newSize, CHUNK);
    if h !in s {
      return if pad != 0 then ENOENT else EIO, s;
    }
    var d := s[h];
    if pad != 0 {
      if start !in d {
        return ENOENT, s;
      }
      d := d[start := Resize(d[start], pad)];
      start := start + 1;
    }
    var kept := TrimChunkSpace(d, start);
    assert kept == Trimmed(s[h], newSize);
    return 0, s[h := kept];
  }

  /** `trim_chunk_space`: walk the directory and unlink the chunk files from `start` on. */
  method TrimChunkSpace(d: Dir, start: nat) returns (kept: Dir)
    ensures kept == map c | c in d && c < start :: d[c]
  {
    kept := d;
    var remaining := d.Keys;
    while remaining != {}
      invariant remaining <= d.Keys
      invariant kept == map c | c in d && (c in remaining || c < start) :: d[c]
      decreases |remaining|
    {
      var c :| c in remaining;
      remaining := remaining - {c};
      if c >= start {
        kept := kept - {c};
      }
    }
  }

  /** The store after the hosts in `acting` have handled the request. */
  ghost function AfterTruncate(s: Store, acting: Hosts, newSize: nat): Store {
    map h | h in s :: if acting(h) && Truncatable(s, h, newSize) then Trimmed(s[h], newSize) else s[h]
  }

  /** A host carries out the request if it serves it, or before it is lost or fails. */
  function Acts(fate: Fate): bool {
    fate.Serves? || fate.after > 0
  }

  /** The contacted hosts that carry out the request. */
  ghost function Acting(locate: (nat, nat) -> nat, replicas: nat, current: nat, newSize: nat, fate: nat -> Fate): Hosts
    requires newSize < current
  {
    (h: nat) => h in Contacted(locate, replicas, current, newSize) && Acts(fate(h))
  }

  /** `forward_truncate`: EIO unless every contacted host is heard from and has carried it out. */
  method ForwardTruncate(s: Store, locate: (nat, nat) -> nat, replicas: nat, current: nat, newSize: nat,
                         fate: nat -> Fate)
    returns (err: int, s': Store)
    requires newSize < current < WORD && current / CHUNK < UINT_MAX
    ensures err == if AllCarried(s, Contacted(locate, replicas, current, newSize), newSize, fate) then 0 else EIO
    ensures s' == AfterTruncate(s, Acting(locate, replicas, current, newSize, fate), newSize)
  {
    hide Contacted, Truncatable, Trimmed, AfterTruncate, Acting, ActingIn, Acts, AllCarried;
    var hosts := TruncateHosts(locate, replicas, current, newSize);
    err, s' := 0, s;
    var remaining := hosts;
    NobodyActs(s, fate, newSize);
    assert hosts - remaining == {};
    while remaining != {}
      invariant remaining <= hosts
      invariant err == if AllCarried(s, hosts - remaining, newSize, fate) then 0 else EIO
      invariant s' == AfterTruncate(s, ActingIn(hosts - remaining, fate), newSize)
      decreases |remaining|
    {
      var h :| h in remaining;
      ghost var done := hosts - remaining;
      remaining := remaining - {h};
      assert hosts - remaining == done + {h};
      OneHostMore(s, done, fate, h, newSize);
      var heard;
      heard, s' := TruncateHost(s', h, newSize, fate(h));
      if !heard {
        err := EIO;
      }
    }
    assert hosts - remaining == hosts;
    SameActing(s, locate, replicas, current, newSize, fate, hosts);
  }

  /** One host's part: whether the client hears of success, and the store afterwards. */
  method TruncateHost(s: Store, h: nat, newSize: nat, fate: Fate) returns (heard: bool, s': Store)
    requires newSize < WORD
    ensures heard <==> fate.Serves? && Truncatable(s, h, newSize)
    ensures s' == if Acts(fate) && Truncatable(s, h, newSize) then s[h := Trimmed(s[h], newSize)] else s
  {
    hide Trimmed, Truncatable;
    var e := 0;
    s' := s;
    if Acts(fate) {
      e, s' := TruncateDir(s, h, newSize);
    }
    heard := fate.Serves? && e == 0;
  }

  ghost predicate AllCarried(s: Store, hosts: set<nat>, newSize: nat, fate: nat -> Fate) {
    forall h | h in hosts :: Carried(s, h, newSize, fate)
  }

  lemma OneHostMore(s: Store, done: set<nat>, fate: nat -> Fate, h: nat, newSize: nat)
    requires h !in done
    ensures var s' := AfterTruncate(s, ActingIn(done, fate), newSize);
            && (Truncatable(s', h, newSize) <==> Truncatable(s, h, newSize))
            && (Truncatable(s, h, newSize) ==> h in s && h in s' && s'[h] == s[h])
            && AfterTruncate(s, ActingIn(done + {h}, fate), newSize) ==
               (if Acts(fate(h)) && Truncatable(s, h, newSize) then s'[h := Trimmed(s[h], newSize)] else s')
    ensures AllCarried(s, done + {h}, newSize, fate) <==>
            AllCarried(s, done, newSize, fate) && Carried(s, h, newSize, fate)
  {
    hide Trimmed;
    SameHost(s, AfterTruncate(s, ActingIn(done, fate), newSize), ActingIn(done, fate), h, newSize);
    AfterOneMore(s, done, fate, h, newSize);
  }

  /** The client hears from the host that it has carried out the request. */
  ghost predicate Carried(s: Store, h: nat, newSize: nat, fate: nat -> Fate) {
    fate(h).Serves? && Truncatable(s, h, newSize)
  }

  ghost function ActingIn(hosts: set<nat>, fate: nat -> Fate): Hosts {
    (h: nat) => h in hosts && Acts(fate(h))
  }

  lemma NobodyActs(s: Store, fate: nat -> Fate, newSize: nat)
    ensures AfterTruncate(s, ActingIn({}, fate), newSize) == s && AllCarried(s, {}, newSize, fate)
  {
    hide Trimmed;
  }

  lemma SameActing(s: Store, locate: (nat, nat) -> nat, replicas: nat, current: nat, newSize: nat, fate: nat -> Fate,
                   hosts: set<nat>)
    requires newSize < current && hosts == Contacted(locate, replicas, current, newSize)
    ensures AfterTruncate(s, ActingIn(hosts, fate), newSize) ==
            AfterTruncate(s, Acting(locate, replicas, current, newSize, fate), newSize)
  {
    hide Trimmed, Contacted;
  }

  lemma AfterOneMore(s: Store, done: set<nat>, fate: nat -> Fate, h: nat, newSize: nat)
    requires h !in done
    ensures AfterTruncate(s, ActingIn(done + {h}, fate), newSize) ==
            if Acts(fate(h)) && Truncatable(s, h, newSize)
            then AfterTruncate(s, ActingIn(done, fate), newSize)[h := Trimmed(s[h], newSize)]
            else AfterTruncate(s, ActingIn(done, fate), newSize)
  {
    hide Trimmed;
  }

  lemma SameHost(s: Store, s': Store, acting: Hosts, h: nat, newSize: nat)
    requires s' == AfterTruncate(s, acting, newSize) && !acting(h)
    ensures Truncatable(s', h, newSize) <==> Truncatable(s, h, newSize)
    ensures h in s' <==> h in s
    ensures h in s ==> s'[h] == s[h]
  {
  }

  // ---------------------------------------------------------------- what is left of the file

  lemma TrimmedByte(d: Dir, newSize: nat, c: nat, i: nat)
    requires newSize % CHUNK == 0 || newSize / CHUNK in d
    requires i < CHUNK
    ensures c * CHUNK + i < newSize ==> Byte(Trimmed(d, newSize), c, i) == Byte(d, c, i)
    ensures c * CHUNK + i >= newSize ==> i >= |FileOf(Trimmed(d, newSize), c)|
  {
    var start, pad := newSize / CHUNK, newSize % CHUNK;
    assert newSize == start * CHUNK + pad;
    CompareChunks(newSize, start, pad, c, i);
  }

  /** Exactly the chunk files with a position below the cut stay, those before its chunk as they are. */
  lemma TrimmedIff(d: Dir, newSize: nat, c: nat)
    requires newSize % CHUNK == 0 || newSize / CHUNK in d
    ensures c in Trimmed(d, newSize) <==> c in d && c * CHUNK < newSize
    ensures c in d && (c + 1) * CHUNK <= newSize ==> c in Trimmed(d, newSize) && Trimmed(d, newSize)[c] == d[c]
  {
    CompareChunks(newSize, newSize / CHUNK, newSize % CHUNK, c, 0);
  }

  /** The file of the chunk of the cut ends there, whether it was longer or shorter. */
  lemma CutFileEnds(d: Dir, newSize: nat)
    requires newSize / CHUNK in d
    ensures var pad := newSize % CHUNK;
            |FileOf(Trimmed(d, newSize), newSize / CHUNK)| == pad
  {
  }

  lemma CompareChunks(n: nat, start: nat, pad: nat, c: nat, i: nat)
    requires n == start * CHUNK + pad && pad < CHUNK && i < CHUNK
    ensures c * CHUNK + i < n <==> c < start || (c == start && i < pad)
  {
  }

  /** Byte `j` of chunk `c` lies at or beyond the new size. */
  predicate Past(c: nat, j: nat, newSize: nat) {
    j < CHUNK && c * CHUNK + j >= newSize
  }

  /** The host has stored something at or beyond the new size. */
  ghost predicate Beyond(s: Store, h: nat, newSize: nat) {
    exists c: nat, j: nat :: Past(c, j, newSize) && StoredAt(s, h, c, j)
  }

  lemma TrimmedHost(s: Store, acting: Hosts, newSize: nat, h: nat, c: nat, j: nat)
    requires j < CHUNK
    ensures var s' := AfterTruncate(s, acting, newSize);
            && (!Past(c, j, newSize) ==> Byte(DirOf(s', h), c, j) == Byte(DirOf(s, h), c, j))
            && (acting(h) && Truncatable(s, h, newSize) && Past(c, j, newSize) ==> !StoredAt(s', h, c, j))
            && (!(acting(h) && Truncatable(s, h, newSize)) ==> DirOf(s', h) == DirOf(s, h))
  {
    hide Trimmed, Byte;
    if acting(h) && Truncatable(s, h, newSize) {
      TrimmedByte(s[h], newSize, c, j);
    }
  }

  /** After the request nothing is left at or beyond the new size, on any host, if and only if every
      host that had something there carried the request out and could. */
  lemma NothingBeyondIff(s: Store, acting: Hosts, newSize: nat)
    ensures var s' := AfterTruncate(s, acting, newSize);
            (forall h: nat :: !Beyond(s', h, newSize)) <==>
            (forall h: nat :: Beyond(s, h, newSize) ==> acting(h) && Truncatable(s, h, newSize))
  {
    hide Trimmed, Truncatable, StoredAt, Past;
    var s' := AfterTruncate(s, acting, newSize);
    forall h: nat
      ensures Beyond(s', h, newSize) <==> Beyond(s, h, newSize) && !(acting(h) && Truncatable(s, h, newSize))
    {
      BeyondAfter(s, acting, newSize, h);
    }
  }

  lemma BeyondAfter(s: Store, acting: Hosts, newSize: nat, h: nat)
    ensures Beyond(AfterTruncate(s, acting, newSize), h, newSize) <==>
            Beyond(s, h, newSize) && !(acting(h) && Truncatable(s, h, newSize))
  {
    hide Trimmed, Truncatable;
    var s' := AfterTruncate(s, acting, newSize);
    if Beyond(s', h, newSize) {
      var c: nat, j: nat :| Past(c, j, newSize) && StoredAt(s', h, c, j);
      TrimmedHost(s, acting, newSize, h, c, j);
      assert StoredAt(s, h, c, j);
    }
    if Beyond(s, h, newSize) && !(acting(h) && Truncatable(s, h, newSize)) {
      var c: nat, j: nat :| Past(c, j, newSize) && StoredAt(s, h, c, j);
      TrimmedHost(s, acting, newSize, h, c, j);
      assert StoredAt(s', h, c, j);
    }
  }

  /** The flat file cut at the new size. */
  function Cut(f: File, newSize: nat): File {
    (pos: nat) => if pos < newSize then f(pos) else 0
  }

  /** If every host of a live copy that has something of it at or beyond the new size carries the
      request out, the store that represented a file represents the file cut. */
  lemma TruncateRefines(s: Store, locate: (nat, nat) -> nat, replicas: nat, live: Holders, f: File, acting: Hosts,
                        newSize: nat)
    requires Represents(s, locate, replicas, live, f)
    requires forall c: nat, h: nat, j: nat | live(c, h) && Past(c, j, newSize) && StoredAt(s, h, c, j) ::
               acting(h) && Truncatable(s, h, newSize)
    ensures Represents(AfterTruncate(s, acting, newSize), locate, replicas, live, Cut(f, newSize))
  {
    hide Trimmed, Truncatable, AfterTruncate, Byte, FileOf;
    var s' := AfterTruncate(s, acting, newSize);
    forall c: nat, copy: nat, j: nat | copy <= replicas && j < CHUNK && live(c, locate(c, copy))
      ensures HoldsByte(s', locate(c, copy), c, j, Cut(f, newSize))
    {
      var h := locate(c, copy);
      assert HoldsByte(s, h, c, j, f);
      TrimmedHost(s, acting, newSize, h, c, j);
      if Past(c, j, newSize) {
        NotBeyond(s', h, c, j);
        NotBeyond(s, h, c, j);
      }
    }
  }

  lemma NotBeyond(s: Store, h: nat, c: nat, j: nat)
    ensures !StoredAt(s, h, c, j) ==> Byte(DirOf(s, h), c, j) == 0
  {
  }

  /** The client's call cuts the file, on every host, if its last chunk comes out right and every
      host it contacts answers and can do it. */
  lemma TruncateCutsTheFile(s: Store, locate: (nat, nat) -> nat, replicas: nat, live: Holders, f: File, current: nat,
                            newSize: nat, fate: nat -> Fate)
    requires newSize < current && (current - newSize - 1) / CHUNK == (current - 1) / CHUNK
    requires WellPlaced(s, locate, replicas, current) && Represents(s, locate, replicas, live, f)
    requires AllCarried(s, Contacted(locate, replicas, current, newSize), newSize, fate)
    ensures var s' := AfterTruncate(s, Acting(locate, replicas, current, newSize, fate), newSize);
            Represents(s', locate, replicas, live, Cut(f, newSize)) && forall h: nat :: !Beyond(s', h, newSize)
  {
    hide Trimmed, Truncatable, AfterTruncate, Represents, StoredAt, Contacted;
    var acting := Acting(locate, replicas, current, newSize, fate);
    forall h: nat | Beyond(s, h, newSize)
      ensures acting(h) && Truncatable(s, h, newSize)
    {
      var c: nat, j: nat :| Past(c, j, newSize) && StoredAt(s, h, c, j);
      assert HoldsCopy(locate, replicas, c, h);
      var copy: nat :| copy <= replicas && h == locate(c, copy);
      NeededIsContacted(locate, replicas, current, newSize, copy, c, j);
      assert Carried(s, h, newSize, fate);
    }
    hide Beyond;
    NothingBeyondIff(s, acting, newSize);
    TruncateRefines(s, locate, replicas, live, f, acting, newSize);
  }

  /** So a truncation after any history of writes, by a client that knows their reach, cuts the flat
      file of the copies that missed nothing, and leaves nothing beyond the cut on any host. */
  lemma TruncateAfterHistory(stores: seq<Store>, edits: seq<Edit>, ups: seq<Up>, locate: (nat, nat) -> nat,
                             replicas: nat, newSize: nat, fate: nat -> Fate)
    requires History(stores, edits, ups, locate, replicas)
    requires var current := Extent(edits);
             && newSize < current && (current - newSize - 1) / CHUNK == (current - 1) / CHUNK
             && AllCarried(stores[|edits|], Contacted(locate, replicas, current, newSize), newSize, fate)
    ensures var s' := AfterTruncate(stores[|edits|], Acting(locate, replicas, Extent(edits), newSize, fate), newSize);
            && |edits| == |ups| && ValidEdits(edits)
            && Represents(s', locate, replicas, UpToDate(edits, ups, locate, replicas), Cut(Contents(edits), newSize))
            && forall h: nat :: !Beyond(s', h, newSize)
  {
    hide History, Represents, WellPlaced, Extent, Contents, Current, AfterTruncate, AllCarried, Contacted, Beyond;
    hide Stores;
    HistoryShape(stores, edits, ups, locate, replicas);
    HistoryRepresents(stores, edits, ups, locate, replicas);
    HistoryIsWellPlaced(stores, edits, ups, locate, replicas, |edits|);
    assert edits[..|edits|] == edits;
    TruncateCutsTheFile(stores[|edits|], locate, replicas, UpToDate(edits, ups, locate, replicas), Contents(edits),
                        Extent(edits), newSize, fate);
  }

  lemma NeededIsContacted(locate: (nat, nat) -> nat, replicas: nat, current: nat, newSize: nat, copy: nat, c: nat,
                          i: nat)
    requires newSize < current && (current - newSize - 1) / CHUNK == (current - 1) / CHUNK
    requires copy <= replicas && i < CHUNK && newSize <= c * CHUNK + i < current
    ensures locate(c, copy) in Contacted(locate, replicas, current, newSize)
  {
    assert newSize / CHUNK <= c <= (current - 1) / CHUNK;
  }

  /** A host that serves carries the request out if it has a directory for the file, and either the
      cut falls between chunks or it has the chunk of the cut. */
  lemma CarriedIff(s: Store, h: nat, newSize: nat, fate: nat -> Fate)
    ensures Carried(s, h, newSize, fate) <==>
            fate(h).Serves? && h in s && (newSize % CHUNK != 0 ==> newSize / CHUNK in DirOf(s, h))
  {
  }

  /** A cut inside a chunk cannot be carried out by a host without that chunk: whatever it has
      beyond the cut stays, and the client reports an error if it contacts it. */
  lemma CutInsideChunkLeavesOthers(s: Store, acting: Hosts, newSize: nat, h: nat)
    requires newSize % CHUNK != 0 && newSize / CHUNK !in DirOf(s, h) && Beyond(s, h, newSize)
    ensures Beyond(AfterTruncate(s, acting, newSize), h, newSize)
    ensures forall fate: nat -> Fate :: !Carried(s, h, newSize, fate)
  {
    hide Beyond, Trimmed;
    BeyondAfter(s, acting, newSize, h);
  }
}
