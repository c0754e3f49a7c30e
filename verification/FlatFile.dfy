/** The distributed chunk store refines one flat file: what a write leaves on the hosts that serve
    it, and what reads after any history of writes return. */
module FlatFile {
  import opened Common
  import opened Wire
  import opened Chunks
  import opened Planning
  import opened Daemon
  import opened ChunkStore
  import opened DataPath

  /** The bytes of a file; what was never written is zero. */
  type File = nat -> byte

  function Overwrite(f: File, w: Range, data: seq<byte>): File
    requires |data| == w.size
  {
    (pos: nat) => if w.offset <= pos < w.End() then data[pos - w.offset] else f(pos)
  }

  /** A set of copies: the chunk and its host. */
  type Holders = (nat, nat) -> bool

  /** Every live copy holds the file's bytes of its chunk. */
  ghost predicate Represents(s: Store, locate: (nat, nat) -> nat, replicas: nat, live: Holders, f: File) {
    forall c: nat, copy: nat, j: nat | copy <= replicas && j < CHUNK && live(c, locate(c, copy)) ::
      HoldsByte(s, locate(c, copy), c, j, f)
  }

  ghost predicate HoldsByte(s: Store, h: nat, c: nat, j: nat, f: File) {
    Byte(DirOf(s, h), c, j) == f(c * CHUNK + j)
  }

  /** A write turns the flat file of the copies whose hosts serve the calls that concern them into
      the overwritten one, whatever becomes of the other copies. */
  lemma WriteRefines(s: Store, s': Store, locate: (nat, nat) -> nat, replicas: nat, live: Holders, f: File,
                     w: Range, data: seq<byte>, first: Hosts, second: Hosts)
    requires w.Valid() && |data| == w.size
    requires forall c: nat, h: nat | live(c, h) && w.Touches(c) :: Wrote(first, second, locate, replicas, c, h)
    requires Represents(s, locate, replicas, live, f) && WrittenToAll(s, s', locate, replicas, w, data, first, second)
    ensures Represents(s', locate, replicas, live, Overwrite(f, w, data))
  {
    hide WrittenToAll, Byte;
    forall c: nat, copy: nat, j: nat | copy <= replicas && j < CHUNK && live(c, locate(c, copy))
      ensures HoldsByte(s', locate(c, copy), c, j, Overwrite(f, w, data))
    {
      assert HoldsByte(s, locate(c, copy), c, j, f);
      assert HoldsCopy(locate, replicas, c, locate(c, copy));
      CopyIsOverwritten(s, s', locate, replicas, w, data, first, second, locate(c, copy), c, j);
    }
  }

  // ---------------------------------------------------------------- one copy through a history

  datatype Edit = Edit(range: Range, data: seq<byte>)

  /** The hosts that served the two calls of a write. */
  datatype Up = Up(first: Hosts, second: Hosts)

  predicate ValidEdit(e: Edit) {
    e.range.Valid() && |e.data| == e.range.size
  }

  ghost predicate ValidEdits(edits: seq<Edit>) {
    forall i | 0 <= i < |edits| :: ValidEdit(edits[i])
  }

  /** The flat file after a history of writes. */
  ghost function Contents(edits: seq<Edit>): File
    requires ValidEdits(edits)
  {
    if edits == [] then (pos: nat) => 0
    else
      var n := |edits| - 1;
      assert ValidEdit(edits[n]);
      Overwrite(Contents(edits[..n]), edits[n].range, edits[n].data)
  }

  /** Stores between writes, starting with no chunk anywhere. Each write has its own hosts that
      serve it: a host may fail between writes or between the two calls of one, and come back. */
  ghost predicate History(stores: seq<Store>, edits: seq<Edit>, ups: seq<Up>, locate: (nat, nat) -> nat,
                          replicas: nat)
  {
    && |stores| == |edits| + 1 && |ups| == |edits| && stores[0] == map[] && ValidEdits(edits)
    && forall i | 0 <= i < |edits| :: ServedEdit(stores[i], stores[i + 1], edits[i], ups[i], locate, replicas)
  }

  ghost predicate ServedEdit(s: Store, s': Store, e: Edit, up: Up, locate: (nat, nat) -> nat, replicas: nat) {
    ValidEdit(e) && WrittenToAll(s, s', locate, replicas, e.range, e.data, up.first, up.second)
  }

  /** Host `h` has served, of the first `n` writes, all those that touch chunk `c`. */
  ghost predicate Current(edits: seq<Edit>, ups: seq<Up>, locate: (nat, nat) -> nat, replicas: nat, n: nat, c: nat,
                          h: nat)
    requires n <= |edits| == |ups| && ValidEdits(edits)
  {
    forall i | 0 <= i < n :: MissedNothing(edits[i], ups[i], locate, replicas, c, h)
  }

  ghost predicate MissedNothing(e: Edit, up: Up, locate: (nat, nat) -> nat, replicas: nat, c: nat, h: nat)
    requires ValidEdit(e)
  {
    e.range.Touches(c) ==> Wrote(up.first, up.second, locate, replicas, c, h)
  }

  lemma PrefixValid(edits: seq<Edit>, n: nat)
    requires ValidEdits(edits) && n <= |edits|
    ensures ValidEdits(edits[..n])
    ensures n > 0 ==> edits[..n][..n - 1] == edits[..n - 1] && edits[..n][n - 1] == edits[n - 1]
  {
  }

  /** A current copy holds the flat file's bytes of its chunk, after every write. */
  lemma {:induction false} CurrentCopyIsFlat(stores: seq<Store>, edits: seq<Edit>, ups: seq<Up>,
                                             locate: (nat, nat) -> nat, replicas: nat, n: nat, c: nat, h: nat, j: nat)
    requires History(stores, edits, ups, locate, replicas) && n <= |edits| && ValidEdits(edits[..n])
    requires HoldsCopy(locate, replicas, c, h) && Current(edits, ups, locate, replicas, n, c, h) && j < CHUNK
    ensures Byte(DirOf(stores[n], h), c, j) == Contents(edits[..n])(c * CHUNK + j)
  {
    hide WrittenToAll, HoldsCopy, Wrote, Byte;
    PrefixValid(edits, n);
    if n > 0 {
      var m := n - 1;
      PrefixValid(edits, m);
      CurrentCopyIsFlat(stores, edits, ups, locate, replicas, m, c, h, j);
      assert ServedEdit(stores[m], stores[m + 1], edits[m], ups[m], locate, replicas);
      assert MissedNothing(edits[m], ups[m], locate, replicas, c, h);
      CopyIsOverwritten(stores[m], stores[n], locate, replicas, edits[m].range, edits[m].data, ups[m].first,
                        ups[m].second, h, c, j);
    } else {
      NothingStored(h, c, j);
    }
  }

  lemma NothingStored(h: nat, c: nat, j: nat)
    ensures Byte(DirOf(map[], h), c, j) == 0
  {
  }

  /** Some write of the history covers `pos`. */
  ghost predicate Touched(edits: seq<Edit>, pos: nat) {
    exists i :: 0 <= i < |edits| && edits[i].range.offset <= pos < edits[i].range.End()
  }

  lemma PwriteLength(file: seq<byte>, data: seq<byte>, at: nat)
    ensures |Pwrite(file, data, at)| >= |file|
  {
  }

  /** A write shortens no chunk file of a host that serves it, nor of one it does not concern. */
  lemma FilesNeverShrink(s: Store, s': Store, t: Targets, r: Range, buf: seq<byte>, live: Hosts, h: nat, c: nat)
    requires r.Valid() && |buf| == r.size && Written(s, s', t, r, buf, live)
    requires live(h) || !(r.Touches(c) && h in t(c))
    ensures |FileOf(DirOf(s', h), c)| >= |FileOf(DirOf(s, h), c)|
  {
    hide HostChunks, Apply, Pwrite, WriteOf, Range.First, Range.Last;
    var chunks := ChunksOf(t, r, h);
    assert Spared(DirOf(s, h), DirOf(s', h), r, chunks);
    HostChunksMembers(t, h, r.First(), r.Last() + 1, c);
    if c in chunks {
      assert Applied(DirOf(s, h), DirOf(s', h), r, buf, chunks);
      var ws: seq<Write> :| Schedule(ws, r, buf, chunks) && DirOf(s', h) == Apply(DirOf(s, h), ws);
      var k :| 0 <= k < |ws| && ws[k].chunk == c;
      ApplyAt(DirOf(s, h), ws, k);
      PwriteLength(FileOf(DirOf(s, h), c), ws[k].data, ws[k].at);
    }
  }

  /** A write stores its whole range on the copies whose hosts serve it, and keeps what is stored. */
  lemma StoredAfterWrite(s: Store, s': Store, locate: (nat, nat) -> nat, replicas: nat, w: Range, data: seq<byte>,
                         first: Hosts, second: Hosts, c: nat, h: nat, j: nat)
    requires w.Valid() && |data| == w.size && WrittenToAll(s, s', locate, replicas, w, data, first, second)
    requires HoldsCopy(locate, replicas, c, h) && (w.Touches(c) ==> Wrote(first, second, locate, replicas, c, h))
    requires j < CHUNK && (w.offset <= c * CHUNK + j < w.End() || j < |FileOf(DirOf(s, h), c)|)
    ensures j < |FileOf(DirOf(s', h), c)|
  {
    hide Written, HoldsCopy, CopyHosts;
    if w.offset <= c * CHUNK + j < w.End() {
      hide WrittenToAll;
      CopyIsOverwritten(s, s', locate, replicas, w, data, first, second, h, c, j);
    } else {
      var mid :| && Written(s, mid, WriteTargets(locate, 0), w, data, first)
                 && (if replicas == 0 then s' == mid
                     else Written(mid, s', WriteTargets(locate, replicas), w, data, second));
      FilesNeverShrink(s, mid, WriteTargets(locate, 0), w, data, first, h, c);
      if replicas > 0 {
        FilesNeverShrink(mid, s', WriteTargets(locate, replicas), w, data, second, h, c);
      }
    }
  }

  /** A current copy has stored every byte of its chunk that was ever written. */
  lemma {:induction false} TouchedIsStored(stores: seq<Store>, edits: seq<Edit>, ups: seq<Up>,
                                           locate: (nat, nat) -> nat, replicas: nat, n: nat, c: nat, h: nat, j: nat)
    requires History(stores, edits, ups, locate, replicas) && n <= |edits| && Touched(edits[..n], c * CHUNK + j)
    requires HoldsCopy(locate, replicas, c, h) && Current(edits, ups, locate, replicas, n, c, h) && j < CHUNK
    ensures j < |FileOf(DirOf(stores[n], h), c)|
  {
    hide WrittenToAll, HoldsCopy, Wrote, FileOf;
    var m, pos := n - 1, c * CHUNK + j;
    var i :| 0 <= i < n && edits[..n][i].range.offset <= pos < edits[..n][i].range.End();
    assert ServedEdit(stores[m], stores[m + 1], edits[m], ups[m], locate, replicas);
    assert MissedNothing(edits[m], ups[m], locate, replicas, c, h);
    if i < m {
      assert edits[..m][i] == edits[..n][i];
      assert Touched(edits[..m], pos);
      TouchedIsStored(stores, edits, ups, locate, replicas, m, c, h, j);
    }
    StoredAfterWrite(stores[m], stores[n], locate, replicas, edits[m].range, edits[m].data, ups[m].first, ups[m].second,
                     c, h, j);
  }

  /** After any history of writes, in which hosts may fail and come back, a read of any range
      returns what one flat file would hold, in every byte that was ever written, and in the holes
      too if the buffer was zeroed: for every distributor, every order of hosts and tasklets, and
      every choice of copies whose hosts have missed no write to the chunk read from them. */
  lemma ReadsLikeOneFile(stores: seq<Store>, edits: seq<Edit>, ups: seq<Up>, locate: (nat, nat) -> nat, replicas: nat,
                         r: Range, picks: seq<nat>, ps: seq<Push>, buf: seq<byte>, i: nat)
    requires History(stores, edits, ups, locate, replicas)
    requires r.Valid() && |picks| == Count(r) && Gathered(ps, r, stores[|edits|], picks)
    requires forall k: nat | k < |picks| ::
               && HoldsCopy(locate, replicas, r.First() + k, picks[k])
               && Current(edits, ups, locate, replicas, |edits|, r.First() + k, picks[k])
    requires |buf| == r.size && i < r.size && (buf[i] == 0 || Touched(edits, r.offset + i))
    ensures forall p | p in ps :: p.origin + |p.data| <= |buf|
    ensures ApplyPushes(buf, ps)[i] == Contents(edits)(r.offset + i)
  {
    hide Gathered, ApplyPushes, HoldsCopy, Current, Contents, Touched, Range.First, Range.Last;
    var pos := r.offset + i;
    var c, j := pos / CHUNK, pos % CHUNK;
    assert pos == c * CHUNK + j;
    PositionTouches(r, c, i, j);
    ReadReturnsStoredBytes(ps, r, stores[|edits|], picks, buf, i, c, j);
    var h := picks[c - r.First()];
    assert HoldsCopy(locate, replicas, r.First() + (c - r.First()), h);
    assert edits[..|edits|] == edits;
    CurrentCopyIsFlat(stores, edits, ups, locate, replicas, |edits|, c, h, j);
    if Touched(edits, pos) {
      TouchedIsStored(stores, edits, ups, locate, replicas, |edits|, c, h, j);
    }
    hide History;
  }

  // ---------------------------------------------------------------- reading a represented file

  /** Every live copy has stored the byte at `pos`. */
  ghost predicate Stores(s: Store, locate: (nat, nat) -> nat, replicas: nat, live: Holders, pos: nat) {
    forall copy: nat | copy <= replicas && live(pos / CHUNK, locate(pos / CHUNK, copy)) ::
      pos % CHUNK < |FileOf(DirOf(s, locate(pos / CHUNK, copy)), pos / CHUNK)|
  }

  lemma StoredOnCopy(s: Store, locate: (nat, nat) -> nat, replicas: nat, live: Holders, pos: nat, h: nat)
    requires Stores(s, locate, replicas, live, pos)
    requires live(pos / CHUNK, h) && HoldsCopy(locate, replicas, pos / CHUNK, h)
    ensures pos % CHUNK < |FileOf(DirOf(s, h), pos / CHUNK)|
  {
    var copy: nat :| copy <= replicas && h == locate(pos / CHUNK, copy);
  }

  lemma LiveCopy(s: Store, locate: (nat, nat) -> nat, replicas: nat, live: Holders, f: File, c: nat, h: nat, j: nat)
    requires Represents(s, locate, replicas, live, f) && live(c, h) && HoldsCopy(locate, replicas, c, h) && j < CHUNK
    ensures Byte(DirOf(s, h), c, j) == f(c * CHUNK + j)
  {
    var copy: nat :| copy <= replicas && h == locate(c, copy);
    assert HoldsByte(s, locate(c, copy), c, j, f);
  }

  /** The copies that have missed no write of a history to their chunk. */
  ghost function UpToDate(edits: seq<Edit>, ups: seq<Up>, locate: (nat, nat) -> nat, replicas: nat): Holders
    requires |edits| == |ups| && ValidEdits(edits)
  {
    (c: nat, h: nat) => Current(edits, ups, locate, replicas, |edits|, c, h)
  }

  /** After any history of writes, the copies that missed nothing represent its flat file, and have
      stored every byte ever written. */
  lemma HistoryRepresents(stores: seq<Store>, edits: seq<Edit>, ups: seq<Up>, locate: (nat, nat) -> nat, replicas: nat)
    requires History(stores, edits, ups, locate, replicas)
    ensures var s, live := stores[|edits|], UpToDate(edits, ups, locate, replicas);
            && Represents(s, locate, replicas, live, Contents(edits))
            && forall pos: nat | Touched(edits, pos) :: Stores(s, locate, replicas, live, pos)
  {
    hide History, Current, Contents, Touched, Byte, FileOf;
    HistoryShape(stores, edits, ups, locate, replicas);
    var s, live := stores[|edits|], UpToDate(edits, ups, locate, replicas);
    assert edits[..|edits|] == edits;
    forall c: nat, copy: nat, j: nat | copy <= replicas && j < CHUNK && live(c, locate(c, copy))
      ensures HoldsByte(s, locate(c, copy), c, j, Contents(edits))
    {
      CurrentCopyIsFlat(stores, edits, ups, locate, replicas, |edits|, c, locate(c, copy), j);
    }
    forall pos: nat | Touched(edits, pos)
      ensures Stores(s, locate, replicas, live, pos)
    {
      TouchedOnAll(stores, edits, ups, locate, replicas, pos);
    }
  }

  lemma HistoryShape(stores: seq<Store>, edits: seq<Edit>, ups: seq<Up>, locate: (nat, nat) -> nat, replicas: nat)
    requires History(stores, edits, ups, locate, replicas)
    ensures |stores| == |edits| + 1 && |ups| == |edits| && ValidEdits(edits)
  {
  }

  lemma TouchedOnAll(stores: seq<Store>, edits: seq<Edit>, ups: seq<Up>, locate: (nat, nat) -> nat, replicas: nat,
                     pos: nat)
    requires History(stores, edits, ups, locate, replicas) && Touched(edits, pos)
    ensures Stores(stores[|edits|], locate, replicas, UpToDate(edits, ups, locate, replicas), pos)
  {
    hide History, Current, Touched, FileOf;
    HistoryShape(stores, edits, ups, locate, replicas);
    var c, j := pos / CHUNK, pos % CHUNK;
    assert edits[..|edits|] == edits && c * CHUNK + j == pos;
    forall copy: nat | copy <= replicas && UpToDate(edits, ups, locate, replicas)(c, locate(c, copy))
      ensures j < |FileOf(DirOf(stores[|edits|], locate(c, copy)), c)|
    {
      TouchedIsStored(stores, edits, ups, locate, replicas, |edits|, c, locate(c, copy), j);
    }
  }

  // ---------------------------------------------------------------- where chunk files lie

  /** Byte `j` of chunk `c` is stored on host `h`. */
  predicate StoredAt(s: Store, h: nat, c: nat, j: nat) {
    j < |FileOf(DirOf(s, h), c)|
  }

  /** Chunk files lie where the distributor puts them, and below the size of the file. */
  ghost predicate WellPlaced(s: Store, locate: (nat, nat) -> nat, replicas: nat, current: nat) {
    forall h: nat, c: nat, j: nat | j < CHUNK && StoredAt(s, h, c, j) ::
      c * CHUNK + j < current && HoldsCopy(locate, replicas, c, h)
  }

  /** How far the writes of a history reach. */
  ghost function Extent(edits: seq<Edit>): nat {
    if edits == [] then 0
    else
      var before, end := Extent(edits[..|edits| - 1]), edits[|edits| - 1].range.End();
      if before < end then end else before
  }

  lemma PlacedBelow(s: Store, locate: (nat, nat) -> nat, replicas: nat, n: nat, m: nat)
    requires WellPlaced(s, locate, replicas, n) && n <= m
    ensures WellPlaced(s, locate, replicas, m)
  {
    hide StoredAt, HoldsCopy;
  }

  /** A write, whichever hosts serve it, leaves the chunk files well placed. */
  lemma WriteKeepsPlaced(s: Store, s': Store, locate: (nat, nat) -> nat, copies: nat, replicas: nat, r: Range,
                         buf: seq<byte>, live: Hosts, current: nat)
    requires r.Valid() && |buf| == r.size && copies <= replicas && r.End() <= current
    requires Written(s, s', WriteTargets(locate, copies), r, buf, live) && WellPlaced(s, locate, replicas, current)
    ensures WellPlaced(s', locate, replicas, current)
  {
    hide Written, WriteTargets, StoredAt, HoldsCopy;
    forall h: nat, c: nat, j: nat | j < CHUNK && StoredAt(s', h, c, j)
      ensures c * CHUNK + j < current && HoldsCopy(locate, replicas, c, h)
    {
      WrittenAtPlace(s, s', WriteTargets(locate, copies), r, buf, live, h, c, j);
      if h in WriteTargets(locate, copies)(c) {
        TargetHolds(locate, copies, replicas, c, h);
      }
    }
  }

  /** What is stored after a write was stored before, or lies in the range on a host of its chunk. */
  lemma WrittenAtPlace(s: Store, s': Store, t: Targets, r: Range, buf: seq<byte>, live: Hosts, h: nat, c: nat, j: nat)
    requires r.Valid() && |buf| == r.size && Written(s, s', t, r, buf, live) && StoredAt(s', h, c, j)
    ensures StoredAt(s, h, c, j) || (h in t(c) && c * CHUNK + j < r.End())
  {
    hide Applied, HostChunks, Range.First, Range.Last;
    assert Spared(DirOf(s, h), DirOf(s', h), r, ChunksOf(t, r, h));
    if c in ChunksOf(t, r, h) {
      assert Extended(DirOf(s, h), DirOf(s', h), r, c);
      HostChunksMembers(t, h, r.First(), r.Last() + 1, c);
    }
  }

  lemma TargetHolds(locate: (nat, nat) -> nat, copies: nat, replicas: nat, c: nat, h: nat)
    requires copies <= replicas && h in WriteTargets(locate, copies)(c)
    ensures HoldsCopy(locate, replicas, c, h)
  {
    CopyHostsAt(locate, copies, c);
    hide CopyHosts;
    var hosts := CopyHosts(locate, copies, c);
    var j :| 0 <= j < |hosts| && hosts[j] == h;
  }

  /** After any history of writes, chunk files lie where the distributor puts them and below the
      reach of the writes, on hosts that have failed too. */
  lemma {:induction false} HistoryIsWellPlaced(stores: seq<Store>, edits: seq<Edit>, ups: seq<Up>,
                                               locate: (nat, nat) -> nat, replicas: nat, n: nat)
    requires History(stores, edits, ups, locate, replicas) && n <= |edits|
    ensures WellPlaced(stores[n], locate, replicas, Extent(edits[..n]))
  {
    hide Written, WellPlaced;
    if n == 0 {
      NothingPlaced(locate, replicas, Extent(edits[..n]));
    } else {
      var m := n - 1;
      HistoryIsWellPlaced(stores, edits, ups, locate, replicas, m);
      assert edits[..n][..m] == edits[..m] && edits[..n][m] == edits[m];
      assert ServedEdit(stores[m], stores[m + 1], edits[m], ups[m], locate, replicas);
      EditKeepsPlaced(stores[m], stores[n], edits[m], ups[m], locate, replicas, Extent(edits[..m]), Extent(edits[..n]));
    }
  }

  lemma NothingPlaced(locate: (nat, nat) -> nat, replicas: nat, n: nat)
    ensures WellPlaced(map[], locate, replicas, n)
  {
  }

  lemma EditKeepsPlaced(s: Store, s': Store, e: Edit, up: Up, locate: (nat, nat) -> nat, replicas: nat, n: nat, m: nat)
    requires ServedEdit(s, s', e, up, locate, replicas) && WellPlaced(s, locate, replicas, n)
    requires n <= m && e.range.End() <= m
    ensures WellPlaced(s', locate, replicas, m)
  {
    hide Written, WellPlaced;
    PlacedBelow(s, locate, replicas, n, m);
    var mid :| && Written(s, mid, WriteTargets(locate, 0), e.range, e.data, up.first)
               && (if replicas == 0 then s' == mid
                   else Written(mid, s', WriteTargets(locate, replicas), e.range, e.data, up.second));
    WriteKeepsPlaced(s, mid, locate, 0, replicas, e.range, e.data, up.first, m);
    if replicas > 0 {
      WriteKeepsPlaced(mid, s', locate, replicas, replicas, e.range, e.data, up.second, m);
    }
  }
}
