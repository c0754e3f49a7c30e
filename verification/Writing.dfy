/** `forward_write` and the data part of `gkfs_do_write` end to end: planning, requests, the daemons'
    handlers, the chunk files and the collecting of answers, with hosts that may fail. */
module Writing {
  import opened Common
  import opened Wire
  import opened Chunks
  import opened Planning
  import opened Daemon
  import opened ChunkStore
  import opened DataPath
  import opened Transfers

  lemma DispatchedIsSound(reqs: seq<Request>, t: Targets, r: Range, i: nat, wide: bool)
    requires r.Valid() && Dispatched(reqs, t, r, wide) && Count(r) <= UINT16 && i < |reqs|
    ensures Sound(reqs[i], t, r) && ChunksOf(t, r, reqs[i].host) != []
  {
    hide ChunksOf, Discounted, BitsOf;
    assert Describes(reqs[i], r, ChunksOf(t, r, reqs[i].host), wide);
  }

  ghost predicate Asked(reqs: seq<Request>, n: nat, h: nat)
    requires n <= |reqs|
  {
    exists i :: 0 <= i < n && reqs[i].host == h
  }

  lemma AskedNext(reqs: seq<Request>, t: Targets, r: Range, i: nat, wide: bool)
    requires r.Valid() && Dispatched(reqs, t, r, wide) && i < |reqs|
    ensures !Asked(reqs, i, reqs[i].host)
    ensures forall h :: Asked(reqs, i + 1, h) <==> Asked(reqs, i, h) || h == reqs[i].host
  {
    hide ChunksOf, Describes;
  }

  lemma AskedIff(reqs: seq<Request>, t: Targets, r: Range, h: nat, wide: bool)
    requires r.Valid() && Dispatched(reqs, t, r, wide)
    ensures Asked(reqs, |reqs|, h) <==> ChunksOf(t, r, h) != []
  {
    hide ChunksOf, Discounted, BitsOf;
    if Asked(reqs, |reqs|, h) {
      var i :| 0 <= i < |reqs| && reqs[i].host == h;
      assert Describes(reqs[i], r, ChunksOf(t, r, reqs[i].host), wide);
    }
  }

  /** The hosts that carry out their part of a write: those that stay up, and whose pieces all lie
      within the client's buffer. */
  ghost function Carrying(fate: nat -> Fate, t: Targets, r: Range): Hosts
    requires r.Valid()
  {
    (h: nat) => fate(h).Serves? && Excess(t, r, h) == 0
  }

  /** The hosts that answer without error: those that stay up, and are sent no chunk twice. */
  ghost function Answering(fate: nat -> Fate, t: Targets, r: Range): Hosts
    requires r.Valid()
  {
    (h: nat) => fate(h).Serves? && Reported(t, r, h) == 0
  }

  lemma AnsweringIff(fate: nat -> Fate, t: Targets, r: Range, h: nat)
    requires r.Valid()
    ensures Answering(fate, t, r)(h) <==> fate(h).Serves? && NoDup(ChunksOf(t, r, h))
    ensures Answering(fate, t, r)(h) ==> Carrying(fate, t, r)(h)
  {
    hide Excess, ChunksOf, NoDup;
    if NoDup(ChunksOf(t, r, h)) {
      PullsAll(t, r, h);
    }
  }

  // ---------------------------------------------------------------- what a host leaves behind

  lemma PullableIsListed(t: Targets, r: Range, h: nat, c: nat)
    requires r.Valid()
    ensures c in Pullable(t, r, h) ==> c in ChunksOf(t, r, h)
    ensures Excess(t, r, h) == 0 ==> (c in Pullable(t, r, h) <==> c in ChunksOf(t, r, h))
  {
    hide Seen, HostChunks, Excess, Range.First, Range.Last;
    SeenMembers(t, h, r.First(), r.Last() + 1, c);
    HostChunksMembers(t, h, r.First(), r.Last() + 1, c);
  }

  /** A chunk file after some of the writes of a schedule. */
  lemma SomeApplied(d: Dir, ws: seq<Write>, n: nat, r: Range, buf: seq<byte>, chunks: seq<nat>, c: nat)
    requires r.Valid() && |buf| == r.size && n <= |ws| && Schedule(ws, r, buf, chunks)
    ensures Extended(d, Apply(d, ws[..n]), r, c)
    ensures c !in chunks ==> FileOf(Apply(d, ws[..n]), c) == FileOf(d, c)
  {
    hide Apply, Range.First, Range.Last;
    assert forall i | 0 <= i < n :: ws[..n][i] == ws[i];
    if k :| 0 <= k < n && ws[k].chunk == c {
      ApplyAt(d, ws[..n], k);
      ChunkPiece(r, c);
      hide Pwrite, Schedule;
      PwriteEnd(FileOf(d, c), ws[k].data, ws[k].at);
    } else {
      ApplyElsewhere(d, ws[..n], c);
    }
  }

  lemma PwriteEnd(file: seq<byte>, data: seq<byte>, at: nat)
    ensures |Pwrite(file, data, at)| <= |file| || |Pwrite(file, data, at)| == at + |data|
  {
  }

  /** A host that has done the first `n` of its writes. */
  lemma PartlyDone(d: Dir, ws: seq<Write>, n: nat, t: Targets, r: Range, buf: seq<byte>, h: nat)
    requires r.Valid() && |buf| == r.size && n <= |ws| && Schedule(ws, r, buf, Pullable(t, r, h))
    ensures Spared(d, Apply(d, ws[..n]), r, ChunksOf(t, r, h))
    ensures n == |ws| && Excess(t, r, h) == 0 ==> Applied(d, Apply(d, ws[..n]), r, buf, ChunksOf(t, r, h))
  {
    hide Apply, Pullable, ChunksOf, Excess, Schedule, Extended;
    forall c: nat
      ensures if c in ChunksOf(t, r, h) then Extended(d, Apply(d, ws[..n]), r, c)
              else FileOf(Apply(d, ws[..n]), c) == FileOf(d, c)
    {
      PullableIsListed(t, r, h, c);
      SomeApplied(d, ws, n, r, buf, Pullable(t, r, h), c);
    }
    if n == |ws| && Excess(t, r, h) == 0 {
      assert ws[..n] == ws;
      forall c: nat
        ensures c in Pullable(t, r, h) <==> c in ChunksOf(t, r, h)
      {
        PullableIsListed(t, r, h, c);
      }
      SameSchedule(ws, r, buf, Pullable(t, r, h), ChunksOf(t, r, h));
    }
  }

  lemma SameSchedule(ws: seq<Write>, r: Range, buf: seq<byte>, a: seq<nat>, b: seq<nat>)
    requires r.Valid() && |buf| == r.size && Schedule(ws, r, buf, a) && forall c: nat :: c in a <==> c in b
    ensures Schedule(ws, r, buf, b)
  {
    hide WriteOf, Range.First, Range.Last;
  }

  /** The hosts asked so far have done their part as far as they could, the others have not
      changed. */
  ghost predicate Partly(s: Store, s': Store, t: Targets, r: Range, buf: seq<byte>, live: Hosts, reqs: seq<Request>,
                         n: nat)
    requires r.Valid() && |buf| == r.size && n <= |reqs|
  {
    forall h: nat ::
      if Asked(reqs, n, h) then Part(s, s', t, r, buf, live, h) else DirOf(s', h) == DirOf(s, h)
  }

  ghost predicate Part(s: Store, s': Store, t: Targets, r: Range, buf: seq<byte>, live: Hosts, h: nat)
    requires r.Valid() && |buf| == r.size
  {
    && Spared(DirOf(s, h), DirOf(s', h), r, ChunksOf(t, r, h))
    && (live(h) ==> Applied(DirOf(s, h), DirOf(s', h), r, buf, ChunksOf(t, r, h)))
  }

  lemma OneHostMore(s: Store, s': Store, t: Targets, r: Range, buf: seq<byte>, live: Hosts, reqs: seq<Request>,
                    n: nat, d: Dir)
    requires r.Valid() && |buf| == r.size && n < |reqs| && Dispatched(reqs, t, r, false)
    requires Partly(s, s', t, r, buf, live, reqs, n)
    requires var h := reqs[n].host;
             && Spared(DirOf(s', h), d, r, ChunksOf(t, r, h))
             && (live(h) ==> Applied(DirOf(s', h), d, r, buf, ChunksOf(t, r, h)))
    ensures Partly(s, s'[reqs[n].host := d], t, r, buf, live, reqs, n + 1)
  {
    hide Spared, Applied, ChunksOf, Asked, Dispatched;
    AskedNext(reqs, t, r, n, false);
    var h, u := reqs[n].host, s'[reqs[n].host := d];
    forall x: nat
      ensures if Asked(reqs, n + 1, x) then Part(s, u, t, r, buf, live, x) else DirOf(u, x) == DirOf(s, x)
    {
      if x != h {
        assert DirOf(u, x) == DirOf(s', x);
      }
    }
  }

  lemma AllHostsDone(s: Store, s': Store, t: Targets, r: Range, buf: seq<byte>, live: Hosts, reqs: seq<Request>)
    requires r.Valid() && |buf| == r.size && Dispatched(reqs, t, r, false)
    requires Partly(s, s', t, r, buf, live, reqs, |reqs|)
    ensures Written(s, s', t, r, buf, live)
  {
    hide ChunksOf, Asked, Dispatched, Spared, Applied;
    forall h: nat
      ensures Spared(DirOf(s, h), DirOf(s', h), r, ChunksOf(t, r, h))
      ensures live(h) ==> Applied(DirOf(s, h), DirOf(s', h), r, buf, ChunksOf(t, r, h))
    {
      AskedIff(reqs, t, r, h, false);
      if !Asked(reqs, |reqs|, h) {
        Idle(DirOf(s, h), r, buf);
      }
    }
  }

  lemma Idle(d: Dir, r: Range, buf: seq<byte>)
    requires r.Valid() && |buf| == r.size
    ensures Spared(d, d, r, []) && Applied(d, d, r, buf, [])
  {
    assert Schedule([], r, buf, []);
    assert d == Apply(d, []);
  }

  // ---------------------------------------------------------------- the calls

  /** What the client hears from one host. */
  function ReplyOf(fate: Fate, err: int, ioSize: nat): Reply {
    match fate
    case Serves => Answer(err, ioSize)
    case Fails(e, _) => Answer(e, 0)
    case Vanishes(_) => Lost
  }

  ghost predicate Errors(fate: nat -> Fate) {
    forall h: nat :: fate(h).Fails? ==> fate(h).err != 0
  }

  /** Every host that is sent something has served it. */
  ghost predicate Complete(live: Hosts, t: Targets, r: Range)
    requires r.Valid()
  {
    forall h: nat | ChunksOf(t, r, h) != [] :: live(h)
  }

  /** The errors of the hosts of a write. */
  ghost function WriteErrors(fate: nat -> Fate, t: Targets, r: Range): nat -> int
    requires r.Valid()
  {
    (h: nat) => HostError(fate(h), Reported(t, r, h))
  }

  /** The answers of the first `n` hosts. */
  ghost predicate Heard(replies: seq<Reply>, fate: nat -> Fate, t: Targets, r: Range, reqs: seq<Request>)
    requires r.Valid() && |replies| <= |reqs|
  {
    forall i | 0 <= i < |replies| ::
      && (replies[i].Answer? && replies[i].err == 0 <==> Answering(fate, t, r)(reqs[i].host))
      && (replies[i].Answer? && replies[i].err == 0 ==> replies[i].ioSize == Bytes(r, Own(t, r, reqs[i].host)))
      && ErrorOf(replies[i]) == WriteErrors(fate, t, r)(reqs[i].host)
  }

  lemma HeardFromAll(replies: seq<Reply>, fate: nat -> Fate, t: Targets, r: Range, reqs: seq<Request>)
    requires r.Valid() && |replies| == |reqs| && Heard(replies, fate, t, r, reqs) && Dispatched(reqs, t, r, false)
    ensures AllAnswered(replies) <==> Complete(Answering(fate, t, r), t, r)
  {
    hide ChunksOf, Answering, Dispatched, Bytes, Own;
    if AllAnswered(replies) {
      forall h: nat | ChunksOf(t, r, h) != []
        ensures Answering(fate, t, r)(h)
      {
        AskedIff(reqs, t, r, h, false);
        var i :| 0 <= i < |reqs| && reqs[i].host == h;
        assert replies[i].Answer?;
      }
    }
    if Complete(Answering(fate, t, r), t, r) {
      forall i | 0 <= i < |replies|
        ensures replies[i].Answer? && replies[i].err == 0
      {
        assert Asked(reqs, |reqs|, reqs[i].host);
        AskedIff(reqs, t, r, reqs[i].host, false);
      }
    }
  }

  /** `forward_write`, end to end. The error is zero exactly when every host that is sent something
      stays up and is sent no chunk twice, and otherwise that of the last host that fails; a host that
      stays up may have done its part all the same. */
  method ForwardWrite(s: Store, locate: (nat, nat) -> nat, copies: nat, r: Range, buf: seq<byte>, fate: nat -> Fate)
    returns (err: int, written: nat, s': Store)
    requires r.Valid() && |buf| == r.size && Count(r) <= UINT16 && Errors(fate)
    ensures var t := WriteTargets(locate, copies);
            && Written(s, s', t, r, buf, Carrying(fate, t, r))
            && (err == 0 <==> Complete(Answering(fate, t, r), t, r))
            && (err != 0 ==> exists h: nat :: LastFailing(WriteErrors(fate, t, r), t, r, h) &&
                                              err == WriteErrors(fate, t, r)(h))
    ensures written == if err == 0 then r.size else 0
  {
    hide Dispatched, Written, Partly, Heard, Sound, Schedule, Apply, ChunksOf, Asked, Complete, AllAnswered, SumIo;
    hide Range.First, Range.Last, Pullable, Own, Bytes, Excess, Reported, WriteErrors, LastFailing, LastError;
    ghost var t := WriteTargets(locate, copies);
    ghost var live := Carrying(fate, t, r);
    hide WriteTargets;
    var reqs := WriteRequests(locate, copies, r);
    s' := s;
    var replies: seq<Reply> := [];
    NobodyYet(s, t, r, buf, live, reqs, fate);
    for i := 0 to |reqs|
      invariant Partly(s, s', t, r, buf, live, reqs, i)
      invariant |replies| == i && Heard(replies, fate, t, r, reqs)
    {
      var h := reqs[i].host;
      DispatchedIsSound(reqs, t, r, i, false);
      var e, io, ws := ServeWrite(reqs[i], buf, t, r);
      var done := Done(fate(h), ws);
      HostDone(DirOf(s', h), ws, fate(h), t, r, buf, h);
      OneHostMore(s, s', t, r, buf, live, reqs, i, Apply(DirOf(s', h), done));
      s' := s'[h := Apply(DirOf(s', h), done)];
      HeardOneMore(replies, fate, t, r, reqs, e, io);
      replies := replies + [ReplyOf(fate(h), e, io)];
    }
    AllHostsDone(s, s', t, r, buf, live, reqs);
    HeardFromAll(replies, fate, t, r, reqs);
    err, written := CollectWrite(replies, copies, r.size);
    if err != 0 {
      HeardErrors(replies, fate, t, r, reqs);
      CollectedError(reqs, replies, t, r, false, WriteErrors(fate, t, r), err);
    }
    if err == 0 && copies == 0 {
      PrimarySizes(locate, r, fate, replies, reqs);
    }
  }

  lemma HeardErrors(replies: seq<Reply>, fate: nat -> Fate, t: Targets, r: Range, reqs: seq<Request>)
    requires r.Valid() && |replies| == |reqs| && Heard(replies, fate, t, r, reqs)
    ensures forall i | 0 <= i < |reqs| :: ErrorOf(replies[i]) == WriteErrors(fate, t, r)(reqs[i].host)
  {
    hide WriteErrors, Answering, Bytes, Own;
  }

  lemma HostDone(d: Dir, ws: seq<Write>, fate: Fate, t: Targets, r: Range, buf: seq<byte>, h: nat)
    requires r.Valid() && |buf| == r.size && Schedule(ws, r, buf, Pullable(t, r, h))
    ensures Spared(d, Apply(d, Done(fate, ws)), r, ChunksOf(t, r, h))
    ensures fate.Serves? && Excess(t, r, h) == 0 ==>
              Applied(d, Apply(d, Done(fate, ws)), r, buf, ChunksOf(t, r, h))
  {
    hide Apply, Schedule, Pullable, ChunksOf, Excess, Spared, Applied;
    PartlyDone(d, ws, |Done(fate, ws)|, t, r, buf, h);
    assert ws[..|ws|] == ws;
  }

  lemma NobodyYet(s: Store, t: Targets, r: Range, buf: seq<byte>, live: Hosts, reqs: seq<Request>, fate: nat -> Fate)
    requires r.Valid() && |buf| == r.size
    ensures Partly(s, s, t, r, buf, live, reqs, 0) && Heard([], fate, t, r, reqs)
  {
  }

  lemma HeardOneMore(replies: seq<Reply>, fate: nat -> Fate, t: Targets, r: Range, reqs: seq<Request>, e: int, io: nat)
    requires r.Valid() && |replies| < |reqs| && Heard(replies, fate, t, r, reqs) && Errors(fate)
    requires var h := reqs[|replies|].host;
             && e == Reported(t, r, h)
             && io == if e == 0 then Bytes(r, Own(t, r, h)) else 0
    ensures Heard(replies + [ReplyOf(fate(reqs[|replies|].host), e, io)], fate, t, r, reqs)
  {
    hide Reported, Own, Bytes;
    var more := replies + [ReplyOf(fate(reqs[|replies|].host), e, io)];
    assert forall i | 0 <= i < |replies| :: more[i] == replies[i];
  }

  lemma PrimaryIsDistinct(locate: (nat, nat) -> nat, w: Range)
    requires w.Valid()
    ensures Distinct(WriteTargets(locate, 0), w)
    ensures forall c: nat :: |WriteTargets(locate, 0)(c)| == 1
  {
    forall c: nat
      ensures NoDup(WriteTargets(locate, 0)(c)) && |WriteTargets(locate, 0)(c)| == 1
    {
      CopyHostsAt(locate, 0, c);
    }
  }

  /** When all primaries serve, the sizes they report add up to the request. */
  lemma PrimarySizes(locate: (nat, nat) -> nat, r: Range, fate: nat -> Fate, replies: seq<Reply>, reqs: seq<Request>)
    requires r.Valid() && |replies| == |reqs| && AllAnswered(replies)
    requires var t := WriteTargets(locate, 0); Dispatched(reqs, t, r, false) && Heard(replies, fate, t, r, reqs)
    ensures SumIo(replies) == r.size
  {
    hide WriteTargets, Dispatched, SumIo, HostChunks, Own, Bytes, Held, Range.First, Range.Last, Reported;
    var t := WriteTargets(locate, 0);
    PrimaryIsDistinct(locate, r);
    forall i | 0 <= i < |reqs|
      ensures replies[i].Answer? && replies[i].ioSize == reqs[i].total
    {
      HostChunksOnce(t, reqs[i].host, r, r.Last() + 1);
      OwnIsListed(t, r, reqs[i].host);
      TotalsAreExact(reqs, t, r, i, false);
    }
    FullTransferReturnsSize(reqs, replies, t, r, false);
  }

  // ---------------------------------------------------------------- when a call can succeed

  ghost predicate AllServe(fate: nat -> Fate) {
    forall h: nat :: fate(h).Serves?
  }

  /** A call succeeds with all hosts up if and only if the distributor puts the copies asked for on
      distinct hosts; otherwise it fails whatever the hosts do. */
  lemma SucceedsIff(fate: nat -> Fate, t: Targets, r: Range)
    requires r.Valid()
    ensures AllServe(fate) ==> (Complete(Answering(fate, t, r), t, r) <==> Distinct(t, r))
    ensures !Distinct(t, r) ==> !Complete(Answering(fate, t, r), t, r)
  {
    hide ChunksOf, Answering, Distinct, NoDup;
    DistinctIff(t, r);
    forall h: nat
      ensures Answering(fate, t, r)(h) <==> fate(h).Serves? && NoDup(ChunksOf(t, r, h))
      ensures ChunksOf(t, r, h) == [] ==> NoDup(ChunksOf(t, r, h))
    {
      AnsweringIff(fate, t, r, h);
      EmptyNoDup();
    }
    if !Distinct(t, r) {
      var h: nat :| !NoDup(ChunksOf(t, r, h));
      assert ChunksOf(t, r, h) != [] && !Answering(fate, t, r)(h);
    }
  }

  lemma EmptyNoDup()
    ensures NoDup<nat>([])
  {
  }

  /** Two replicas on one host: it writes all it is sent, and the call still fails. */
  lemma WrittenButFailed(h: nat, size: nat, fate: nat -> Fate)
    requires 0 < size <= CHUNK && AllServe(fate)
    ensures var r, t := Range(0, size), WriteTargets((c, k) => h, 2);
            && r.Valid()
            && Complete(Carrying(fate, t, r), t, r)
            && !Complete(Answering(fate, t, r), t, r) && Reported(t, r, h) == EIO
  {
    var r, t := Range(0, size), WriteTargets((c, k) => h, 2);
    DuplicateCopiesOvercount(h, size);
    assert r.First() == r.Last() == 0;
    hide ChunksOf, WriteTargets;
    assert forall x: nat :: Excess(t, r, x) == 0;
    assert ChunksOf(t, r, h)[0] == ChunksOf(t, r, h)[1];
    assert Reported(t, r, h) == EIO;
  }

  // ---------------------------------------------------------------- gkfs_do_write

  /** The size is kept in an `int`: it is the one written if and only if that is less than 2 GiB. */
  lemma ReturnedIff(size: nat)
    ensures ToInt32(size) == size <==> size < 0x8000_0000
    ensures 0x8000_0000 <= size < 0x1_0000_0000 ==> ToInt32(size) < 0
  {
  }

  /** The data part of `gkfs_do_write`: the primary copies, then the replicas; an error of the
      first call is forgiven if the second has none. It succeeds exactly when all primaries, or all
      replicas, have answered without error; a write of 2 GiB or more then returns another size.
      Otherwise the error is that of the last primary that fails. */
  method DoWrite(s: Store, locate: (nat, nat) -> nat, replicas: nat, w: Range, data: seq<byte>, fate1: nat -> Fate,
                 fate2: nat -> Fate)
    returns (err: int, written: int, s': Store)
    requires w.Valid() && |data| == w.size && Count(w) <= UINT16 && Errors(fate1) && Errors(fate2)
    ensures var t1, t2 := WriteTargets(locate, 0), WriteTargets(locate, replicas);
            && WrittenToAll(s, s', locate, replicas, w, data, Carrying(fate1, t1, w), Carrying(fate2, t2, w))
            && (err == 0 <==> Complete(Answering(fate1, t1, w), t1, w)
                              || (replicas > 0 && Complete(Answering(fate2, t2, w), t2, w)))
            && (err != 0 ==> exists h: nat :: LastFailing(WriteErrors(fate1, t1, w), t1, w, h) &&
                                              err == WriteErrors(fate1, t1, w)(h))
    ensures err == 0 ==> (written == w.size <==> w.size < 0x8000_0000)
    ensures written == if err == 0 then ToInt32(w.size) else -1
  {
    hide Written, WriteTargets, Complete, Carrying, Answering, Errors, ToInt32, Range.First, Range.Last;
    hide WriteErrors, LastFailing;
    ReturnedIff(w.size);
    var size, mid;
    err, size, mid := ForwardWrite(s, locate, 0, w, data, fate1);
    s' := mid;
    written := ToInt32(size);
    if replicas > 0 {
      var err2, size2;
      err2, size2, s' := ForwardWrite(mid, locate, replicas, w, data, fate2);
      if err != 0 && err2 == 0 {
        err := err2;
        written := ToInt32(size2);
      }
    }
    if err != 0 {
      written := -1;
    }
  }

  /** A write of 3 GiB that every host has served returns a negative number. */
  method LargeWrite(s: Store, locate: (nat, nat) -> nat, data: seq<byte>, fate: nat -> Fate)
    returns (err: int, written: int, s': Store)
    requires |data| == 0xc000_0000 && AllServe(fate)
    ensures err == 0 && written == -0x4000_0000
  {
    var w := Range(0, |data|);
    LargeRange(w);
    SucceedsIff(fate, WriteTargets(locate, 0), w);
    PrimaryIsDistinct(locate, w);
    hide WriteTargets, Complete, Carrying, Answering, Range.First, Range.Last, Distinct, Count;
    err, written, s' := DoWrite(s, locate, 0, w, data, fate, fate);
  }

  lemma LargeRange(w: Range)
    requires w == Range(0, 0xc000_0000)
    ensures w.Valid() && Count(w) <= UINT16
  {
  }
}
