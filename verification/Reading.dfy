/** `forward_read` and `gkfs_do_read` end to end: choosing hosts, requests, the daemons' handlers, the
    collecting of answers, and the repetition of the whole read while hosts turn out to be down. */
module Reading {
  import opened Common
  import opened Arithmetic
  import opened Wire
  import opened Chunks
  import opened Planning
  import opened Daemon
  import opened ChunkStore
  import opened DataPath
  import opened Transfers
  import opened ReadSizes
  import opened FlatFile
  import opened Writing

  // ---------------------------------------------------------------- one round

  /** The hosts that push something before they are lost. */
  function Pushing(fate: nat -> Fate): Hosts {
    (h: nat) => fate(h) != Vanishes(0)
  }

  /** A host has pushed all it has of its chunks. */
  ghost predicate Brought(ps: seq<Push>, s: Store, t: Targets, r: Range, h: nat)
    requires r.Valid()
  {
    forall c: nat | c in ChunksOf(t, r, h) && r.Touches(c) ::
      var p := PushOf(r, DirOf(s, h), c); p.data != [] ==> p in ps
  }

  /** What the hosts asked so far have brought: their own chunks, all of them if they serve. */
  ghost predicate Collected(ps: seq<Push>, s: Store, r: Range, picks: seq<nat>, fate: nat -> Fate, reqs: seq<Request>,
                            n: nat)
    requires r.Valid() && |picks| == Count(r) && n <= |reqs|
  {
    && FromHosts(ps, r, s, picks, Pushing(fate))
    && forall h: nat | Asked(reqs, n, h) && fate(h).Serves? :: Brought(ps, s, ReadTargets(picks, r.First()), r, h)
  }

  lemma BroughtMore(ps: seq<Push>, more: seq<Push>, s: Store, t: Targets, r: Range, h: nat)
    requires r.Valid() && (Brought(ps, s, t, r, h) || Brought(more, s, t, r, h))
    ensures Brought(ps + more, s, t, r, h)
  {
    hide PushOf, ChunksOf;
  }

  lemma ServedBrings(ps: seq<Push>, s: Store, t: Targets, r: Range, h: nat)
    requires r.Valid() && AllTouch(r, ChunksOf(t, r, h)) && Served(ps, r, DirOf(s, h), ChunksOf(t, r, h))
    ensures Brought(ps, s, t, r, h)
  {
    hide PushOf, ChunksOf;
  }

  /** The pushes of one host, or the first of them. */
  lemma AnswerIsFromHost(answer: seq<Push>, part: seq<Push>, s: Store, r: Range, picks: seq<nat>, h: nat,
                         fate: nat -> Fate)
    requires r.Valid() && |picks| == Count(r) && part <= answer && (part != [] ==> fate(h) != Vanishes(0))
    requires var chunks := ChunksOf(ReadTargets(picks, r.First()), r, h);
             AllTouch(r, chunks) && Served(answer, r, DirOf(s, h), chunks)
    ensures FromHosts(part, r, s, picks, Pushing(fate))
  {
    hide ChunksOf, PushOf, ReadTargets, Range.First, Range.Last;
    forall p | p in part
      ensures FromHost(p, r, s, picks, Pushing(fate))
    {
      assert p in answer;
      var c :| c in ChunksOf(ReadTargets(picks, r.First()), r, h) && p == PushOf(r, DirOf(s, h), c);
      ReadTargetsAt(picks, r, h, c);
    }
  }

  lemma OneAnswerMore(ps: seq<Push>, answer: seq<Push>, s: Store, r: Range, picks: seq<nat>, fate: nat -> Fate,
                      reqs: seq<Request>, n: nat)
    requires r.Valid() && |picks| == Count(r) && n < |reqs| && Collected(ps, s, r, picks, fate, reqs, n)
    requires Dispatched(reqs, ReadTargets(picks, r.First()), r, true)
    requires var chunks := ChunksOf(ReadTargets(picks, r.First()), r, reqs[n].host);
             AllTouch(r, chunks) && Served(answer, r, DirOf(s, reqs[n].host), chunks)
    ensures Collected(ps + Done(fate(reqs[n].host), answer), s, r, picks, fate, reqs, n + 1)
  {
    hide ChunksOf, PushOf, ReadTargets, Served, AllTouch, Brought, FromHosts, Dispatched, Asked, Range.First;
    hide Range.Last;
    var t, h := ReadTargets(picks, r.First()), reqs[n].host;
    var part := Done(fate(h), answer);
    AnswerIsFromHost(answer, part, s, r, picks, h, fate);
    FromHostsConcat(ps, part, r, s, picks, Pushing(fate));
    AskedNext(reqs, t, r, n, true);
    forall x: nat | Asked(reqs, n + 1, x) && fate(x).Serves?
      ensures Brought(ps + part, s, t, r, x)
    {
      if x == h {
        ServedBrings(answer, s, t, r, h);
      }
      BroughtMore(ps, part, s, t, r, x);
    }
  }

  lemma FromHostsConcat(a: seq<Push>, b: seq<Push>, r: Range, s: Store, picks: seq<nat>, ok: Hosts)
    requires r.Valid() && |picks| == Count(r) && FromHosts(a, r, s, picks, ok) && FromHosts(b, r, s, picks, ok)
    ensures FromHosts(a + b, r, s, picks, ok)
  {
    hide FromHost;
  }

  /** When every host serves, the read is complete. */
  lemma AllServeGathers(ps: seq<Push>, s: Store, r: Range, picks: seq<nat>, fate: nat -> Fate, reqs: seq<Request>)
    requires r.Valid() && |picks| == Count(r) && Collected(ps, s, r, picks, fate, reqs, |reqs|)
    requires Dispatched(reqs, ReadTargets(picks, r.First()), r, true)
    requires forall i | 0 <= i < |reqs| :: fate(reqs[i].host).Serves?
    ensures Gathered(ps, r, s, picks)
  {
    hide ChunksOf, PushOf, ReadTargets, Dispatched, Range.First, Range.Last;
    var t := ReadTargets(picks, r.First());
    forall c: nat | r.Touches(c)
      ensures var p := PushOf(r, DirOf(s, picks[c - r.First()]), c); p.data != [] ==> p in ps
    {
      var h := picks[c - r.First()];
      ReadTargetsAt(picks, r, h, c);
      AskedIff(reqs, t, r, h, true);
      assert Brought(ps, s, t, r, h);
    }
    forall p | p in ps
      ensures FromHost(p, r, s, picks, Anyone())
    {
      assert FromHost(p, r, s, picks, Pushing(fate));
    }
  }

  /** What a host of the round answers. */
  ghost predicate HeardBack(replies: seq<Reply>, s: Store, t: Targets, r: Range, fate: nat -> Fate, reqs: seq<Request>)
    requires r.Valid() && |replies| <= |reqs|
  {
    forall i | 0 <= i < |replies| ::
      var h := reqs[i].host;
      && AllTouch(r, ChunksOf(t, r, h))
      && replies[i] == ReplyOf(fate(h), 0, Stored(r, DirOf(s, h), ChunksOf(t, r, h)))
  }

  /** One `forward_read`, from the requests on: the daemons read and push, as far as they get. */
  method ReadRound(s: Store, reqs: seq<Request>, r: Range, buf: seq<byte>, fate: nat -> Fate, ghost picks: seq<nat>)
    returns (replies: seq<Reply>, out: seq<byte>, ghost ps: seq<Push>)
    requires r.Valid() && |buf| == r.size && Count(r) <= UINT16 && |picks| == Count(r)
    requires Dispatched(reqs, ReadTargets(picks, r.First()), r, true)
    ensures |replies| == |reqs| && HeardBack(replies, s, ReadTargets(picks, r.First()), r, fate, reqs)
    ensures Collected(ps, s, r, picks, fate, reqs, |reqs|)
    ensures (forall p | p in ps :: p.origin + |p.data| <= |buf|) && out == ApplyPushes(buf, ps)
  {
    hide Dispatched, Sound, Served, AllTouch, ChunksOf, Asked, Collected, HeardBack, ApplyPushes, Stored, ReplyOf;
    hide Range.First, Range.Last;
    ghost var t := ReadTargets(picks, r.First());
    PicksAreDistinct(picks, r);
    hide ReadTargets, Distinct;
    var pushes: seq<Push> := [];
    replies := [];
    NothingCollected(s, r, picks, fate, reqs);
    for i := 0 to |reqs|
      invariant Collected(pushes, s, r, picks, fate, reqs, i)
      invariant |replies| == i && HeardBack(replies, s, t, r, fate, reqs)
    {
      var h := reqs[i].host;
      DispatchedIsSound(reqs, t, r, i, true);
      HostChunksOnce(t, h, r, r.Last() + 1);
      ListIs(t, r, h);
      var answer, io := ServeRead(reqs[i], r.size, DirOf(s, h), t, r);
      OneAnswerMore(pushes, answer, s, r, picks, fate, reqs, i);
      pushes := pushes + Done(fate(h), answer);
      HeardBackMore(replies, s, t, r, fate, reqs, io);
      replies := replies + [ReplyOf(fate(h), 0, io)];
    }
    ps := pushes;
    CollectedFits(ps, s, r, picks, fate, reqs);
    out := ApplyPushes(buf, pushes);
  }

  lemma ListIs(t: Targets, r: Range, h: nat)
    requires r.Valid()
    ensures ChunksOf(t, r, h) == HostChunks(t, h, r.First(), r.Last() + 1)
  {
  }

  lemma PicksAreDistinct(picks: seq<nat>, r: Range)
    requires r.Valid() && |picks| == Count(r)
    ensures Distinct(ReadTargets(picks, r.First()), r)
    ensures forall c: nat | r.Touches(c) :: |ReadTargets(picks, r.First())(c)| == 1
  {
  }

  lemma NothingCollected(s: Store, r: Range, picks: seq<nat>, fate: nat -> Fate, reqs: seq<Request>)
    requires r.Valid() && |picks| == Count(r)
    ensures Collected([], s, r, picks, fate, reqs, 0)
    ensures HeardBack([], s, ReadTargets(picks, r.First()), r, fate, reqs)
  {
  }

  lemma HeardBackMore(replies: seq<Reply>, s: Store, t: Targets, r: Range, fate: nat -> Fate, reqs: seq<Request>,
                      io: nat)
    requires r.Valid() && |replies| < |reqs| && HeardBack(replies, s, t, r, fate, reqs)
    requires var h := reqs[|replies|].host;
             AllTouch(r, ChunksOf(t, r, h)) && io == Stored(r, DirOf(s, h), ChunksOf(t, r, h))
    ensures HeardBack(replies + [ReplyOf(fate(reqs[|replies|].host), 0, io)], s, t, r, fate, reqs)
  {
    hide AllTouch, ChunksOf, Stored;
    var more := replies + [ReplyOf(fate(reqs[|replies|].host), 0, io)];
    assert forall i | 0 <= i < |replies| :: more[i] == replies[i];
  }

  lemma CollectedFits(ps: seq<Push>, s: Store, r: Range, picks: seq<nat>, fate: nat -> Fate, reqs: seq<Request>)
    requires r.Valid() && |picks| == Count(r) && Collected(ps, s, r, picks, fate, reqs, |reqs|)
    ensures forall p | p in ps :: p.origin + |p.data| <= r.size
  {
    hide Range.First, Range.Last;
    var c, j := r.offset / CHUNK, r.offset % CHUNK;
    PositionTouches(r, c, 0, j);
    forall p | p in ps
      ensures p.origin + |p.data| <= r.size
    {
      PushFromHost(p, r, s, picks, Pushing(fate), 0, c, j);
    }
  }

  // ---------------------------------------------------------------- many rounds

  /** The copies a read may turn to: copy 0, or those the modulus can select. */
  function Choices(replicas: nat): nat {
    if replicas == 0 then 1 else replicas
  }

  function InRound(fate: (nat, nat) -> Fate, round: nat): nat -> Fate {
    (h: nat) => fate(round, h)
  }

  /** A host that in some round is not heard from. */
  ghost predicate Gone(fate: (nat, nat) -> Fate, h: nat) {
    exists n: nat :: fate(n, h).Vanishes?
  }

  /** A host that in no round gives anything away. */
  ghost predicate Silent(fate: (nat, nat) -> Fate, h: nat) {
    forall n: nat :: fate(n, h) == Vanishes(0)
  }

  /** The candidates that are ever lost, as they are remembered. */
  ghost function EverLost(locate: (nat, nat) -> nat, replicas: nat, r: Range, fate: (nat, nat) -> Fate): set<int>
    requires r.Valid()
  {
    set h | h in Candidates(locate, replicas, r) && Gone(fate, h) :: ToInt8(h)
  }

  /** The guards of the retry loop: no daemon that itself answers EIO, and for every chunk a copy,
      among those the modulus can select, that cannot be taken for a host that is ever lost. */
  ghost predicate Reachable(locate: (nat, nat) -> nat, replicas: nat, r: Range, fate: (nat, nat) -> Fate)
    requires r.Valid()
  {
    && (forall n: nat, h: nat :: fate(n, h).Fails? ==> fate(n, h).err != EIO)
    && (forall c: nat | r.Touches(c) :: SomeCopyLeft(locate, replicas, EverLost(locate, replicas, r, fate), c))
  }

  /** With host ids of 8 bits a copy that is never lost is enough. */
  lemma StayingIsEnough(locate: (nat, nat) -> nat, replicas: nat, r: Range, fate: (nat, nat) -> Fate, c: nat, k: nat)
    requires r.Valid() && r.Touches(c) && k < replicas && !Gone(fate, locate(c, k))
    requires forall h | h in Candidates(locate, replicas, r) :: h < 256
    ensures SomeCopyLeft(locate, replicas, EverLost(locate, replicas, r, fate), c)
  {
    hide ToInt8, Gone, Range.First, Range.Last;
    var h := locate(c, k);
    assert h in Candidates(locate, replicas, r);
    if ToInt8(h) in EverLost(locate, replicas, r, fate) {
      var h' :| h' in Candidates(locate, replicas, r) && Gone(fate, h') && ToInt8(h') == ToInt8(h);
      Int8Injective(h, h');
    }
  }

  /** Whoever gives anything away of a chunk of the range holds that chunk of the file; copies other
      than the primary do not matter where that is never lost. */
  ghost predicate Trustworthy(locate: (nat, nat) -> nat, replicas: nat, r: Range, fate: (nat, nat) -> Fate,
                              live: Holders)
    requires r.Valid()
  {
    forall c: nat, k: nat | r.Touches(c) && k < Choices(replicas) ::
      || live(c, locate(c, k)) || Silent(fate, locate(c, k))
      || (k > 0 && ToInt8(locate(c, 0)) !in EverLost(locate, replicas, r, fate))
  }

  lemma DrawsSucceed(locate: (nat, nat) -> nat, replicas: nat, r: Range, fate: (nat, nat) -> Fate, failed: set<int>,
                     draw: nat -> nat, c: nat, n: nat)
    requires r.Valid() && replicas > 0 && r.Touches(c) && Fair(draw, replicas) && Reachable(locate, replicas, r, fate)
    requires failed <= EverLost(locate, replicas, r, fate)
    ensures DrawSucceeds(locate, replicas, failed, draw, n, c)
  {
    hide ToInt8, Fair, DrawSucceeds, EverLost, Range.First, Range.Last;
    assert SomeCopyLeft(locate, replicas, EverLost(locate, replicas, r, fate), c);
    assert SomeCopyLeft(locate, replicas, failed, c);
    DrawSucceedsIff(locate, replicas, failed, draw, c);
  }

  lemma EligibleHolds(locate: (nat, nat) -> nat, replicas: nat, failed: set<int>, c: nat, h: nat)
    requires Eligible(locate, replicas, failed, c, h)
    ensures HoldsCopy(locate, replicas, c, h)
    ensures exists k: nat :: k < Choices(replicas) && h == locate(c, k)
    ensures h != locate(c, 0) ==> ToInt8(locate(c, 0)) in failed
  {
    var k: nat :| k < (if replicas == 0 then 1 else replicas) && h == locate(c, k);
    assert k <= replicas;
  }

  /** A buffer in which every byte is the caller's or the file's. */
  ghost predicate Mixed(out: seq<byte>, into: seq<byte>, f: File, r: Range) {
    |out| == |into| == r.size && forall i: nat | i < r.size :: out[i] == into[i] || out[i] == f(r.offset + i)
  }

  /** The host picked for the chunk of byte `i`. */
  lemma PickOf(reqs: seq<Request>, picks: seq<nat>, locate: (nat, nat) -> nat, replicas: nat, failed: set<int>,
               r: Range,
               fate: (nat, nat) -> Fate, live: Holders, i: nat)
    requires r.Valid() && ReadPlan(reqs, picks, locate, replicas, failed, r) && i < r.size
    requires Trustworthy(locate, replicas, r, fate, live)
    requires failed <= EverLost(locate, replicas, r, fate)
    ensures var c, j := (r.offset + i) / CHUNK, (r.offset + i) % CHUNK;
            && r.Touches(c) && c - r.First() < |picks| && r.offset + i == c * CHUNK + j
            && var h := picks[c - r.First()];
               HoldsCopy(locate, replicas, c, h) && (live(c, h) || Silent(fate, h))
  {
    hide Dispatched, HoldsCopy, Silent, Eligible, Range.First, Range.Last;
    var c, j := (r.offset + i) / CHUNK, (r.offset + i) % CHUNK;
    PositionTouches(r, c, i, j);
    assert Eligible(locate, replicas, failed, r.First() + (c - r.First()), picks[c - r.First()]);
    var h := picks[c - r.First()];
    EligibleHolds(locate, replicas, failed, c, h);
    if h == locate(c, 0) {
      assert 0 < Choices(replicas);
    } else {
      var k: nat :| k < Choices(replicas) && h == locate(c, k);
      assert ToInt8(locate(c, 0)) in failed;
    }
  }

  /** Even a round that is cut short leaves no wrong byte. */
  lemma RoundKeepsMixed(s: Store, locate: (nat, nat) -> nat, replicas: nat, failed: set<int>, r: Range,
                        fate: (nat, nat) -> Fate, live: Holders, f: File, into: seq<byte>, buf: seq<byte>, round: nat,
                        reqs: seq<Request>, picks: seq<nat>, ps: seq<Push>, out: seq<byte>)
    requires r.Valid() && Represents(s, locate, replicas, live, f) && Trustworthy(locate, replicas, r, fate, live)
    requires ReadPlan(reqs, picks, locate, replicas, failed, r) && Mixed(buf, into, f, r)
    requires Collected(ps, s, r, picks, InRound(fate, round), reqs, |reqs|)
    requires (forall p | p in ps :: p.origin + |p.data| <= |buf|) && out == ApplyPushes(buf, ps)
    requires failed <= EverLost(locate, replicas, r, fate)
    ensures Mixed(out, into, f, r)
  {
    var ok := Pushing(InRound(fate, round));
    assert FromHosts(ps, r, s, picks, ok);
    forall i: nat | i < r.size
      ensures out[i] == into[i] || out[i] == f(r.offset + i)
    {
      RoundByte(s, locate, replicas, failed, r, fate, live, f, buf, round, reqs, picks, ps, i);
    }
  }

  lemma RoundByte(s: Store, locate: (nat, nat) -> nat, replicas: nat, failed: set<int>, r: Range,
                  fate: (nat, nat) -> Fate, live: Holders, f: File, buf: seq<byte>, round: nat, reqs: seq<Request>,
                  picks: seq<nat>, ps: seq<Push>, i: nat)
    requires r.Valid() && Represents(s, locate, replicas, live, f) && Trustworthy(locate, replicas, r, fate, live)
    requires ReadPlan(reqs, picks, locate, replicas, failed, r) && |buf| == r.size && i < r.size
    requires FromHosts(ps, r, s, picks, Pushing(InRound(fate, round)))
    requires forall p | p in ps :: p.origin + |p.data| <= |buf|
    requires failed <= EverLost(locate, replicas, r, fate)
    ensures ApplyPushes(buf, ps)[i] == buf[i] || ApplyPushes(buf, ps)[i] == f(r.offset + i)
  {
    hide Represents, Trustworthy, ReadPlan, HoldsCopy, FromHosts, ApplyPushes, Range.First, Range.Last;
    PlanParts(reqs, picks, locate, replicas, failed, r);
    PickOf(reqs, picks, locate, replicas, failed, r, fate, live, i);
    var c, j := (r.offset + i) / CHUNK, (r.offset + i) % CHUNK;
    var h := picks[c - r.First()];
    PartialRead(ps, r, s, picks, Pushing(InRound(fate, round)), buf, i, c, j);
    if fate(round, h) != Vanishes(0) {
      LiveCopy(s, locate, replicas, live, f, c, h, j);
    }
  }

  lemma MixedAt(out: seq<byte>, into: seq<byte>, f: File, r: Range, i: nat)
    requires Mixed(out, into, f, r) && i < r.size
    ensures |out| == |into| == r.size && (out[i] == into[i] || out[i] == f(r.offset + i))
  {
  }

  /** A round that is answered in full brings every stored byte. */
  lemma LastRoundByte(s: Store, locate: (nat, nat) -> nat, replicas: nat, failed: set<int>, r: Range,
                      fate: (nat, nat) -> Fate, live: Holders, f: File, into: seq<byte>, buf: seq<byte>, round: nat,
                      reqs: seq<Request>, picks: seq<nat>, ps: seq<Push>, i: nat)
    requires r.Valid() && Represents(s, locate, replicas, live, f) && Trustworthy(locate, replicas, r, fate, live)
    requires ReadPlan(reqs, picks, locate, replicas, failed, r) && Mixed(buf, into, f, r) && i < r.size
    requires Gathered(ps, r, s, picks) && forall k | 0 <= k < |reqs| :: InRound(fate, round)(reqs[k].host).Serves?
    requires forall p | p in ps :: p.origin + |p.data| <= |buf|
    requires into[i] == 0 || Stores(s, locate, replicas, live, r.offset + i)
    requires failed <= EverLost(locate, replicas, r, fate)
    ensures ApplyPushes(buf, ps)[i] == f(r.offset + i)
  {
    hide Mixed, Silent, Represents, Trustworthy, ReadPlan, HoldsCopy, Gathered, ApplyPushes, Stores, Range.First;
    hide Range.Last;
    hide FileOf;
    MixedAt(buf, into, f, r, i);
    PlanParts(reqs, picks, locate, replicas, failed, r);
    PickOf(reqs, picks, locate, replicas, failed, r, fate, live, i);
    PickServes(reqs, picks, locate, replicas, failed, r, fate, round, i);
    var pos := r.offset + i;
    var c, j := pos / CHUNK, pos % CHUNK;
    var h := picks[c - r.First()];
    ReadReturnsStoredBytes(ps, r, s, picks, buf, i, c, j);
    LiveCopy(s, locate, replicas, live, f, c, h, j);
    if Stores(s, locate, replicas, live, pos) {
      StoredOnCopy(s, locate, replicas, live, pos, h);
    }
  }

  lemma PickServes(reqs: seq<Request>, picks: seq<nat>, locate: (nat, nat) -> nat, replicas: nat, failed: set<int>,
                   r: Range, fate: (nat, nat) -> Fate, round: nat, i: nat)
    requires r.Valid() && ReadPlan(reqs, picks, locate, replicas, failed, r) && i < r.size
    requires forall k | 0 <= k < |reqs| :: InRound(fate, round)(reqs[k].host).Serves?
    ensures var c := (r.offset + i) / CHUNK;
            r.Touches(c) && c - r.First() < |picks| && !Silent(fate, picks[c - r.First()])
  {
    hide Dispatched, ChunksOf, Eligible, Range.First, Range.Last;
    var c, j := (r.offset + i) / CHUNK, (r.offset + i) % CHUNK;
    PositionTouches(r, c, i, j);
    var h := picks[c - r.First()];
    ReadTargetsAt(picks, r, h, c);
    AskedIff(reqs, ReadTargets(picks, r.First()), r, h, true);
    assert Asked(reqs, |reqs|, h);
    var k :| 0 <= k < |reqs| && reqs[k].host == h;
    assert InRound(fate, round)(reqs[k].host).Serves?;
  }

  // ---------------------------------------------------------------- error and size

  /** The errors of the hosts in one round of a read. */
  ghost function ReadErrors(fate: nat -> Fate): nat -> int {
    (h: nat) => HostError(fate(h), 0)
  }

  /** The hosts picked in one round. */
  ghost predicate AllUp(picks: seq<nat>, fate: nat -> Fate) {
    forall k | 0 <= k < |picks| :: fate(picks[k]).Serves?
  }

  lemma HeardErrorsBack(replies: seq<Reply>, s: Store, t: Targets, r: Range, fate: nat -> Fate, reqs: seq<Request>)
    requires r.Valid() && |replies| == |reqs| && HeardBack(replies, s, t, r, fate, reqs)
    ensures forall i | 0 <= i < |reqs| :: ErrorOf(replies[i]) == ReadErrors(fate)(reqs[i].host)
  {
    hide AllTouch, Stored, ChunksOf;
  }

  /** A round has no error exactly when every host picked serves, and otherwise that of the last host
      that fails. */
  lemma RoundError(replies: seq<Reply>, s: Store, r: Range, fate: nat -> Fate, reqs: seq<Request>, picks: seq<nat>,
                   err: int)
    requires r.Valid() && |picks| == Count(r) && |replies| == |reqs| && Errors(fate) && LastError(replies, err)
    requires Dispatched(reqs, ReadTargets(picks, r.First()), r, true)
    requires HeardBack(replies, s, ReadTargets(picks, r.First()), r, fate, reqs)
    ensures err == 0 <==> AllUp(picks, fate)
    ensures var t := ReadTargets(picks, r.First());
            err != 0 ==> exists h: nat :: LastFailing(ReadErrors(fate), t, r, h) && err == ReadErrors(fate)(h)
  {
    hide Dispatched, HeardBack, LastFailing, ReadTargets, Range.First, Range.Last;
    var t := ReadTargets(picks, r.First());
    HeardErrorsBack(replies, s, t, r, fate, reqs);
    if err != 0 {
      CollectedError(reqs, replies, t, r, true, ReadErrors(fate), err);
    }
    PickedAreAsked(reqs, picks, r);
    if err == 0 {
      forall k | 0 <= k < |picks|
        ensures fate(picks[k]).Serves?
      {
        assert Asked(reqs, |reqs|, picks[k]);
        var i :| 0 <= i < |reqs| && reqs[i].host == picks[k];
        assert replies[i].Answer? && replies[i].err == 0;
      }
    } else {
      var i :| LastBad(replies, i) && err == ErrorOf(replies[i]) != 0;
      var k := AskedWasPicked(reqs, picks, r, i);
      assert !fate(picks[k]).Serves?;
    }
  }

  lemma PickedAreAsked(reqs: seq<Request>, picks: seq<nat>, r: Range)
    requires r.Valid() && |picks| == Count(r) && Dispatched(reqs, ReadTargets(picks, r.First()), r, true)
    ensures forall k: nat | k < |picks| :: Asked(reqs, |reqs|, picks[k])
  {
    hide Dispatched, ChunksOf, ReadTargets, Range.First, Range.Last;
    forall k: nat | k < |picks|
      ensures Asked(reqs, |reqs|, picks[k])
    {
      var c := r.First() + k;
      ReadTargetsAt(picks, r, picks[k], c);
      AskedIff(reqs, ReadTargets(picks, r.First()), r, picks[k], true);
    }
  }

  /** Every host picked holds a live copy of its chunk. */
  ghost predicate LivePicks(locate: (nat, nat) -> nat, replicas: nat, live: Holders, r: Range, picks: seq<nat>)
    requires r.Valid() && |picks| == Count(r)
  {
    forall c: nat | r.Touches(c) ::
      HoldsCopy(locate, replicas, c, picks[c - r.First()]) && live(c, picks[c - r.First()])
  }

  /** Of the range, the live copies store exactly the positions below `n`. */
  ghost predicate StoredBelow(s: Store, locate: (nat, nat) -> nat, replicas: nat, live: Holders, r: Range, n: nat) {
    forall pos: nat, copy: nat |
      r.offset <= pos < r.End() && copy <= replicas && live(pos / CHUNK, locate(pos / CHUNK, copy)) ::
      StoredAt(s, locate(pos / CHUNK, copy), pos / CHUNK, pos % CHUNK) <==> pos < n
  }

  /** Then that is how much a read from them brings. */
  lemma SizeBelow(s: Store, locate: (nat, nat) -> nat, replicas: nat, live: Holders, r: Range, picks: seq<nat>, n: nat)
    requires r.Valid() && |picks| == Count(r) && LivePicks(locate, replicas, live, r, picks)
    requires StoredBelow(s, locate, replicas, live, r, n)
    ensures CountStored(s, r, picks, r.size) == Below(r, n)
  {
    hide CountStored, FileOf, Range.First, Range.Last;
    forall pos: nat | r.offset <= pos < r.End()
      ensures StoredHere(s, r, picks, pos) <==> pos < n
    {
      var c := pos / CHUNK;
      PositionTouches(r, c, pos - r.offset, pos % CHUNK);
      var h := picks[c - r.First()];
      assert HoldsCopy(locate, replicas, c, h) && live(c, h);
      var copy: nat :| copy <= replicas && h == locate(c, copy);
      assert StoredAt(s, locate(pos / CHUNK, copy), pos / CHUNK, pos % CHUNK) <==> pos < n;
    }
    CountBelow(s, r, picks, n, r.size);
  }

  // ---------------------------------------------------------------- gkfs_do_read

  lemma LostWereGone(replies: seq<Reply>, s: Store, t: Targets, r: Range, fate: (nat, nat) -> Fate, round: nat,
                     reqs: seq<Request>, picks: seq<nat>, locate: (nat, nat) -> nat, replicas: nat,
                     failed: set<int>, i: nat)
    requires r.Valid() && replicas > 0 && |replies| == |reqs| && HeardBack(replies, s, t, r, InRound(fate, round), reqs)
    requires ReadPlan(reqs, picks, locate, replicas, failed, r) && i < |reqs| && replies[i].Lost?
    ensures ToInt8(reqs[i].host) in EverLost(locate, replicas, r, fate)
  {
    hide AllTouch, Stored, ChunksOf, ReadPlan, Candidates, ToInt8;
    AskedIsFresh(reqs, picks, locate, replicas, failed, r, i);
    assert fate(round, reqs[i].host).Vanishes?;
    assert Gone(fate, reqs[i].host);
  }

  lemma ErrorsAreNotEio(replies: seq<Reply>, s: Store, t: Targets, r: Range, fate: (nat, nat) -> Fate, round: nat,
                        reqs: seq<Request>, locate: (nat, nat) -> nat, replicas: nat)
    requires r.Valid() && |replies| == |reqs| && HeardBack(replies, s, t, r, InRound(fate, round), reqs)
    requires Reachable(locate, replicas, r, fate)
    ensures forall i | 0 <= i < |reqs| && replies[i].Answer? :: replies[i].err != EIO
  {
    hide AllTouch, Stored, ChunksOf, Candidates;
  }

  lemma AnsweredServe(replies: seq<Reply>, s: Store, t: Targets, r: Range, fate: (nat, nat) -> Fate, round: nat,
                      reqs: seq<Request>)
    requires r.Valid() && |replies| == |reqs| && HeardBack(replies, s, t, r, InRound(fate, round), reqs)
    requires AllAnswered(replies) && Errors(InRound(fate, round))
    ensures forall k | 0 <= k < |reqs| :: InRound(fate, round)(reqs[k].host).Serves?
  {
    hide AllTouch, Stored, ChunksOf;
    forall k | 0 <= k < |reqs|
      ensures InRound(fate, round)(reqs[k].host).Serves?
    {
      assert replies[k].Answer? && replies[k].err == 0;
    }
  }

  /** What a complete read returns. */
  ghost predicate ReadBack(out: seq<byte>, into: seq<byte>, s: Store, locate: (nat, nat) -> nat, replicas: nat,
                           live: Holders, f: File, r: Range)
    requires |into| == r.size
  {
    && |out| == r.size
    && forall i: nat | i < r.size && (into[i] == 0 || Stores(s, locate, replicas, live, r.offset + i)) ::
         out[i] == f(r.offset + i)
  }

  /** How the last of the rounds decides: whom it picked, having failed to hear from others before, and
      what came of it. */
  ghost predicate Concluded(s: Store, locate: (nat, nat) -> nat, replicas: nat, r: Range, fate: (nat, nat) -> Fate,
                            live: Holders, rounds: nat, picks: seq<nat>, failed: set<int>, err: int, size: int)
    requires r.Valid() && rounds > 0
  {
    var last := InRound(fate, rounds - 1);
    && |picks| == Count(r) && failed <= EverLost(locate, replicas, r, fate) && (rounds == 1 ==> failed == {})
    && (forall k: nat | k < |picks| :: Eligible(locate, replicas, failed, r.First() + k, picks[k]))
    && (err == 0 <==> AllUp(picks, last))
    && (err == 0 ==> size == CountStored(s, r, picks, r.size) && LivePicks(locate, replicas, live, r, picks))
    && (err != 0 ==>
          && size == -1
          && exists h: nat :: LastFailing(ReadErrors(last), ReadTargets(picks, r.First()), r, h) &&
                              err == ReadErrors(last)(h))
  }

  /** `gkfs_do_read` with hosts that may be down in some rounds and up in others. With replicas the
      whole read is repeated while a host is not heard from; rounds that fail may have pushed part
      of the data. It ends after at most one round more than there are hosts that are ever lost,
      and when it succeeds every stored byte of the range is the file's, as is every hole if the
      buffer is zeroed first. The size is the number of positions that the copies read from have
      stored; otherwise the error is that of the last host that failed. */
  method DoRead(s: Store, locate: (nat, nat) -> nat, replicas: nat, draw: nat -> nat, r: Range, buf: seq<byte>,
                zeroBufferBeforeRead: bool, fate: (nat, nat) -> Fate, ghost live: Holders, ghost f: File)
    returns (err: int, size: int, out: seq<byte>, rounds: nat)
    requires r.Valid() && Count(r) <= UINT16 && |buf| == r.size && Represents(s, locate, replicas, live, f)
    requires Trustworthy(locate, replicas, r, fate, live) && forall n: nat :: Errors(InRound(fate, n))
    requires replicas > 0 ==> Fair(draw, replicas) && Reachable(locate, replicas, r, fate)
    ensures rounds > 0 && (replicas == 0 ==> rounds == 1)
    ensures replicas > 0 ==> err != EIO && rounds <= |EverLost(locate, replicas, r, fate)| + 1
    ensures var into := if zeroBufferBeforeRead then Zeros(r.size) else buf;
            err == 0 ==> ReadBack(out, into, s, locate, replicas, live, f, r)
    ensures exists picks, failed :: Concluded(s, locate, replicas, r, fate, live, rounds, picks, failed, err, size)
    ensures err == 0 ==> forall n: nat | StoredBelow(s, locate, replicas, live, r, n) :: size == Below(r, n)
  {
    hide Represents, Trustworthy, Reachable, Fair, EverLost, ReadPlan, Collected, HeardBack, ReadBack, Mixed, Errors;
    hide AllAnswered, SumIo, LostHosts, ReadTargets, Dispatched, Range.First, Range.Last, ApplyPushes, InRound;
    hide Concluded, LastError, CountStored, LivePicks, StoredBelow;
    out := buf;
    if zeroBufferBeforeRead {
      out := Zeros(r.size);
    }
    ghost var into := out;
    ghost var down := EverLost(locate, replicas, r, fate);
    var failed: set<int>, next := {}, 0;
    err, size, rounds := EIO, -1, 0;
    StartMixed(into, f, r);
    while rounds == 0 || (replicas > 0 && err == EIO)
      invariant Mixed(out, into, f, r)
      invariant replicas > 0 ==> failed <= down && rounds <= |failed| + 1
      invariant replicas > 0 && (rounds == 0 || err == EIO) ==> rounds <= |failed|
      invariant (replicas == 0 ==> rounds <= 1) && (rounds == 0 ==> failed == {})
      invariant rounds > 0 && err == 0 ==> ReadBack(out, into, s, locate, replicas, live, f, r)
      invariant rounds > 0 ==> exists picks, before ::
                  Concluded(s, locate, replicas, r, fate, live, rounds, picks, before, err, size)
      decreases if replicas == 0 then 0 else |down - failed|, rounds == 0, err == EIO
    {
      if replicas > 0 {
        forall c: nat, i: nat | r.Touches(c)
          ensures DrawSucceeds(locate, replicas, failed, draw, i, c)
        {
          DrawsSucceed(locate, replicas, r, fate, failed, draw, c, i);
        }
      }
      var reqs;
      reqs, next := ReadRequests(locate, replicas, failed, draw, next, r);
      ghost var picks :| ReadPlan(reqs, picks, locate, replicas, failed, r);
      PlanParts(reqs, picks, locate, replicas, failed, r);
      ghost var before, was := out, failed;
      MixedLength(out, into, f, r);
      var replies, count;
      ghost var ps;
      replies, out, ps := ReadRound(s, reqs, r, out, InRound(fate, rounds), picks);
      RoundKeepsMixed(s, locate, replicas, failed, r, fate, live, f, into, before, rounds, reqs, picks, ps, out);
      err, count, failed := CollectRead(reqs, replies, failed);
      size := if err == 0 then count else -1;
      if err == 0 {
        RoundSucceeds(s, locate, replicas, was, r, fate, live, f, into, before, rounds, reqs, picks, ps, out, replies);
      }
      RoundConcludes(s, locate, replicas, was, r, fate, live, rounds, reqs, picks, replies, err, size);
      if replicas > 0 {
        RoundProgresses(s, locate, replicas, was, r, fate, rounds, reqs, picks, replies);
        if err == EIO {
          SomeEio(replies, err);
        }
      }
      rounds := rounds + 1;
    }
    SizeConcluded(s, locate, replicas, r, fate, live, rounds, err, size);
  }

  lemma SomeEio(replies: seq<Reply>, err: int)
    requires LastError(replies, err) && err == EIO
    ensures exists i :: 0 <= i < |replies| && (replies[i].Lost? || replies[i].err == EIO)
  {
    var i :| LastBad(replies, i) && err == ErrorOf(replies[i]) != 0;
  }

  lemma RoundConcludes(s: Store, locate: (nat, nat) -> nat, replicas: nat, failed: set<int>, r: Range,
                       fate: (nat, nat) -> Fate, live: Holders, round: nat, reqs: seq<Request>, picks: seq<nat>,
                       replies: seq<Reply>, err: int, size: int)
    requires r.Valid() && ReadPlan(reqs, picks, locate, replicas, failed, r) && |replies| == |reqs|
    requires failed <= EverLost(locate, replicas, r, fate) && (round == 0 ==> failed == {})
    requires HeardBack(replies, s, ReadTargets(picks, r.First()), r, InRound(fate, round), reqs)
    requires LastError(replies, err) && Errors(InRound(fate, round))
    requires err == 0 ==>
               |picks| == Count(r) && size == CountStored(s, r, picks, r.size) &&
               LivePicks(locate, replicas, live, r, picks)
    requires err != 0 ==> size == -1
    ensures Concluded(s, locate, replicas, r, fate, live, round + 1, picks, failed, err, size)
  {
    hide HeardBack, LastError, Errors, EverLost, Eligible, Dispatched, CountStored, LivePicks, LastFailing, AllUp;
    hide InRound, ReadErrors, Range.First, Range.Last;
    RoundError(replies, s, r, InRound(fate, round), reqs, picks, err);
  }

  lemma SizeConcluded(s: Store, locate: (nat, nat) -> nat, replicas: nat, r: Range, fate: (nat, nat) -> Fate,
                      live: Holders, rounds: nat, err: int, size: int)
    requires r.Valid() && rounds > 0
    requires exists picks, failed :: Concluded(s, locate, replicas, r, fate, live, rounds, picks, failed, err, size)
    ensures err == 0 ==> forall n: nat | StoredBelow(s, locate, replicas, live, r, n) :: size == Below(r, n)
  {
    hide EverLost, Eligible, CountStored, LivePicks, LastFailing, StoredBelow, AllUp, InRound, Range.First, Range.Last;
    var picks, failed :| Concluded(s, locate, replicas, r, fate, live, rounds, picks, failed, err, size);
    if err == 0 {
      forall n: nat | StoredBelow(s, locate, replicas, live, r, n)
        ensures size == Below(r, n)
      {
        SizeBelow(s, locate, replicas, live, r, picks, n);
      }
    }
  }

  /** `gkfs_do_read` after any history of writes: hosts may have missed writes, to the chunks read as
      long as nothing is read from them now, and to any other chunk. Where the writes left no hole the
      size is how much of the range lies below their reach. */
  method ReadAfterHistory(s: Store, locate: (nat, nat) -> nat, replicas: nat, draw: nat -> nat, r: Range,
                          buf: seq<byte>, zeroBufferBeforeRead: bool, fate: (nat, nat) -> Fate,
                          ghost stores: seq<Store>, ghost edits: seq<Edit>, ghost ups: seq<Up>)
    returns (err: int, size: int, out: seq<byte>, rounds: nat)
    requires r.Valid() && Count(r) <= UINT16 && |buf| == r.size
    requires History(stores, edits, ups, locate, replicas) && s == stores[|edits|]
    requires Trustworthy(locate, replicas, r, fate, UpToDate(edits, ups, locate, replicas))
    requires forall n: nat :: Errors(InRound(fate, n))
    requires replicas > 0 ==> Fair(draw, replicas) && Reachable(locate, replicas, r, fate)
    ensures rounds > 0 && (replicas == 0 ==> rounds == 1)
    ensures replicas > 0 ==> err != EIO && rounds <= |EverLost(locate, replicas, r, fate)| + 1
    ensures err == 0 ==> |out| == r.size
    ensures var into := if zeroBufferBeforeRead then Zeros(r.size) else buf;
            err == 0 ==> forall i: nat | i < r.size && (into[i] == 0 || Touched(edits, r.offset + i)) ::
                           out[i] == Contents(edits)(r.offset + i)
    ensures exists picks, failed ::
              Concluded(s, locate, replicas, r, fate, UpToDate(edits, ups, locate, replicas), rounds, picks, failed,
                        err, size)
    ensures err == 0 && WholeBelow(edits, r) ==> size == Below(r, Extent(edits))
  {
    hide History, Represents, Trustworthy, Reachable, Fair, EverLost, Errors, Touched, Contents, Current, Stores;
    hide InRound, UpToDate, Concluded, StoredBelow, WholeBelow;
    HistoryShape(stores, edits, ups, locate, replicas);
    HistoryRepresents(stores, edits, ups, locate, replicas);
    err, size, out, rounds := DoRead(s, locate, replicas, draw, r, buf, zeroBufferBeforeRead, fate,
                                     UpToDate(edits, ups, locate, replicas), Contents(edits));
    if WholeBelow(edits, r) {
      HistoryStoredBelow(stores, edits, ups, locate, replicas, r);
    }
  }

  /** Of the range, every position below the reach of the writes was written. */
  ghost predicate WholeBelow(edits: seq<Edit>, r: Range) {
    forall pos: nat | r.offset <= pos < r.End() && pos < Extent(edits) :: Touched(edits, pos)
  }

  lemma HistoryStoredBelow(stores: seq<Store>, edits: seq<Edit>, ups: seq<Up>, locate: (nat, nat) -> nat, replicas: nat,
                           r: Range)
    requires History(stores, edits, ups, locate, replicas) && WholeBelow(edits, r)
    ensures |edits| == |ups| && ValidEdits(edits)
    ensures StoredBelow(stores[|edits|], locate, replicas, UpToDate(edits, ups, locate, replicas), r, Extent(edits))
  {
    hide History, Touched, Current, Contents, Represents, UpToDate, Extent;
    HistoryShape(stores, edits, ups, locate, replicas);
    HistoryRepresents(stores, edits, ups, locate, replicas);
    HistoryIsWellPlaced(stores, edits, ups, locate, replicas, |edits|);
    assert edits[..|edits|] == edits;
    var s, live := stores[|edits|], UpToDate(edits, ups, locate, replicas);
    forall pos: nat, copy: nat |
      r.offset <= pos < r.End() && copy <= replicas && live(pos / CHUNK, locate(pos / CHUNK, copy))
      ensures StoredAt(s, locate(pos / CHUNK, copy), pos / CHUNK, pos % CHUNK) <==> pos < Extent(edits)
    {
      if pos < Extent(edits) {
        assert Touched(edits, pos);
        assert Stores(s, locate, replicas, live, pos);
      }
    }
  }

  lemma StartMixed(into: seq<byte>, f: File, r: Range)
    requires |into| == r.size
    ensures Mixed(into, into, f, r)
  {
  }

  lemma MixedLength(out: seq<byte>, into: seq<byte>, f: File, r: Range)
    requires Mixed(out, into, f, r)
    ensures |out| == |into| == r.size
  {
  }

  lemma PlanParts(reqs: seq<Request>, picks: seq<nat>, locate: (nat, nat) -> nat, replicas: nat, failed: set<int>,
                  r: Range)
    requires r.Valid() && ReadPlan(reqs, picks, locate, replicas, failed, r)
    ensures |picks| == Count(r) && Dispatched(reqs, ReadTargets(picks, r.First()), r, true)
  {
  }

  lemma RoundSucceeds(s: Store, locate: (nat, nat) -> nat, replicas: nat, failed: set<int>, r: Range,
                      fate: (nat, nat) -> Fate, live: Holders, f: File, into: seq<byte>, buf: seq<byte>, round: nat,
                      reqs: seq<Request>, picks: seq<nat>, ps: seq<Push>, out: seq<byte>, replies: seq<Reply>)
    requires r.Valid() && Represents(s, locate, replicas, live, f) && Trustworthy(locate, replicas, r, fate, live)
    requires ReadPlan(reqs, picks, locate, replicas, failed, r) && Mixed(buf, into, f, r)
    requires Errors(InRound(fate, round))
    requires Collected(ps, s, r, picks, InRound(fate, round), reqs, |reqs|) && |replies| == |reqs|
    requires HeardBack(replies, s, ReadTargets(picks, r.First()), r, InRound(fate, round), reqs) && AllAnswered(replies)
    requires (forall p | p in ps :: p.origin + |p.data| <= |buf|) && out == ApplyPushes(buf, ps)
    requires failed <= EverLost(locate, replicas, r, fate)
    ensures |into| == r.size && ReadBack(out, into, s, locate, replicas, live, f, r)
    ensures |picks| == Count(r) && SumIo(replies) == CountStored(s, r, picks, r.size)
    ensures LivePicks(locate, replicas, live, r, picks)
  {
    hide Represents, Trustworthy, ReadPlan, Collected, Gathered, HeardBack, ApplyPushes, Stores, SumIo, Errors;
    hide Mixed, Dispatched, AllAnswered, ReadTargets, CountStored, LivePicks, Range.First, Range.Last;
    AnsweredServe(replies, s, ReadTargets(picks, r.First()), r, fate, round, reqs);
    MixedLength(buf, into, f, r);
    PlanParts(reqs, picks, locate, replicas, failed, r);
    AllServeGathers(ps, s, r, picks, InRound(fate, round), reqs);
    AnsweredSizes(replies, s, r, fate, round, reqs, picks);
    ServedPicksAreLive(reqs, picks, locate, replicas, failed, r, fate, live, round);
    forall i: nat | i < r.size && (into[i] == 0 || Stores(s, locate, replicas, live, r.offset + i))
      ensures out[i] == f(r.offset + i)
    {
      LastRoundByte(s, locate, replicas, failed, r, fate, live, f, into, buf, round, reqs, picks, ps, i);
    }
  }

  lemma AnsweredSizes(replies: seq<Reply>, s: Store, r: Range, fate: (nat, nat) -> Fate, round: nat, reqs: seq<Request>,
                      picks: seq<nat>)
    requires r.Valid() && |picks| == Count(r) && |replies| == |reqs|
    requires Dispatched(reqs, ReadTargets(picks, r.First()), r, true)
    requires HeardBack(replies, s, ReadTargets(picks, r.First()), r, InRound(fate, round), reqs)
    requires forall k | 0 <= k < |reqs| :: InRound(fate, round)(reqs[k].host).Serves?
    ensures SumIo(replies) == CountStored(s, r, picks, r.size)
  {
    hide Dispatched, AllTouch, Stored, ChunksOf, ReadTargets, CountStored, SumIo, InRound, Range.First, Range.Last;
    SizeIsCount(reqs, replies, picks, r, s);
  }

  lemma ServedPicksAreLive(reqs: seq<Request>, picks: seq<nat>, locate: (nat, nat) -> nat, replicas: nat,
                           failed: set<int>, r: Range, fate: (nat, nat) -> Fate, live: Holders, round: nat)
    requires r.Valid() && ReadPlan(reqs, picks, locate, replicas, failed, r)
    requires Trustworthy(locate, replicas, r, fate, live) && failed <= EverLost(locate, replicas, r, fate)
    requires forall k | 0 <= k < |reqs| :: InRound(fate, round)(reqs[k].host).Serves?
    ensures |picks| == Count(r) && LivePicks(locate, replicas, live, r, picks)
  {
    hide Trustworthy, ReadPlan, EverLost, HoldsCopy, Silent, Range.First, Range.Last, Range.Lo, Range.Hi;
    PlanParts(reqs, picks, locate, replicas, failed, r);
    forall c: nat | r.Touches(c)
      ensures HoldsCopy(locate, replicas, c, picks[c - r.First()]) && live(c, picks[c - r.First()])
    {
      ChunkPiece(r, c);
      InChunkOf(c, r.Lo(c));
      var i := r.Lo(c) - r.offset;
      PickOf(reqs, picks, locate, replicas, failed, r, fate, live, i);
      PickServes(reqs, picks, locate, replicas, failed, r, fate, round, i);
    }
  }

  lemma RoundProgresses(s: Store, locate: (nat, nat) -> nat, replicas: nat, failed: set<int>, r: Range,
                        fate: (nat, nat) -> Fate, round: nat, reqs: seq<Request>, picks: seq<nat>, replies: seq<Reply>)
    requires r.Valid() && replicas > 0 && ReadPlan(reqs, picks, locate, replicas, failed, r) && |replies| == |reqs|
    requires HeardBack(replies, s, ReadTargets(picks, r.First()), r, InRound(fate, round), reqs)
    requires Reachable(locate, replicas, r, fate) && failed <= EverLost(locate, replicas, r, fate)
    ensures var down, failed' := EverLost(locate, replicas, r, fate), failed + LostHosts(reqs, replies);
            && failed' <= down && |failed| <= |failed'| <= |down| && |down - failed'| <= |down - failed|
            && ((exists i :: 0 <= i < |reqs| && (replies[i].Lost? || replies[i].err == EIO)) ==>
                  |failed'| > |failed| && |down - failed'| < |down - failed|)
  {
    hide EverLost, HeardBack, ReadPlan, Reachable, LostHosts;
    var t := ReadTargets(picks, r.First());
    hide ReadTargets;
    forall i | 0 <= i < |reqs| && replies[i].Lost?
      ensures ToInt8(reqs[i].host) in EverLost(locate, replicas, r, fate)
    {
      LostWereGone(replies, s, t, r, fate, round, reqs, picks, locate, replicas, failed, i);
    }
    ErrorsAreNotEio(replies, s, t, r, fate, round, reqs, locate, replicas);
    RoundMakesProgress(reqs, replies, picks, locate, replicas, failed, r, EverLost(locate, replicas, r, fate));
  }

  // ---------------------------------------------------------------- a copy that missed a write

  /** A read turns to the primary copies as long as it has not seen them fail. */
  lemma PrimaryIsRead(reqs: seq<Request>, picks: seq<nat>, locate: (nat, nat) -> nat, replicas: nat, failed: set<int>,
                      r: Range, c: nat)
    requires r.Valid() && ReadPlan(reqs, picks, locate, replicas, failed, r) && r.Touches(c)
    requires ToInt8(locate(c, 0)) !in failed
    ensures |picks| == Count(r) && picks[c - r.First()] == locate(c, 0)
  {
    hide Dispatched, ToInt8, Range.First, Range.Last;
    assert Eligible(locate, replicas, failed, r.First() + (c - r.First()), picks[c - r.First()]);
  }

  function CopyIsHost(c: nat, copy: nat): nat {
    copy
  }

  lemma OneTarget(copies: nat, h: nat)
    requires copies <= 1
    ensures Range(0, 1).Valid()
    ensures ChunksOf(WriteTargets(CopyIsHost, copies), Range(0, 1), h) == if h == copies then [0] else []
  {
    var r, t := Range(0, 1), WriteTargets(CopyIsHost, copies);
    assert r.First() == r.Last() == 0;
    CopyHostsAt(CopyIsHost, copies, 0);
    hide CopyHosts;
    assert t(0) == [copies];
    assert Echo([copies], h, 0) == if h == copies then [0] else [] by { assert [copies][..0] == []; }
    assert HostChunks(t, h, 0, 0) == [] && HostChunks(t, h, 0, 1) == Echo(t(0), h, 0);
  }

  lemma OneByteSchedule(x: byte)
    ensures Range(0, 1).Valid() && Schedule([Write(0, [x], 0)], Range(0, 1), [x], [0])
  {
    var r := Range(0, 1);
    assert r.First() == r.Last() == 0;
    var w := Write(0, [x], 0);
    assert WriteOf(r, [x], 0) == w;
    assert [w][0].chunk == 0;
  }

  lemma OneByteWritten(d: Dir, x: byte)
    requires |FileOf(d, 0)| <= 1
    ensures Range(0, 1).Valid() && Applied(d, d[0 := [x]], Range(0, 1), [x], [0])
    ensures Spared(d, d[0 := [x]], Range(0, 1), [0])
  {
    hide Schedule, WriteOf;
    OneByteSchedule(x);
    var w := Write(0, [x], 0);
    assert [w][..0] == [];
    assert Pwrite(FileOf(d, 0), [x], 0) == [x];
    assert Apply(d, [w]) == d[0 := [x]];
  }

  /** A host that is asked to write one byte does so, or misses the call. */
  lemma OneByteCall(s: Store, copies: nat, x: byte, live: Hosts)
    requires copies <= 1 && |FileOf(DirOf(s, copies), 0)| <= 1
    ensures var t := WriteTargets(CopyIsHost, copies);
            && Written(s, s[copies := DirOf(s, copies)[0 := [x]]], t, Range(0, 1), [x], live)
            && (!live(copies) ==> Written(s, s, t, Range(0, 1), [x], live))
  {
    hide ChunksOf, Applied, Spared, WriteTargets;
    OneByteWritten(DirOf(s, copies), x);
    forall h: nat
      ensures ChunksOf(WriteTargets(CopyIsHost, copies), Range(0, 1), h) == if h == copies then [0] else []
      ensures Spared(DirOf(s, h), DirOf(s, h), Range(0, 1), [])
      ensures Spared(DirOf(s, h), DirOf(s, h), Range(0, 1), [0])
      ensures Applied(DirOf(s, h), DirOf(s, h), Range(0, 1), [x], [])
    {
      OneTarget(copies, h);
      Idle(DirOf(s, h), Range(0, 1), [x]);
      StaysSpared(DirOf(s, h), Range(0, 1), [0]);
    }
  }

  lemma StaysSpared(d: Dir, r: Range, chunks: seq<nat>)
    ensures Spared(d, d, r, chunks)
  {
  }

  function AllBut0(): Hosts {
    (h: nat) => h != 0
  }

  function StaleStores(x: byte, y: byte): seq<Store> {
    [map[], map[0 := map[0 := [x]], 1 := map[0 := [x]]], map[0 := map[0 := [x]], 1 := map[0 := [y]]]]
  }

  function StaleEdits(x: byte, y: byte): seq<Edit> {
    [Edit(Range(0, 1), [x]), Edit(Range(0, 1), [y])]
  }

  function StaleUps(): seq<Up> {
    [Up(Anyone(), Anyone()), Up(AllBut0(), Anyone())]
  }

  lemma FirstByte(x: byte)
    ensures Range(0, 1).Valid()
    ensures WrittenToAll(map[], map[0 := map[0 := [x]], 1 := map[0 := [x]]], CopyIsHost, 1, Range(0, 1), [x], Anyone(),
                         Anyone())
  {
    hide Written, WriteTargets;
    var none: Store := map[];
    var mid: Store := map[0 := map[0 := [x]]];
    OneByteCall(none, 0, x, Anyone());
    assert none[0 := DirOf(none, 0)[0 := [x]]] == mid;
    OneByteCall(mid, 1, x, Anyone());
    assert mid[1 := DirOf(mid, 1)[0 := [x]]] == map[0 := map[0 := [x]], 1 := map[0 := [x]]];
  }

  lemma SecondByte(x: byte, y: byte)
    ensures Range(0, 1).Valid()
    ensures WrittenToAll(map[0 := map[0 := [x]], 1 := map[0 := [x]]], map[0 := map[0 := [x]], 1 := map[0 := [y]]],
                         CopyIsHost, 1, Range(0, 1), [y], AllBut0(), Anyone())
  {
    hide Written, WriteTargets;
    var s: Store := map[0 := map[0 := [x]], 1 := map[0 := [x]]];
    OneByteCall(s, 0, y, AllBut0());
    OneByteCall(s, 1, y, Anyone());
    var d: Dir := map[0 := [x]];
    assert DirOf(s, 1) == d && d[0 := [y]] == map[0 := [y]];
    assert s[1 := d[0 := [y]]] == map[0 := map[0 := [x]], 1 := map[0 := [y]]];
  }

  lemma StaleHistory(x: byte, y: byte)
    ensures History(StaleStores(x, y), StaleEdits(x, y), StaleUps(), CopyIsHost, 1)
    ensures ValidEdits(StaleEdits(x, y)) && Contents(StaleEdits(x, y))(0) == y
  {
    hide WrittenToAll;
    FirstByte(x);
    SecondByte(x, y);
    var stores, edits, ups := StaleStores(x, y), StaleEdits(x, y), StaleUps();
    assert ValidEdit(edits[0]) && ValidEdit(edits[1]);
    assert ServedEdit(stores[0], stores[0 + 1], edits[0], ups[0], CopyIsHost, 1);
    assert ServedEdit(stores[1], stores[1 + 1], edits[1], ups[1], CopyIsHost, 1);
  }

  /** One replica. The primary misses the second write, which is served for the replica and so
      succeeds, and is back for the read, which brings the byte of the first write. */
  lemma StaleRead(x: byte, y: byte, reqs: seq<Request>, picks: seq<nat>, ps: seq<Push>, buf: seq<byte>)
    requires Range(0, 1).Valid() && |buf| == 1 && ReadPlan(reqs, picks, CopyIsHost, 1, {}, Range(0, 1))
    requires Gathered(ps, Range(0, 1), StaleStores(x, y)[2], picks)
    ensures History(StaleStores(x, y), StaleEdits(x, y), StaleUps(), CopyIsHost, 1)
    ensures ValidEdits(StaleEdits(x, y)) && Contents(StaleEdits(x, y))(0) == y
    ensures forall p | p in ps :: p.origin + |p.data| <= |buf|
    ensures ApplyPushes(buf, ps)[0] == x
  {
    hide History, Contents, ReadPlan, Gathered, ApplyPushes;
    var r := Range(0, 1);
    assert r.First() == r.Last() == 0;
    StaleHistory(x, y);
    PrimaryIsRead(reqs, picks, CopyIsHost, 1, {}, r, 0);
    ReadReturnsStoredBytes(ps, r, StaleStores(x, y)[2], picks, buf, 0, 0, 0);
  }

  /** The second write reports success, though the primary was lost. */
  lemma StaleWriteSucceeds(fate1: nat -> Fate, fate2: nat -> Fate)
    requires fate1(0) == Vanishes(0) && AllServe(fate2)
    ensures Range(0, 1).Valid()
    ensures var t1, t2 := WriteTargets(CopyIsHost, 0), WriteTargets(CopyIsHost, 1);
            !Complete(Answering(fate1, t1, Range(0, 1)), t1, Range(0, 1)) &&
            Complete(Answering(fate2, t2, Range(0, 1)), t2, Range(0, 1))
  {
    hide ChunksOf, WriteTargets;
    OneTarget(0, 0);
    forall h: nat
      ensures Answering(fate2, WriteTargets(CopyIsHost, 1), Range(0, 1))(h)
    {
      OneTarget(1, h);
      AnsweringIff(fate2, WriteTargets(CopyIsHost, 1), Range(0, 1), h);
    }
  }
}
