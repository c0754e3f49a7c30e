/** The write-size cache: clients collect size updates and send them to the server late
    (src/client/cache.cpp, src/client/gkfs_functions.cpp). The cache itself, and the protocol any
    number of clients, each with any number of threads, run with it. */
module SizeCache {
  import opened Common

  /** `cnt` updates recorded since the last flush, and the largest size ever recorded. */
  datatype Entry = Entry(cnt: nat, size: nat)

  type Cache = map<string, Entry>

  function Max(a: nat, b: nat): nat {
    if a < b then b else a
  }

  function Get(m: map<string, nat>, p: string): nat {
    if p in m then m[p] else 0
  }

  function Count(cache: Cache, p: string): nat {
    if p in cache then cache[p].cnt else 0
  }

  function Size(cache: Cache, p: string): nat {
    if p in cache then cache[p].size else 0
  }

  function Recorded(cache: Cache, p: string, size: nat): Cache {
    cache[p := Entry(Count(cache, p) + 1, Max(Size(cache, p), size))]
  }

  /** The counter starts again; the size stays. */
  function Flushed(cache: Cache, p: string): Cache {
    if p in cache then cache[p := Entry(0, cache[p].size)] else cache
  }

  /** What a flush sends: the cached size, if anything was recorded since the last one. */
  function Sent(cache: Cache, p: string): Option<nat> {
    if Count(cache, p) == 0 then None else Some(Size(cache, p))
  }

  class WriteSizeCache {
    var sizeCache: Cache
    const threshold: nat

    constructor (threshold: nat)
      ensures sizeCache == map[] && this.threshold == threshold
    {
      this.threshold := threshold;
      sizeCache := map[];
    }

    method Record(path: string, size: nat) returns (cnt: nat, cached: nat)
      modifies this
      ensures sizeCache == Recorded(old(sizeCache), path, size)
      ensures cnt == Count(sizeCache, path) && cached == Size(sizeCache, path)
    {
      if path !in sizeCache {
        sizeCache := sizeCache[path := Entry(0, 0)];
      }
      var pair := sizeCache[path];
      pair := pair.(cnt := pair.cnt + 1);
      if pair.size < size {
        pair := pair.(size := size);
      }
      sizeCache := sizeCache[path := pair];
      return pair.cnt, pair.size;
    }

    method Reset(path: string, evict: bool) returns (was: Entry)
      modifies this
      ensures was == Entry(Count(old(sizeCache), path), Size(old(sizeCache), path))
      ensures sizeCache == if evict then old(sizeCache) - {path} else Flushed(old(sizeCache), path)
    {
      if path !in sizeCache {
        return Entry(0, 0);
      }
      was := sizeCache[path];
      if evict {
        sizeCache := sizeCache - {path};
      } else {
        sizeCache := sizeCache[path := was.(cnt := 0)];
      }
    }

    /** `evict` is only logged. */
    method Flush(path: string, evict: bool) returns (send: Option<nat>)
      modifies this
      ensures send == Sent(old(sizeCache), path)
      ensures sizeCache == Flushed(old(sizeCache), path)
    {
      var latest := Reset(path, false);
      if latest.cnt == 0 {
        return None;
      }
      return Some(latest.size);
    }

    /** The size update of `gkfs_do_write` for a write that is not an append. */
    method UpdateSize(path: string, offset: nat, count: nat) returns (send: Option<nat>)
      modifies this
      ensures var recorded := Recorded(old(sizeCache), path, offset + count);
              if Count(recorded, path) > threshold
              then send == Sent(recorded, path) && sizeCache == Flushed(recorded, path)
              else send == None && sizeCache == recorded
      ensures Count(old(sizeCache), path) <= threshold ==> Count(sizeCache, path) <= threshold
    {
      var cnt, _ := Record(path, offset + count);
      if cnt > threshold {
        send := Flush(path, false);
      } else {
        send := None;
      }
    }
  }

  // ---------------------------------------------------------------- the protocol

  datatype Message = Message(client: nat, path: string, size: nat)

  /** The caches of the clients, the sizes the server knows, the size updates on their way or
      lost, and the threads that have recorded past the threshold and are about to flush. */
  datatype State = State(caches: seq<Cache>, server: map<string, nat>, flying: multiset<Message>,
                         lost: set<Message>, due: multiset<(nat, string)>)

  /** A write up to `end`; the flush it owes; the flush of fsync or close; the server receiving an
      update; an update failing; a truncation, which decreases the server's size. */
  datatype Step =
    | Write(client: nat, path: string, end: nat)
    | FlushDue(client: nat, path: string)
    | Sync(client: nat, path: string)
    | Deliver(message: Message)
    | Lose(message: Message)
    | Truncate(path: string, cut: nat)

  /** How many clients there are, after how many updates they flush, and the sizes the server knows
      beforehand. */
  datatype Setup = Setup(clients: nat, threshold: nat, server: map<string, nat>)

  function Start(u: Setup): State {
    State(seq(u.clients, _ => map[]), u.server, multiset{}, {}, multiset{})
  }

  predicate Enabled(s: State, step: Step) {
    match step
    case Write(c, _, _) => c < |s.caches|
    case FlushDue(c, p) => c < |s.caches| && (c, p) in s.due
    case Sync(c, _) => c < |s.caches|
    case Deliver(m) => m in s.flying
    case Lose(m) => m in s.flying
    case Truncate(p, cut) => cut < Get(s.server, p)
  }

  function FlushBy(s: State, c: nat, p: string): State
    requires c < |s.caches|
  {
    var sent := Sent(s.caches[c], p);
    s.(caches := s.caches[c := Flushed(s.caches[c], p)],
       flying := if sent.Some? then s.flying + multiset{Message(c, p, sent.value)} else s.flying)
  }

  function WriteBy(s: State, threshold: nat, c: nat, p: string, end: nat): State
    requires c < |s.caches|
  {
    var cache := Recorded(s.caches[c], p, end);
    s.(caches := s.caches[c := cache],
       due := if Count(cache, p) > threshold then s.due + multiset{(c, p)} else s.due)
  }

  /** A step that is not enabled does nothing. */
  function Apply(s: State, threshold: nat, step: Step): State {
    if !Enabled(s, step) then s
    else
      match step
      case Write(c, p, end) => WriteBy(s, threshold, c, p, end)
      case FlushDue(c, p) => FlushBy(s, c, p).(due := s.due - multiset{(c, p)})
      case Sync(c, p) => FlushBy(s, c, p)
      case Deliver(m) => s.(server := s.server[m.path := Max(Get(s.server, m.path), m.size)],
                            flying := s.flying - multiset{m})
      case Lose(m) => s.(flying := s.flying - multiset{m}, lost := s.lost + {m})
      case Truncate(p, cut) => s.(server := s.server[p := cut])
  }

  /** The state after a whole run. */
  function Run(u: Setup, steps: seq<Step>): State {
    if steps == [] then Start(u)
    else Apply(Run(u, steps[..|steps| - 1]), u.threshold, steps[|steps| - 1])
  }

  /** How far the writes of one client to `p` have reached. */
  function ReachOf(u: Setup, steps: seq<Step>, c: nat, p: string): nat {
    if steps == [] then 0
    else
      var before := ReachOf(u, steps[..|steps| - 1], c, p);
      var last := steps[|steps| - 1];
      if last.Write? && last.client == c && c < u.clients && last.path == p then Max(before, last.end) else before
  }

  /** How far any write to `p` has ever reached. */
  function High(u: Setup, steps: seq<Step>, p: string): nat {
    if steps == [] then 0
    else
      var before := High(u, steps[..|steps| - 1], p);
      var last := steps[|steps| - 1];
      if last.Write? && last.client < u.clients && last.path == p then Max(before, last.end) else before
  }

  /** The true size of the file `p`: what it was, cut by truncations and extended by writes. */
  function Reach(u: Setup, steps: seq<Step>, p: string): nat {
    if steps == [] then Get(u.server, p)
    else
      var before, last := steps[..|steps| - 1], steps[|steps| - 1];
      ReachAfter(Reach(u, before, p), Run(u, before), last, p)
  }

  function ReachAfter(reach: nat, s: State, step: Step, p: string): nat {
    if !Enabled(s, step) then reach
    else if step.Write? && step.path == p then Max(reach, step.end)
    else if step.Truncate? && step.path == p then step.cut
    else reach
  }

  /** The largest cached size of `p`. */
  function MaxCached(caches: seq<Cache>, p: string): nat {
    if caches == [] then 0 else Max(Size(caches[0], p), MaxCached(caches[1..], p))
  }

  // ---------------------------------------------------------------- invariants

  lemma StepKeepsClients(s: State, threshold: nat, step: Step)
    ensures |Apply(s, threshold, step).caches| == |s.caches|
  {
    hide Recorded, Flushed, Sent, Count, Get;
  }

  lemma {:induction false} ClientsStay(u: Setup, steps: seq<Step>)
    ensures |Run(u, steps).caches| == u.clients
    decreases |steps|
  {
    hide Apply;
    if steps != [] {
      ClientsStay(u, steps[..|steps| - 1]);
      StepKeepsClients(Run(u, steps[..|steps| - 1]), u.threshold, steps[|steps| - 1]);
    }
  }

  lemma {:induction false} MaxCachedUpdate(caches: seq<Cache>, p: string, c: nat, cache: Cache, e: nat)
    requires c < |caches| && Size(cache, p) == Max(Size(caches[c], p), e)
    ensures MaxCached(caches[c := cache], p) == Max(MaxCached(caches, p), e)
    decreases |caches|
  {
    if c == 0 {
      assert caches[c := cache][1..] == caches[1..];
    } else {
      assert caches[c := cache][1..] == caches[1..][c - 1 := cache];
      MaxCachedUpdate(caches[1..], p, c - 1, cache, e);
    }
  }

  lemma {:induction false} MaxCachedSame(caches: seq<Cache>, p: string, c: nat, cache: Cache)
    requires c < |caches| && Size(cache, p) == Size(caches[c], p)
    ensures MaxCached(caches[c := cache], p) == MaxCached(caches, p)
  {
    MaxCachedUpdate(caches, p, c, cache, 0);
  }

  lemma {:induction false} MaxCachedBounds(caches: seq<Cache>, p: string, c: nat)
    requires c < |caches|
    ensures Size(caches[c], p) <= MaxCached(caches, p)
    decreases |caches|
  {
    if c > 0 {
      MaxCachedBounds(caches[1..], p, c - 1);
    }
  }

  lemma {:induction false} NothingCached(clients: nat, p: string)
    ensures MaxCached(seq(clients, _ => map[]), p) == 0
    decreases clients
  {
    if clients > 0 {
      assert seq<Cache>(clients, _ => map[])[1..] == seq<Cache>(clients - 1, _ => map[]);
      NothingCached(clients - 1, p);
    }
  }

  lemma RecordedSize(cache: Cache, p: string, q: string, end: nat)
    ensures Size(Recorded(cache, p, end), q) == if p == q then Max(Size(cache, p), end) else Size(cache, q)
    ensures Count(Recorded(cache, p, end), q) == if p == q then Count(cache, p) + 1 else Count(cache, q)
  {
  }

  lemma FlushedSize(cache: Cache, p: string, q: string)
    ensures Size(Flushed(cache, p), q) == Size(cache, q)
    ensures Count(Flushed(cache, p), q) == if p == q then 0 else Count(cache, q)
  {
  }

  /** One step's effect on the largest cached size. */
  lemma CachedStep(s: State, threshold: nat, step: Step, p: string)
    ensures MaxCached(Apply(s, threshold, step).caches, p) ==
            if step.Write? && step.client < |s.caches| && step.path == p then Max(MaxCached(s.caches, p), step.end)
            else MaxCached(s.caches, p)
  {
    hide MaxCached, Size, Recorded, Flushed, Sent, Count, Max;
    if Enabled(s, step) {
      match step
      case Write(c, q, end) =>
        RecordedSize(s.caches[c], q, p, end);
        if q == p {
          MaxCachedUpdate(s.caches, p, c, Recorded(s.caches[c], q, end), end);
        } else {
          MaxCachedSame(s.caches, p, c, Recorded(s.caches[c], q, end));
        }
      case FlushDue(c, q) =>
        FlushedSize(s.caches[c], q, p);
        MaxCachedSame(s.caches, p, c, Flushed(s.caches[c], q));
      case Sync(c, q) =>
        FlushedSize(s.caches[c], q, p);
        MaxCachedSame(s.caches, p, c, Flushed(s.caches[c], q));
      case Deliver(m) =>
      case Lose(m) =>
      case Truncate(q, cut) =>
    }
  }

  lemma {:induction false} CachedIsHigh(u: Setup, steps: seq<Step>, p: string)
    ensures MaxCached(Run(u, steps).caches, p) == High(u, steps, p)
    decreases |steps|
  {
    hide MaxCached, Apply;
    if steps == [] {
      NothingCached(u.clients, p);
    } else {
      var k := |steps| - 1;
      CachedIsHigh(u, steps[..k], p);
      ClientsStay(u, steps[..k]);
      CachedStep(Run(u, steps[..k]), u.threshold, steps[k], p);
    }
  }

  /** Every update in flight is within what is cached; the true size is known to the server or a
      client; the server knows no more than the true size or what some client still has cached. */
  ghost predicate Bounded(s: State, p: string, reach: nat) {
    && (forall m | m in s.flying && m.path == p :: m.size <= MaxCached(s.caches, p))
    && reach <= Max(Get(s.server, p), MaxCached(s.caches, p))
    && Get(s.server, p) <= Max(reach, MaxCached(s.caches, p))
  }

  lemma BoundedFlush(s: State, c: nat, q: string, p: string, reach: nat)
    requires Bounded(s, p, reach) && c < |s.caches|
    ensures Bounded(FlushBy(s, c, q), p, reach)
  {
    FlushedSize(s.caches[c], q, p);
    MaxCachedSame(s.caches, p, c, Flushed(s.caches[c], q));
    MaxCachedBounds(s.caches, p, c);
    hide MaxCached, Flushed;
  }

  lemma BoundedWrite(s: State, threshold: nat, c: nat, q: string, end: nat, p: string, reach: nat)
    requires Bounded(s, p, reach) && c < |s.caches|
    ensures Bounded(WriteBy(s, threshold, c, q, end), p, if q == p then Max(reach, end) else reach)
  {
    CachedStep(s, threshold, Write(c, q, end), p);
    hide MaxCached, Recorded;
  }

  lemma BoundedDeliver(s: State, threshold: nat, m: Message, p: string, reach: nat)
    requires Bounded(s, p, reach) && m in s.flying
    ensures Bounded(Apply(s, threshold, Deliver(m)), p, reach)
  {
    hide MaxCached;
  }

  /** What is due or lost does not matter, nor that fewer updates are in flight. */
  lemma BoundedWithLess(s: State, s': State, p: string, reach: nat)
    requires Bounded(s, p, reach) && s'.caches == s.caches && s'.server == s.server && s'.flying <= s.flying
    ensures Bounded(s', p, reach)
  {
    hide MaxCached, Get;
  }

  lemma BoundedTruncate(s: State, q: string, cut: nat, p: string, reach: nat)
    requires Bounded(s, p, reach) && cut < Get(s.server, q)
    ensures Bounded(s.(server := s.server[q := cut]), p, if q == p then cut else reach)
  {
    hide MaxCached;
  }

  lemma BoundedStep(s: State, threshold: nat, step: Step, p: string, reach: nat)
    requires Bounded(s, p, reach)
    ensures Bounded(Apply(s, threshold, step), p, ReachAfter(reach, s, step, p))
  {
    hide Bounded, WriteBy, FlushBy, Get;
    if Enabled(s, step) {
      match step
      case Write(c, q, end) =>
        BoundedWrite(s, threshold, c, q, end, p, reach);
      case FlushDue(c, q) =>
        BoundedFlush(s, c, q, p, reach);
        BoundedWithLess(FlushBy(s, c, q), FlushBy(s, c, q).(due := s.due - multiset{(c, q)}), p, reach);
      case Sync(c, q) =>
        BoundedFlush(s, c, q, p, reach);
      case Deliver(m) =>
        BoundedDeliver(s, threshold, m, p, reach);
      case Lose(m) =>
        BoundedWithLess(s, s.(flying := s.flying - multiset{m}, lost := s.lost + {m}), p, reach);
      case Truncate(q, cut) =>
        BoundedTruncate(s, q, cut, p, reach);
    }
  }

  lemma {:induction false} AlwaysBounded(u: Setup, steps: seq<Step>, p: string)
    ensures Bounded(Run(u, steps), p, Reach(u, steps, p))
    decreases |steps|
  {
    if steps != [] {
      AlwaysBounded(u, steps[..|steps| - 1], p);
      hide Bounded, Apply, ReachAfter;
      BoundedStep(Run(u, steps[..|steps| - 1]), u.threshold, steps[|steps| - 1], p, Reach(u, steps[..|steps| - 1], p));
    }
  }

  /** The server takes an update once: it then knows at least that size, and the update is no longer
      on its way. */
  lemma DeliveredOnce(s: State, threshold: nat, m: Message)
    requires m in s.flying
    ensures var u := Apply(s, threshold, Deliver(m));
            && u.flying[m] == s.flying[m] - 1 && (forall x: Message | x != m :: u.flying[x] == s.flying[x])
            && Get(u.server, m.path) >= m.size && u.caches == s.caches && u.lost == s.lost
  {
  }

  /** In every run, truncations included, the larger of what the server knows and what some client
      has cached is no less than the true size of a file, and is the true size if and only if no
      write ever reached beyond it. */
  lemma TrueSizeIff(u: Setup, steps: seq<Step>, p: string)
    ensures var s := Run(u, steps);
            var known := Max(Get(s.server, p), MaxCached(s.caches, p));
            && known >= Reach(u, steps, p)
            && (known == Reach(u, steps, p) <==> High(u, steps, p) <= Reach(u, steps, p))
  {
    AlwaysBounded(u, steps, p);
    CachedIsHigh(u, steps, p);
    hide Run, Reach, High, MaxCached;
  }

  /** No truncation of `p`. */
  ghost predicate NoCut(steps: seq<Step>, p: string) {
    forall i | 0 <= i < |steps| :: !(steps[i].Truncate? && steps[i].path == p)
  }

  lemma {:induction false} HighWithinReach(u: Setup, steps: seq<Step>, p: string)
    requires NoCut(steps, p)
    ensures High(u, steps, p) <= Reach(u, steps, p)
    decreases |steps|
  {
    if steps != [] {
      HighWithinReach(u, steps[..|steps| - 1], p);
      ClientsStay(u, steps[..|steps| - 1]);
    }
  }

  /** In every run that does not truncate a file, its true size is the larger of what the server
      knows and what some client has cached. */
  lemma TrueSize(u: Setup, steps: seq<Step>, p: string)
    requires NoCut(steps, p)
    ensures var s := Run(u, steps);
            Reach(u, steps, p) == Max(Get(s.server, p), MaxCached(s.caches, p))
  {
    TrueSizeIff(u, steps, p);
    HighWithinReach(u, steps, p);
    hide Run, Reach, High, MaxCached;
  }

  // ---------------------------------------------------------------- the threshold

  ghost predicate WithinThreshold(s: State, threshold: nat, c: nat, p: string) {
    c < |s.caches| ==> Count(s.caches[c], p) <= threshold + s.due[(c, p)]
  }

  lemma ThresholdStep(s: State, threshold: nat, step: Step, c: nat, p: string)
    requires WithinThreshold(s, threshold, c, p)
    ensures WithinThreshold(Apply(s, threshold, step), threshold, c, p)
  {
    if Enabled(s, step) {
      match step
      case Write(d, q, end) =>
        RecordedSize(s.caches[d], q, p, end);
        RecordedSize(s.caches[d], q, q, end);
        hide Recorded, Count;
      case FlushDue(d, q) =>
        FlushedSize(s.caches[d], q, p);
        hide Flushed, Count, Sent;
      case Sync(d, q) =>
        FlushedSize(s.caches[d], q, p);
        hide Flushed, Count, Sent;
      case Deliver(m) =>
      case Lose(m) =>
      case Truncate(q, cut) =>
    }
  }

  /** In every run, a client holds back at most `threshold` updates of a file, and one more for
      each of its threads that is about to flush. */
  lemma {:induction false} PendingIsBounded(u: Setup, steps: seq<Step>, c: nat, p: string)
    requires c < u.clients
    ensures var s := Run(u, steps);
            c < |s.caches| && Count(s.caches[c], p) <= u.threshold + s.due[(c, p)]
    decreases |steps|
  {
    ClientsStay(u, steps);
    if steps != [] {
      var k := |steps| - 1;
      PendingIsBounded(u, steps[..k], c, p);
      ThresholdStep(Run(u, steps[..k]), u.threshold, steps[k], c, p);
    }
  }

  // ---------------------------------------------------------------- fsync and close

  lemma OwnStep(s: State, threshold: nat, step: Step, c: nat, p: string)
    requires c < |s.caches|
    ensures var t := Apply(s, threshold, step);
            && c < |t.caches|
            && Size(t.caches[c], p) == if step.Write? && step.client == c && step.path == p
                                       then Max(Size(s.caches[c], p), step.end) else Size(s.caches[c], p)
  {
    hide Size, Count, Max, Recorded, Flushed, Sent;
    if Enabled(s, step) {
      match step
      case Write(d, q, end) =>
        RecordedSize(s.caches[d], q, p, end);
      case FlushDue(d, q) =>
        FlushedSize(s.caches[d], q, p);
      case Sync(d, q) =>
        FlushedSize(s.caches[d], q, p);
      case Deliver(m) =>
      case Lose(m) =>
      case Truncate(q, cut) =>
    }
  }

  /** A client's cached size is how far its own writes have reached. */
  lemma {:induction false} OwnReach(u: Setup, steps: seq<Step>, c: nat, p: string)
    requires c < u.clients
    ensures var s := Run(u, steps);
            c < |s.caches| && Size(s.caches[c], p) == ReachOf(u, steps, c, p)
    decreases |steps|
  {
    hide Apply;
    ClientsStay(u, steps);
    if steps != [] {
      var k := |steps| - 1;
      OwnReach(u, steps[..k], c, p);
      OwnStep(Run(u, steps[..k]), u.threshold, steps[k], c, p);
    }
  }

  /** An update of `c` for `p`, on its way or lost, of at least `size`. */
  ghost predicate Carried(s: State, c: nat, p: string, size: nat) {
    exists m :: (m in s.flying || m in s.lost) && m.client == c && m.path == p && m.size >= size
  }

  /** With its counter at zero, a client's size has reached the server or was sent to it. */
  ghost predicate Covered(s: State, c: nat, p: string) {
    c < |s.caches| && Count(s.caches[c], p) == 0 ==>
      Size(s.caches[c], p) <= Get(s.server, p) || Carried(s, c, p, Size(s.caches[c], p))
  }

  lemma CoveredFlush(s: State, d: nat, q: string, c: nat, p: string)
    requires Covered(s, c, p) && d < |s.caches|
    ensures Covered(FlushBy(s, d, q), c, p)
  {
    FlushedSize(s.caches[d], q, p);
    var t := FlushBy(s, d, q);
    if c < |s.caches| && Count(t.caches[c], p) == 0 {
      if Count(s.caches[c], p) == 0 {
        KeepCarried(s, t, c, p, Size(s.caches[c], p));
      } else {
        var m := Message(c, p, Size(s.caches[c], p));
        assert m in t.flying;
        assert Carried(t, c, p, m.size);
      }
    }
  }

  lemma KeepCarried(s: State, t: State, c: nat, p: string, size: nat)
    requires forall m :: m in s.flying || m in s.lost ==> m in t.flying || m in t.lost
    ensures Carried(s, c, p, size) ==> Carried(t, c, p, size)
  {
  }

  lemma CoveredDeliver(s: State, threshold: nat, m: Message, c: nat, p: string)
    requires Covered(s, c, p) && m in s.flying
    ensures Covered(Apply(s, threshold, Deliver(m)), c, p)
  {
    var t := Apply(s, threshold, Deliver(m));
    if c < |s.caches| && Count(s.caches[c], p) == 0 && Size(s.caches[c], p) > Get(t.server, p) {
      var k :| (k in s.flying || k in s.lost) && k.client == c && k.path == p && k.size >= Size(s.caches[c], p);
      assert k != m;
      assert k in t.flying || k in t.lost;
    }
  }

  lemma CoveredStep(s: State, threshold: nat, step: Step, c: nat, p: string)
    requires Covered(s, c, p) && !(step.Truncate? && step.path == p)
    ensures Covered(Apply(s, threshold, step), c, p)
  {
    if Enabled(s, step) {
      match step
      case Write(d, q, end) =>
        RecordedSize(s.caches[d], q, p, end);
        hide Recorded, Count, Size;
        KeepCarried(s, Apply(s, threshold, step), c, p, if c < |s.caches| then Size(s.caches[c], p) else 0);
      case FlushDue(d, q) =>
        CoveredFlush(s, d, q, c, p);
        hide FlushBy, Count, Size;
        var f := FlushBy(s, d, q);
        KeepCarried(f, f.(due := s.due - multiset{(d, q)}), c, p, if c < |f.caches| then Size(f.caches[c], p) else 0);
      case Sync(d, q) =>
        CoveredFlush(s, d, q, c, p);
      case Deliver(m) =>
        CoveredDeliver(s, threshold, m, c, p);
      case Lose(m) =>
        hide Count, Size;
        KeepCarried(s, Apply(s, threshold, step), c, p, if c < |s.caches| then Size(s.caches[c], p) else 0);
      case Truncate(q, cut) =>
        hide Count, Size;
        KeepCarried(s, Apply(s, threshold, step), c, p, if c < |s.caches| then Size(s.caches[c], p) else 0);
    }
  }

  lemma {:induction false} AlwaysCovered(u: Setup, steps: seq<Step>, c: nat, p: string)
    requires NoCut(steps, p)
    ensures Covered(Run(u, steps), c, p)
    decreases |steps|
  {
    if steps != [] {
      AlwaysCovered(u, steps[..|steps| - 1], c, p);
      hide Covered, Apply;
      CoveredStep(Run(u, steps[..|steps| - 1]), u.threshold, steps[|steps| - 1], c, p);
    }
  }

  /** Nothing of `c` for `p` is in flight or was lost. */
  ghost predicate Settled(s: State, c: nat, p: string) {
    forall m :: m in s.flying || m in s.lost ==> !(m.client == c && m.path == p)
  }

  lemma QuietCovers(u: Setup, steps: seq<Step>, c: nat, p: string)
    requires c < u.clients && NoCut(steps, p)
    requires var s := Run(u, steps);
             Settled(s, c, p) && c < |s.caches| && Count(s.caches[c], p) == 0
    ensures ReachOf(u, steps, c, p) <= Get(Run(u, steps).server, p)
  {
    AlwaysCovered(u, steps, c, p);
    OwnReach(u, steps, c, p);
    hide Run, ReachOf;
  }

  lemma ZeroStays(s: State, threshold: nat, step: Step, c: nat, p: string)
    requires c < |s.caches| && Count(s.caches[c], p) == 0
    requires !(step.Write? && step.client == c && step.path == p)
    ensures var t := Apply(s, threshold, step); c < |t.caches| && Count(t.caches[c], p) == 0
  {
    if Enabled(s, step) {
      match step
      case Write(d, q, end) =>
        RecordedSize(s.caches[d], q, p, end);
      case FlushDue(d, q) =>
        FlushedSize(s.caches[d], q, p);
      case Sync(d, q) =>
        FlushedSize(s.caches[d], q, p);
      case Deliver(m) =>
      case Lose(m) =>
      case Truncate(q, cut) =>
    }
  }

  /** No further write of `c` to `p`. */
  ghost predicate NoWrite(steps: seq<Step>, c: nat, p: string) {
    forall i | 0 <= i < |steps| :: !(steps[i].Write? && steps[i].client == c && steps[i].path == p)
  }

  lemma RunMore(u: Setup, steps: seq<Step>, step: Step)
    ensures Run(u, steps + [step]) == Apply(Run(u, steps), u.threshold, step)
  {
    assert (steps + [step])[..|steps|] == steps;
  }

  lemma ReachMore(u: Setup, steps: seq<Step>, step: Step, c: nat, p: string)
    requires !(step.Write? && step.client == c && step.path == p)
    ensures ReachOf(u, steps + [step], c, p) == ReachOf(u, steps, c, p)
  {
    assert (steps + [step])[..|steps|] == steps;
  }

  lemma ZeroAtSync(s: State, threshold: nat, c: nat, p: string)
    requires c < |s.caches|
    ensures var t := Apply(s, threshold, Sync(c, p)); c < |t.caches| && Count(t.caches[c], p) == 0
  {
    FlushedSize(s.caches[c], p, p);
  }

  lemma {:induction false} ZeroSinceSync(u: Setup, before: seq<Step>, after: seq<Step>, c: nat,
                                         p: string)
    requires c < u.clients && NoWrite(after, c, p)
    ensures var s := Run(u, before + [Sync(c, p)] + after);
            c < |s.caches| && Count(s.caches[c], p) == 0
    ensures ReachOf(u, before + [Sync(c, p)] + after, c, p) == ReachOf(u, before, c, p)
    decreases |after|
  {
    hide Count, Apply, Run, ReachOf;
    var synced := before + [Sync(c, p)];
    if after == [] {
      assert synced + after == synced;
      ClientsStay(u, before);
      RunMore(u, before, Sync(c, p));
      ReachMore(u, before, Sync(c, p), c, p);
      ZeroAtSync(Run(u, before), u.threshold, c, p);
    } else {
      var rest, last := after[..|after| - 1], after[|after| - 1];
      assert synced + after == (synced + rest) + [last];
      ZeroSinceSync(u, before, rest, c, p);
      RunMore(u, synced + rest, last);
      ReachMore(u, synced + rest, last, c, p);
      ZeroStays(Run(u, synced + rest), u.threshold, last, c, p);
    }
  }

  /** After fsync or close, whatever else happens, once nothing the client sent for the file is
      in flight or lost the server covers all the client had written before. */
  lemma SyncCovers(u: Setup, before: seq<Step>, after: seq<Step>, c: nat, p: string)
    requires c < u.clients && NoWrite(after, c, p) && NoCut(before + [Sync(c, p)] + after, p)
    requires Settled(Run(u, before + [Sync(c, p)] + after), c, p)
    ensures ReachOf(u, before, c, p) <=
            Get(Run(u, before + [Sync(c, p)] + after).server, p) <=
            Reach(u, before + [Sync(c, p)] + after, p)
  {
    var all := before + [Sync(c, p)] + after;
    ZeroSinceSync(u, before, after, c, p);
    QuietCovers(u, all, c, p);
    TrueSize(u, all, p);
    hide Run, ReachOf, Reach, MaxCached;
  }

  // ---------------------------------------------------------------- what fsync does not promise

  lemma SmallCaches(p: string, end: nat)
    ensures Recorded(map[], p, end) == map[p := Entry(1, end)]
    ensures Flushed(map[p := Entry(1, end)], p) == map[p := Entry(0, end)]
    ensures Flushed(map[p := Entry(0, end)], p) == map[p := Entry(0, end)]
    ensures Sent(map[p := Entry(1, end)], p) == Some(end) && Sent(map[p := Entry(0, end)], p) == None
    ensures Count(map[p := Entry(1, end)], p) == 1
  {
  }

  lemma OneClient(a: Cache, b: Cache)
    ensures [a][0 := b] == [b]
  {
  }

  /** A flush with nothing recorded since the last one changes nothing. */
  lemma IdleSync(s: State, threshold: nat, p: string, end: nat)
    requires s.caches == [map[p := Entry(0, end)]]
    ensures Apply(s, threshold, Sync(0, p)) == s
    ensures MaxCached(s.caches, p) == end
  {
    SmallCaches(p, end);
    OneClient(map[p := Entry(0, end)], map[p := Entry(0, end)]);
    assert s.caches[1..] == [];
    hide Flushed, Sent;
  }

  lemma SyncedOnce(p: string, end: nat, threshold: nat)
    requires threshold > 0
    ensures Run(Setup(1, threshold, map[]), [Write(0, p, end), Sync(0, p)]) ==
            State([map[p := Entry(0, end)]], map[], multiset{Message(0, p, end)}, {}, multiset{})
  {
    var s0, w, f := Start(Setup(1, threshold, map[])), Write(0, p, end), Sync(0, p);
    assert s0.caches == [map[]];
    SmallCaches(p, end);
    OneClient(map[], map[p := Entry(1, end)]);
    OneClient(map[p := Entry(1, end)], map[p := Entry(0, end)]);
    hide Recorded, Flushed, Sent, Count;
    var s1 := Apply(s0, threshold, w);
    assert s1 == State([map[p := Entry(1, end)]], map[], multiset{}, {}, multiset{});
    RunMore(Setup(1, threshold, map[]), [], w);
    RunMore(Setup(1, threshold, map[]), [w], f);
    assert [] + [w] == [w] && [w] + [f] == [w, f];
    hide Run;
    var s2 := Apply(s1, threshold, f);
    assert s2.caches == [map[p := Entry(0, end)]];
    assert s2.flying == multiset{Message(0, p, end)};
  }

  lemma LoseOnly(caches: seq<Cache>, m: Message, threshold: nat)
    ensures Apply(State(caches, map[], multiset{m}, {}, multiset{}), threshold, Lose(m)) ==
            State(caches, map[], multiset{}, {m}, multiset{})
  {
    assert multiset{m} - multiset{m} == multiset{};
    assert {} + {m} == {m};
  }

  /** A second fsync after the first one's update was lost sends nothing: the counter was
      cleared before the update was sent. Nothing is in flight and the server knows nothing. */
  lemma SyncAfterLoss(p: string, end: nat, threshold: nat)
    requires threshold > 0
    ensures var m := Message(0, p, end);
            var s := Run(Setup(1, threshold, map[]), [Write(0, p, end), Sync(0, p), Lose(m), Sync(0, p)]);
            Get(s.server, p) == 0 && s.flying == multiset{} && MaxCached(s.caches, p) == end
  {
    var w, f, m := Write(0, p, end), Sync(0, p), Message(0, p, end);
    SyncedOnce(p, end, threshold);
    RunMore(Setup(1, threshold, map[]), [w, f], Lose(m));
    RunMore(Setup(1, threshold, map[]), [w, f, Lose(m)], f);
    assert [w, f] + [Lose(m)] == [w, f, Lose(m)] && [w, f, Lose(m)] + [f] == [w, f, Lose(m), f];
    hide Run;
    var s := State([map[p := Entry(0, end)]], map[], multiset{}, {m}, multiset{});
    LoseOnly(s.caches, m, threshold);
    hide Apply;
    IdleSync(s, threshold, p, end);
    hide MaxCached;
  }

  /** An fsync that finds another thread's update still in flight also returns at once. */
  lemma SyncDuringFlight(p: string, end: nat, threshold: nat)
    requires threshold > 0
    ensures var s := Run(Setup(1, threshold, map[]), [Write(0, p, end), Sync(0, p), Sync(0, p)]);
            Get(s.server, p) == 0 && MaxCached(s.caches, p) == end
  {
    var w, f := Write(0, p, end), Sync(0, p);
    SyncedOnce(p, end, threshold);
    RunMore(Setup(1, threshold, map[]), [w, f], f);
    assert [w, f] + [f] == [w, f, f];
    hide Run;
    var s := State([map[p := Entry(0, end)]], map[], multiset{Message(0, p, end)}, {}, multiset{});
    IdleSync(s, threshold, p, end);
    hide MaxCached;
  }

  lemma ReachAfterMore(u: Setup, steps: seq<Step>, step: Step, p: string)
    ensures Reach(u, steps + [step], p) == ReachAfter(Reach(u, steps, p), Run(u, steps), step, p)
  {
    assert (steps + [step])[..|steps|] == steps;
  }

  /** A flush never forgets a size. So in every run, when the file is cut and a client then writes
      to `end` and syncs, the server is left with the right size if and only if that client had
      never before written beyond it. */
  lemma SizeAfterTruncateIff(u: Setup, steps: seq<Step>, p: string, cut: nat, c: nat, end: nat)
    requires c < u.clients && cut < Get(Run(u, steps).server, p)
    ensures var m := Message(c, p, Max(ReachOf(u, steps, c, p), end));
            var all := steps + [Truncate(p, cut)] + [Write(c, p, end)] + [Sync(c, p)] + [Deliver(m)];
            && Reach(u, all, p) == Max(cut, end)
            && (Get(Run(u, all).server, p) == Reach(u, all, p) <==> ReachOf(u, steps, c, p) <= Max(cut, end))
  {
    hide Run, Reach, ReachOf, Apply;
    var m := Message(c, p, Max(ReachOf(u, steps, c, p), end));
    var s1 := steps + [Truncate(p, cut)];
    var s2 := s1 + [Write(c, p, end)];
    var s3 := s2 + [Sync(c, p)];
    RunMore(u, steps, Truncate(p, cut));
    RunMore(u, s1, Write(c, p, end));
    RunMore(u, s2, Sync(c, p));
    RunMore(u, s3, Deliver(m));
    ReachAfterMore(u, steps, Truncate(p, cut), p);
    ReachAfterMore(u, s1, Write(c, p, end), p);
    ReachAfterMore(u, s2, Sync(c, p), p);
    ReachAfterMore(u, s3, Deliver(m), p);
    ClientsStay(u, s1);
    OwnReach(u, steps, c, p);
    CutWriteSync(Run(u, steps), u.threshold, p, cut, c, end, m.size);
  }

  /** The four steps on any state. */
  lemma CutWriteSync(s: State, threshold: nat, p: string, cut: nat, c: nat, end: nat, size: nat)
    requires c < |s.caches| && cut < Get(s.server, p) && size == Max(Size(s.caches[c], p), end)
    ensures var a := Apply(s, threshold, Truncate(p, cut));
            var b := Apply(a, threshold, Write(c, p, end));
            var d := Apply(b, threshold, Sync(c, p));
            && Get(Apply(d, threshold, Deliver(Message(c, p, size))).server, p) == Max(cut, size)
            && c < |a.caches| && Size(a.caches[c], p) == Size(s.caches[c], p)
  {
    RecordedSize(s.caches[c], p, p, end);
    hide Recorded, Flushed, Count, Size;
    var a := Apply(s, threshold, Truncate(p, cut));
    var b := Apply(a, threshold, Write(c, p, end));
    assert b.caches[c] == Recorded(s.caches[c], p, end) && Get(b.server, p) == cut;
    var d := Apply(b, threshold, Sync(c, p));
    assert Message(c, p, size) in d.flying && Get(d.server, p) == cut;
  }
}
