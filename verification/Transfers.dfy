/** How the client collects the answers of the hosts, and whom a replicated read turns to next
    (src/client/rpc/forward_data.cpp). */
module Transfers {
  import opened Common
  import opened Chunks
  import opened Planning

  /** A daemon's answer, or an exception while waiting for it. */
  datatype Reply = Answer(err: int, ioSize: nat) | Lost

  /** What becomes of a host in one call: it serves the request; it reports an error, or is not
      heard from, after part of its work. */
  datatype Fate = Serves | Fails(err: int, after: nat) | Vanishes(after: nat)

  /** The first `fate.after` of the things a host does, or all of them. */
  function Done<T>(fate: Fate, things: seq<T>): seq<T> {
    if fate.Serves? || fate.after >= |things| then things else things[..fate.after]
  }

  function SumIo(replies: seq<Reply>): nat {
    if replies == [] then 0
    else
      var last := replies[|replies| - 1];
      SumIo(replies[..|replies| - 1]) + if last.Answer? then last.ioSize else 0
  }

  ghost predicate AllAnswered(replies: seq<Reply>) {
    forall i | 0 <= i < |replies| :: replies[i].Answer? && replies[i].err == 0
  }

  /** The error the client takes from a reply. */
  ghost function ErrorOf(reply: Reply): int {
    if reply.Answer? then reply.err else EIO
  }

  /** Reply `i` is the last with an error. */
  ghost predicate LastBad(replies: seq<Reply>, i: int) {
    0 <= i < |replies| && ErrorOf(replies[i]) != 0 && forall j | i < j < |replies| :: ErrorOf(replies[j]) == 0
  }

  /** A collected error: the last one, and none exactly if there is none. */
  ghost predicate LastError(replies: seq<Reply>, err: int) {
    if AllAnswered(replies) then err == 0
    else exists i :: LastBad(replies, i) && err == ErrorOf(replies[i]) != 0
  }

  lemma LastErrorNext(replies: seq<Reply>, i: nat, err: int)
    requires i < |replies| && LastError(replies[..i], err)
    ensures LastError(replies[..i + 1], if ErrorOf(replies[i]) != 0 then ErrorOf(replies[i]) else err)
  {
    var more, bad := replies[..i + 1], ErrorOf(replies[i]) != 0;
    if bad {
      assert ErrorOf(more[i]) != 0;
      assert LastBad(more, i);
    } else if !AllAnswered(replies[..i]) {
      var k :| LastBad(replies[..i], k) && err == ErrorOf(replies[..i][k]) != 0;
      assert forall j | 0 <= j < i :: more[j] == replies[..i][j];
      assert LastBad(more, k);
      assert ErrorOf(more[k]) != 0;
    }
  }

  lemma AnsweredNext(replies: seq<Reply>, i: nat)
    requires i < |replies|
    ensures AllAnswered(replies[..i + 1]) <==>
            AllAnswered(replies[..i]) && replies[i].Answer? && replies[i].err == 0
    ensures SumIo(replies[..i + 1]) == SumIo(replies[..i]) + if replies[i].Answer? then replies[i].ioSize else 0
  {
    var more := replies[..i + 1];
    assert more[..i] == replies[..i] && more[i] == replies[i];
    if AllAnswered(more) {
      assert forall k | 0 <= k < i :: replies[..i][k] == more[k];
    }
  }

  /** The collecting loop of `forward_write`. With replicas the size is taken as written; any
      error at all yields size zero. */
  method CollectWrite(replies: seq<Reply>, copies: nat, size: nat) returns (err: int, written: nat)
    ensures (err == 0 <==> AllAnswered(replies)) && LastError(replies, err)
    ensures written == if err != 0 then 0 else if copies > 0 then size else SumIo(replies)
  {
    hide AllAnswered, SumIo, LastError;
    err, written := 0, 0;
    NothingAnswered();
    assert replies[..0] == [];
    for i := 0 to |replies|
      invariant (err == 0 <==> AllAnswered(replies[..i])) && LastError(replies[..i], err)
      invariant err == 0 ==> written == SumIo(replies[..i])
    {
      AnsweredNext(replies, i);
      LastErrorNext(replies, i, err);
      match replies[i] {
        case Answer(e, io) =>
          if e != 0 { err := e; } else { written := written + io; }
        case Lost =>
          err := EIO;
      }
    }
    assert replies[..|replies|] == replies;
    if copies > 0 { written := size; }
    if err != 0 { written := 0; }
  }

  lemma NothingAnswered()
    ensures AllAnswered([]) && SumIo([]) == 0 && LastError([], 0)
  {
  }

  lemma {:induction false} SumIoIsTotals(reqs: seq<Request>, replies: seq<Reply>)
    requires |replies| == |reqs|
    requires forall i | 0 <= i < |reqs| :: replies[i].Answer? && replies[i].ioSize == reqs[i].total
    ensures SumIo(replies) == SumTotals(reqs)
  {
    if reqs != [] {
      SumIoIsTotals(reqs[..|reqs| - 1], replies[..|reqs| - 1]);
    }
  }

  /** When every daemon transfers all it was asked for, a request to one copy of each chunk returns
      the full size. */
  lemma FullTransferReturnsSize(reqs: seq<Request>, replies: seq<Reply>, t: Targets, r: Range, wide: bool)
    requires r.Valid() && Dispatched(reqs, t, r, wide) && |replies| == |reqs|
    requires forall c: nat | r.Touches(c) :: |t(c)| == 1
    requires forall i | 0 <= i < |reqs| :: replies[i].Answer? && replies[i].ioSize == reqs[i].total
    ensures SumIo(replies) == r.size
  {
    hide SumIo, SumTotals, Dispatched, Range.First, Range.Last;
    SumIoIsTotals(reqs, replies);
    TotalsConserve(reqs, t, r, 1, wide);
  }

  // ---------------------------------------------------------------- whose error it is

  /** What a host that is asked answers in the end: the error it would report itself, unless it fails
      otherwise or is not heard from. */
  ghost function HostError(fate: Fate, reported: int): int {
    match fate
    case Serves => reported
    case Fails(e, _) => e
    case Vanishes(_) => EIO
  }

  /** Of the hosts asked that have an error, `h` is one whose first chunk comes last. */
  ghost predicate LastFailing(errors: nat -> int, t: Targets, r: Range, h: nat)
    requires r.Valid()
  {
    && ChunksOf(t, r, h) != [] && errors(h) != 0
    && forall x: nat | ChunksOf(t, r, x) != [] && errors(x) != 0 ::
         FirstIn(ChunksOf(t, r, x)) <= FirstIn(ChunksOf(t, r, h))
  }

  /** The error of a call is that of the last host that fails, in the order of the file. */
  lemma CollectedError(reqs: seq<Request>, replies: seq<Reply>, t: Targets, r: Range, wide: bool, errors: nat -> int,
                       err: int)
    requires r.Valid() && Dispatched(reqs, t, r, wide) && |replies| == |reqs| && LastError(replies, err) && err != 0
    requires forall i | 0 <= i < |reqs| :: ErrorOf(replies[i]) == errors(reqs[i].host)
    ensures exists h: nat :: LastFailing(errors, t, r, h) && err == errors(h)
  {
    hide ChunksOf, FirstIn, Discounted, BitsOf;
    var i :| LastBad(replies, i) && err == ErrorOf(replies[i]) != 0;
    var h := reqs[i].host;
    assert Describes(reqs[i], r, ChunksOf(t, r, h), wide);
    forall x: nat | ChunksOf(t, r, x) != [] && errors(x) != 0
      ensures FirstIn(ChunksOf(t, r, x)) <= FirstIn(ChunksOf(t, r, h))
    {
      var j :| 0 <= j < |reqs| && reqs[j].host == x;
      assert ErrorOf(replies[j]) != 0;
    }
    assert LastFailing(errors, t, r, h);
  }

  // ---------------------------------------------------------------- reads

  ghost function LostHosts(reqs: seq<Request>, replies: seq<Reply>): set<int>
    requires |replies| == |reqs|
  {
    set i | 0 <= i < |reqs| && replies[i].Lost? :: ToInt8(reqs[i].host)
  }

  /** The collecting loop of `forward_read`, which remembers the hosts that did not answer. */
  method CollectRead(reqs: seq<Request>, replies: seq<Reply>, failed: set<int>)
    returns (err: int, size: nat, failed': set<int>)
    requires |replies| == |reqs|
    ensures (err == 0 <==> AllAnswered(replies)) && LastError(replies, err)
    ensures size == if err != 0 then 0 else SumIo(replies)
    ensures failed' == failed + LostHosts(reqs, replies)
  {
    hide AllAnswered, SumIo, LostHosts, LastError;
    err, size, failed' := 0, 0, failed;
    NothingAnswered();
    NobodyLost(reqs, replies);
    assert replies[..0] == [];
    for i := 0 to |reqs|
      invariant (err == 0 <==> AllAnswered(replies[..i])) && LastError(replies[..i], err)
      invariant size == SumIo(replies[..i])
      invariant failed' == failed + LostHosts(reqs[..i], replies[..i])
    {
      AnsweredNext(replies, i);
      LastErrorNext(replies, i, err);
      LostNext(reqs, replies, i);
      match replies[i] {
        case Answer(e, io) =>
          if e != 0 { err := e; }
          size := size + io;
        case Lost =>
          err := EIO;
          failed' := failed' + {ToInt8(reqs[i].host)};
      }
    }
    assert replies[..|reqs|] == replies && reqs[..|reqs|] == reqs;
    if err != 0 { size := 0; }
  }

  lemma NobodyLost(reqs: seq<Request>, replies: seq<Reply>)
    ensures LostHosts(reqs[..0], replies[..0]) == {}
  {
  }

  lemma LostNext(reqs: seq<Request>, replies: seq<Reply>, n: nat)
    requires n < |reqs| == |replies|
    ensures LostHosts(reqs[..n + 1], replies[..n + 1]) ==
            LostHosts(reqs[..n], replies[..n]) + if replies[n].Lost? then {ToInt8(reqs[n].host)} else {}
  {
    hide ToInt8;
    var a, b := LostHosts(reqs[..n + 1], replies[..n + 1]), LostHosts(reqs[..n], replies[..n]);
    forall x | x in b ensures x in a {
      var i :| 0 <= i < n && replies[..n][i].Lost? && ToInt8(reqs[..n][i].host) == x;
      assert reqs[..n + 1][i] == reqs[i] && replies[..n + 1][i] == replies[i];
    }
    forall x | x in a ensures x in b || (replies[n].Lost? && x == ToInt8(reqs[n].host)) {
      var i :| 0 <= i < n + 1 && replies[..n + 1][i].Lost? && ToInt8(reqs[..n + 1][i].host) == x;
      if i < n { assert reqs[..n][i] == reqs[i] && replies[..n][i] == replies[i]; }
    }
    if replies[n].Lost? { assert reqs[..n + 1][n] == reqs[n] && replies[..n + 1][n] == replies[n]; }
  }

  // ---------------------------------------------------------------- choosing another copy

  /** Every copy index keeps being drawn. */
  ghost predicate Fair(draw: nat -> nat, copies: nat)
    requires copies > 0
  {
    forall k: nat, n: nat | k < copies :: DrawnAfter(draw, copies, k, n)
  }

  ghost predicate DrawnAfter(draw: nat -> nat, copies: nat, k: nat, n: nat)
    requires copies > 0
  {
    exists i: nat :: n <= i && draw(i) % copies == k
  }

  /** Some copy the modulus can select is on a host that has not failed. */
  ghost predicate SomeCopyLeft(locate: (nat, nat) -> nat, copies: nat, failed: set<int>, c: nat) {
    exists k: nat :: k < copies && ToInt8(locate(c, k)) !in failed
  }

  /** Drawing always comes to an end, from wherever it starts, if and only if one of the copies
      below `copies` is left; the copy with that index itself, the last one, does not help. */
  lemma DrawSucceedsIff(locate: (nat, nat) -> nat, copies: nat, failed: set<int>, draw: nat -> nat, c: nat)
    requires copies > 0 && Fair(draw, copies)
    ensures (forall n: nat :: DrawSucceeds(locate, copies, failed, draw, n, c)) <==>
            SomeCopyLeft(locate, copies, failed, c)
  {
    if SomeCopyLeft(locate, copies, failed, c) {
      var k: nat :| k < copies && ToInt8(locate(c, k)) !in failed;
      forall n: nat
        ensures DrawSucceeds(locate, copies, failed, draw, n, c)
      {
        assert DrawnAfter(draw, copies, k, n);
        var i: nat :| n <= i && draw(i) % copies == k;
      }
    } else if DrawSucceeds(locate, copies, failed, draw, 0, c) {
      AllTried(locate, copies, failed, draw, c, 0);
    }
  }

  /** With every such copy failed no draw succeeds, whatever the numbers drawn. */
  lemma AllTried(locate: (nat, nat) -> nat, copies: nat, failed: set<int>, draw: nat -> nat, c: nat, n: nat)
    requires copies > 0 && !SomeCopyLeft(locate, copies, failed, c)
    ensures !DrawSucceeds(locate, copies, failed, draw, n, c)
  {
  }

  /** One replica, its primary on host 0 lost, the replica itself alive on host 1: the read keeps
      choosing host 0 for ever. */
  lemma LastCopyIsNeverChosen(draw: nat -> nat, c: nat, n: nat)
    ensures var locate := (c: nat, k: nat) => k;
            && !DrawSucceeds(locate, 1, {0}, draw, n, c)
            && ToInt8(locate(c, 0)) in {0} && ToInt8(locate(c, 1)) !in {0}
  {
    var locate := (c: nat, k: nat) => k;
    AllTried(locate, 1, {0}, draw, c, n);
  }

  /** Failed hosts are remembered by 8 bits of their id: with host 0 lost, the copy on host 256 is
      never chosen either, and with it no other. */
  lemma AliasIsShunned(draw: nat -> nat, c: nat, n: nat)
    ensures var locate := (c: nat, k: nat) => 256 * k;
            !DrawSucceeds(locate, 2, {ToInt8(0)}, draw, n, c) && locate(c, 1) != 0
  {
    var locate := (c: nat, k: nat) => 256 * k;
    forall k: nat | k < 2
      ensures ToInt8(locate(c, k)) in {ToInt8(0)}
    {
    }
    AllTried(locate, 2, {ToInt8(0)}, draw, c, n);
  }

  // ---------------------------------------------------------------- progress

  lemma Int8Injective(x: nat, y: nat)
    requires x < 256 && y < 256 && ToInt8(x) == ToInt8(y)
    ensures x == y
  {
  }

  /** The hosts a read of the range may turn to. */
  ghost function Candidates(locate: (nat, nat) -> nat, copies: nat, r: Range): set<nat>
    requires r.Valid()
  {
    set c: nat, k: nat | r.First() <= c < r.Last() + 1 && k < copies :: locate(c, k)
  }

  /** Whoever is asked was chosen for some chunk. */
  lemma AskedWasPicked(reqs: seq<Request>, picks: seq<nat>, r: Range, i: nat) returns (k: nat)
    requires r.Valid() && |picks| == Count(r) && i < |reqs|
    requires Dispatched(reqs, ReadTargets(picks, r.First()), r, true)
    ensures k < |picks| && picks[k] == reqs[i].host
  {
    hide HostChunks, Range.First, Range.Last, BitsOf, Discounted;
    var t, h := ReadTargets(picks, r.First()), reqs[i].host;
    assert Describes(reqs[i], r, ChunksOf(t, r, h), true);
    var c := ChunksOf(t, r, h)[0];
    assert c in ChunksOf(t, r, h);
    HostChunksMembers(t, h, r.First(), r.Last() + 1, c);
    k := c - r.First();
  }

  /** A request never goes to a host known to have failed, and whoever is asked is a candidate. */
  lemma AskedIsFresh(reqs: seq<Request>, picks: seq<nat>, locate: (nat, nat) -> nat, copies: nat, failed: set<int>,
                     r: Range, i: nat)
    requires r.Valid() && copies > 0 && ReadPlan(reqs, picks, locate, copies, failed, r) && i < |reqs|
    ensures ToInt8(reqs[i].host) !in failed
    ensures reqs[i].host in Candidates(locate, copies, r)
  {
    hide Dispatched, ReadTargets, ToInt8, Range.First, Range.Last;
    var k := AskedWasPicked(reqs, picks, r, i);
    assert Eligible(locate, copies, failed, r.First() + k, picks[k]);
    var copy: nat :| copy < copies && picks[k] == locate(r.First() + k, copy);
  }

  lemma LostAreFresh(reqs: seq<Request>, replies: seq<Reply>, picks: seq<nat>, locate: (nat, nat) -> nat, copies: nat,
                     failed: set<int>, r: Range, down: set<int>)
    requires r.Valid() && copies > 0 && ReadPlan(reqs, picks, locate, copies, failed, r) && |replies| == |reqs|
    requires forall i | 0 <= i < |reqs| && replies[i].Lost? :: ToInt8(reqs[i].host) in down
    ensures LostHosts(reqs, replies) <= down && LostHosts(reqs, replies) !! failed
    ensures LostHosts(reqs, replies) == {} <==> forall i | 0 <= i < |reqs| :: !replies[i].Lost?
  {
    hide ReadPlan, Candidates, ToInt8;
    forall x | x in LostHosts(reqs, replies)
      ensures x in down && x !in failed
    {
      var i :| 0 <= i < |reqs| && replies[i].Lost? && x == ToInt8(reqs[i].host);
      AskedIsFresh(reqs, picks, locate, copies, failed, r, i);
    }
    forall i | 0 <= i < |reqs| && replies[i].Lost?
      ensures LostHosts(reqs, replies) != {}
    {
      assert ToInt8(reqs[i].host) in LostHosts(reqs, replies);
    }
  }

  /** A round that loses an answer adds a new host to the failed ones, which stay within those that
      are ever lost. */
  lemma RoundMakesProgress(reqs: seq<Request>, replies: seq<Reply>, picks: seq<nat>, locate: (nat, nat) -> nat,
                           copies: nat, failed: set<int>, r: Range, down: set<int>)
    requires r.Valid() && copies > 0 && ReadPlan(reqs, picks, locate, copies, failed, r) && |replies| == |reqs|
    requires forall i | 0 <= i < |reqs| && replies[i].Lost? :: ToInt8(reqs[i].host) in down
    requires failed <= down
    ensures var failed' := failed + LostHosts(reqs, replies);
            && failed' <= down && |failed| <= |failed'| <= |down|
            && |down - failed'| <= |down - failed|
            && ((exists i :: 0 <= i < |reqs| && replies[i].Lost?) ==>
                  |failed'| > |failed| && |down - failed'| < |down - failed|)
  {
    LostAreFresh(reqs, replies, picks, locate, copies, failed, r, down);
    hide LostHosts, ReadPlan, ToInt8;
    MoreFailed(failed, LostHosts(reqs, replies), down);
  }

  lemma MoreFailed(failed: set<int>, lost: set<int>, down: set<int>)
    requires failed <= down && lost <= down && lost !! failed
    ensures |failed| <= |failed + lost| <= |down| && |down - (failed + lost)| <= |down - failed|
    ensures lost != {} ==> |failed + lost| > |failed| && |down - (failed + lost)| < |down - failed|
  {
    CardinalityMonotone(failed, failed + lost);
    CardinalityMonotone(failed + lost, down);
    CardinalityMonotone(down - (failed + lost), down - failed);
    if x: int :| x in lost {
      assert |failed + {x}| == |failed| + 1;
      CardinalityMonotone(failed + {x}, failed + lost);
      assert x in down - failed;
      CardinalityMonotone(down - (failed + lost), down - failed - {x});
    }
  }

  lemma {:induction false} CardinalityMonotone<T>(a: set<T>, b: set<T>)
    requires a <= b
    ensures |a| <= |b|
  {
    if a != {} {
      var x :| x in a;
      CardinalityMonotone(a - {x}, b - {x});
    }
  }
}
