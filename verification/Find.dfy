/** The directory pass of the parallel find (examples/gfind/sfind.cpp): one listing after the other is
    fetched into the same buffer, and the records in it are walked. */
module Find {
  import opened Common
  import opened Wire
  import opened Dirents

  /** The buffer: room for 102400 records of `dirent_extended`, 24 bytes each, with long names. */
  const BUFFER: nat := (24 + 255) * 1024 * 100

  const SLASH: byte := 47

  /** The directories among `es`, as paths below `path`. */
  function SubDirs(path: seq<byte>, es: seq<Entry>): seq<seq<byte>> {
    if es == [] then []
    else
      var e := es[|es| - 1];
      var slash: seq<byte> := if path != [] && path[|path| - 1] == SLASH then [] else [SLASH];
      SubDirs(path, es[..|es| - 1]) + if e.kind == 1 then [path + slash + e.name] else []
  }

  /** How many entries that are no directories the filter accepts. */
  function Accepted(keep: Entry -> bool, es: seq<Entry>): nat {
    if es == [] then 0
    else
      var e := es[|es| - 1];
      Accepted(keep, es[..|es| - 1]) + if e.kind != 1 && keep(e) then 1 else 0
  }

  // ---------------------------------------------------------------- one listing

  lemma WalkStep(b: seq<byte>, at: nat, end: nat)
    requires at < end
    ensures Walkable(Leading, b, at, end) ==> at + 19 <= |b| && 0 in b[at + 19..]
    ensures at + 19 <= |b| && 0 in b[at + 19..] ==>
              if CString(b[at + 19..], 0) == [] then Walkable(Leading, b, at, end) && Walk(Leading, b, at, end) == []
              else if RecordLength(b, at) == 0 || at + RecordLength(b, at) > |b| then !Walkable(Leading, b, at, end)
              else
                && EntryAt(Leading, b, at).name != []
                && Walk(Leading, b, at, end) ==
                     [EntryAt(Leading, b, at)] + Walk(Leading, b, at + RecordLength(b, at), end)
                && (Walkable(Leading, b, at, end) <==> Walkable(Leading, b, at + RecordLength(b, at), end))
  {
    hide RecordLength, CString;
  }

  lemma WalkEnd(b: seq<byte>, at: nat, end: nat)
    ensures at >= end ==> Walk(Leading, b, at, end) == [] && Walkable(Leading, b, at, end)
  {
  }

  lemma OneMore(path: seq<byte>, keep: Entry -> bool, es: seq<Entry>, e: Entry)
    requires path != []
    ensures var slash: seq<byte> := if path[|path| - 1] == SLASH then [] else [SLASH];
            SubDirs(path, es + [e]) == SubDirs(path, es) + if e.kind == 1 then [path + slash + e.name] else []
    ensures Accepted(keep, es + [e]) == Accepted(keep, es) + if e.kind != 1 && keep(e) then 1 else 0
  {
    assert (es + [e])[..|es|] == es;
  }

  /** What the three counters say when the entries `es` have been looked at. */
  ghost predicate Tallied(path: seq<byte>, keep: Entry -> bool, es: seq<Entry>, checked: nat, found: nat,
                          dirs: seq<seq<byte>>)
  {
    checked == |es| && found == Accepted(keep, es) && dirs == SubDirs(path, es)
  }

  /** The record walk, which takes the returned length as an unsigned word: every entry up to that
      length or to an empty name is looked at once, the directories are queued and the others are put
      through the filter. It is not `ok` when the walk would leave the buffer, or never get past a
      record of length zero. */
  method WalkRecords(path: seq<byte>, buf: array<byte>, n: int, keep: Entry -> bool, checked0: nat, found0: nat,
                     dirs0: seq<seq<byte>>, ghost before: seq<Entry>)
    returns (ok: bool, checked: nat, found: nat, dirs: seq<seq<byte>>)
    requires path != [] && Tallied(path, keep, before, checked0, found0, dirs0)
    ensures ok <==> Walkable(Leading, buf[..], 0, n % UINT64)
    ensures ok ==> Tallied(path, keep, before + Walk(Leading, buf[..], 0, n % UINT64), checked, found, dirs)
  {
    hide EntryAt, RecordLength, CString, SubDirs, Accepted, Walk, Walkable;
    ok, checked, found, dirs := true, checked0, found0, dirs0;
    var end := n % UINT64;
    var total, temp := 0, 0;
    ghost var seen := before;
    while total < end
      invariant ok && total == temp
      invariant Walkable(Leading, buf[..], temp, end) <==> Walkable(Leading, buf[..], 0, end)
      invariant seen + Walk(Leading, buf[..], temp, end) == before + Walk(Leading, buf[..], 0, end)
      invariant Tallied(path, keep, seen, checked, found, dirs)
      decreases end - total
    {
      WalkStep(buf[..], temp, end);
      if temp + 19 > buf.Length || 0 !in buf[..][temp + 19..] {
        return false, checked, found, dirs;
      }
      if |CString(buf[..][temp + 19..], 0)| == 0 {
        break;
      }
      var reclen := RecordLength(buf[..], temp);
      if reclen == 0 || temp + reclen > buf.Length {
        return false, checked, found, dirs;
      }
      var e := EntryAt(Leading, buf[..], temp);
      OneMore(path, keep, seen, e);
      total := total + reclen;
      seen := seen + [e];
      if e.kind == 1 {
        var slash := [];
        if path[|path| - 1] != SLASH {
          slash := [SLASH];
        }
        checked := checked + 1;
        dirs := dirs + [path + slash + e.name];
        temp := temp + reclen;
        continue;
      }
      if keep(e) {
        found := found + 1;
      }
      checked := checked + 1;
      temp := temp + reclen;
    }
    WalkEnd(buf[..], temp, end);
    assert seen + [] == seen;
  }

  // ---------------------------------------------------------------- all servers

  function Listing(reply: Option<seq<Remote>>): seq<Remote> {
    if reply.Some? then reply.value else []
  }

  /** The buffer between the calls to the servers, what the calls return, and how many entries of
      each listing they deliver. The buffer is zeroed once. */
  ghost predicate Passes(replies: seq<Option<seq<Remote>>>, bufs: seq<seq<byte>>, rets: seq<int>, ns: seq<nat>) {
    && |bufs| == |replies| + 1 && |rets| == |ns| == |replies| && bufs[0] == seq(BUFFER, _ => 0)
    && forall i | 0 <= i < |replies| :: Listed(Listing(replies[i]), bufs[i], bufs[i + 1], BUFFER, rets[i], ns[i])
  }

  /** The entries the first `k` walks meet. */
  ghost function Met(bufs: seq<seq<byte>>, rets: seq<int>, k: nat): seq<Entry>
    requires k < |bufs| && k <= |rets|
  {
    if k == 0 then [] else Met(bufs, rets, k - 1) + Walk(Leading, bufs[k], 0, rets[k - 1] % UINT64)
  }

  lemma OnePassMore(replies: seq<Option<seq<Remote>>>, bufs: seq<seq<byte>>, rets: seq<int>, ns: seq<nat>,
                    reply: Option<seq<Remote>>, b: seq<byte>, r: int, n: nat)
    requires Passes(replies, bufs, rets, ns)
    requires Listed(Listing(reply), bufs[|replies|], b, BUFFER, r, n)
    ensures Passes(replies + [reply], bufs + [b], rets + [r], ns + [n])
  {
    hide Listed;
    var replies', bufs', rets', ns' := replies + [reply], bufs + [b], rets + [r], ns + [n];
    forall i | 0 <= i < |replies'|
      ensures Listed(Listing(replies'[i]), bufs'[i], bufs'[i + 1], BUFFER, rets'[i], ns'[i])
    {
      if i < |replies| {
        assert Listed(Listing(replies[i]), bufs[i], bufs[i + 1], BUFFER, rets[i], ns[i]);
      }
    }
  }

  lemma {:induction false} MetSame(bufs: seq<seq<byte>>, rets: seq<int>, b: seq<byte>, r: int, k: nat)
    requires k < |bufs| && k <= |rets|
    ensures Met(bufs + [b], rets + [r], k) == Met(bufs, rets, k)
  {
    hide Walk;
    if k > 0 {
      MetSame(bufs, rets, b, r, k - 1);
    }
  }

  /** The passes up to the last, or up to the first walk that leaves the buffer or does not end. */
  ghost predicate Processed(path: seq<byte>, replies: seq<Option<seq<Remote>>>, keep: Entry -> bool, ok: bool,
                            checked: nat, found: nat, dirs: seq<seq<byte>>, bufs: seq<seq<byte>>, rets: seq<int>,
                            ns: seq<nat>)
  {
    && |rets| <= |replies| && Passes(replies[..|rets|], bufs, rets, ns)
    && if ok then |rets| == |replies| && Tallied(path, keep, Met(bufs, rets, |rets|), checked, found, dirs)
       else |rets| > 0 && !Walkable(Leading, bufs[|rets|], 0, rets[|rets| - 1] % UINT64)
  }

  /** `dirProcess`: the walks over the listings of all servers. */
  method DirProcess(path: seq<byte>, replies: seq<Option<seq<Remote>>>, keep: Entry -> bool)
    returns (ok: bool, checked: nat, found: nat, dirs: seq<seq<byte>>)
    requires path != []
    ensures exists bufs, rets, ns :: Processed(path, replies, keep, ok, checked, found, dirs, bufs, rets, ns)
  {
    hide Listed, Walk, Walkable, Tallied;
    ok, checked, found, dirs := true, 0, 0, [];
    var buf := new byte[BUFFER](_ => 0);
    ghost var bufs: seq<seq<byte>>, rets: seq<int>, ns: seq<nat> := [buf[..]], [], [];
    assert buf[..] == seq(BUFFER, _ => 0);
    StartTally(path, keep, bufs);
    for k := 0 to |replies|
      invariant ok && |rets| == k && Passes(replies[..k], bufs, rets, ns) && bufs[k] == buf[..]
      invariant Tallied(path, keep, Met(bufs, rets, k), checked, found, dirs)
    {
      assert replies[..k + 1] == replies[..k] + [replies[k]];
      var r;
      ghost var n;
      r, n := GetSingleServerDir(replies[k], buf, BUFFER);
      OnePassMore(replies[..k], bufs, rets, ns, replies[k], buf[..], r, n);
      MetSame(bufs, rets, buf[..], r, k);
      ok, checked, found, dirs := WalkRecords(path, buf, r, keep, checked, found, dirs, Met(bufs, rets, k));
      bufs, rets, ns := bufs + [buf[..]], rets + [r], ns + [n];
      if !ok {
        assert Processed(path, replies, keep, ok, checked, found, dirs, bufs, rets, ns);
        return;
      }
    }
    assert replies[..|replies|] == replies;
    assert Processed(path, replies, keep, ok, checked, found, dirs, bufs, rets, ns);
  }

  lemma StartTally(path: seq<byte>, keep: Entry -> bool, bufs: seq<seq<byte>>)
    requires |bufs| == 1
    ensures Tallied(path, keep, Met(bufs, [], 0), 0, 0, [])
  {
  }

  // ---------------------------------------------------------------- each entry once

  ghost predicate PlainListings(replies: seq<Option<seq<Remote>>>) {
    forall i, k | 0 <= i < |replies| && 0 <= k < |Listing(replies[i])| ::
      Plain(Leading, RemoteEntry(Listing(replies[i])[k]))
  }

  /** What the first `k` calls deliver. */
  ghost function Delivered(replies: seq<Option<seq<Remote>>>, ns: seq<nat>, k: nat): seq<Entry>
    requires k <= |replies| == |ns| && forall i | 0 <= i < k :: ns[i] <= |Listing(replies[i])|
  {
    if k == 0 then [] else Delivered(replies, ns, k - 1) + RemoteEntries(Listing(replies[k - 1]))[..ns[k - 1]]
  }

  /** No call that delivers nothing comes after one that delivers something. */
  ghost predicate EmptyOnesFirst(ns: seq<nat>, k: nat)
    requires k <= |ns|
  {
    forall i, j | 0 <= i < j < k && ns[i] > 0 :: ns[j] > 0
  }

  lemma DeliveredWithin(replies: seq<Option<seq<Remote>>>, bufs: seq<seq<byte>>, rets: seq<int>, ns: seq<nat>, i: nat)
    requires Passes(replies, bufs, rets, ns) && i < |replies|
    ensures ns[i] <= |Listing(replies[i])|
  {
    assert Listed(Listing(replies[i]), bufs[i], bufs[i + 1], BUFFER, rets[i], ns[i]);
  }

  /** A walk after a call that delivers something meets just that. */
  lemma FullPass(ds: seq<Remote>, b: seq<byte>, b': seq<byte>, r: int, n: nat)
    requires Listed(ds, b, b', BUFFER, r, n) && n > 0
    requires forall k | 0 <= k < |ds| :: Plain(Leading, RemoteEntry(ds[k]))
    ensures Walk(Leading, b', 0, r % UINT64) == RemoteEntries(ds)[..n] && Holds(Leading, b', 0, RemoteEntry(ds[0]))
  {
    hide Sum, Walk, Walkable, Plain, Total, Holds;
    var es := RemoteEntries(ds)[..n];
    WalkRecovers(Leading, b', es);
    assert Holds(Leading, b', Sum(Leading, es[..0]), es[0]);
    NothingHeld(Leading, b');
    assert es[..0] == [];
    assert r == Sum(Leading, es) && r % UINT64 == r;
  }

  /** A call that delivers nothing returns -1: the walk looks at the first record once more, if there
      is one. */
  lemma StalePass(b: seq<byte>, e: Entry)
    requires Holds(Leading, b, 0, e) && Plain(Leading, e)
    ensures Walk(Leading, b, 0, FAILED % UINT64) != []
  {
    hide Holds, Plain, Walk, Total;
    WalkOne(Leading, b, 0, FAILED % UINT64, e);
  }

  lemma ZeroPass(b: seq<byte>, end: nat)
    requires b == seq(BUFFER, _ => 0)
    ensures Walk(Leading, b, 0, end) == []
  {
    assert b[19..][0] == 0;
  }

  /** The buffer is still zero, or starts with a record. */
  lemma {:induction false} BufferStart(replies: seq<Option<seq<Remote>>>, bufs: seq<seq<byte>>, rets: seq<int>,
                                       ns: seq<nat>, k: nat) returns (e: Entry)
    requires Passes(replies, bufs, rets, ns) && PlainListings(replies) && k <= |replies|
    ensures if forall i | 0 <= i < k :: ns[i] == 0 then bufs[k] == seq(BUFFER, _ => 0)
            else Holds(Leading, bufs[k], 0, e) && Plain(Leading, e)
  {
    hide Holds, Plain, Listed, Walk;
    e := Entry(0, 0, 0, []);
    if k > 0 {
      var j := k - 1;
      assert Listed(Listing(replies[j]), bufs[j], bufs[j + 1], BUFFER, rets[j], ns[j]);
      if ns[j] > 0 {
        FullPass(Listing(replies[j]), bufs[j], bufs[k], rets[j], ns[j]);
        DeliveredWithin(replies, bufs, rets, ns, j);
        e := RemoteEntry(Listing(replies[j])[0]);
      } else {
        SameBuffer(Listing(replies[j]), bufs[j], bufs[k], rets[j]);
        e := BufferStart(replies, bufs, rets, ns, j);
      }
    }
  }

  lemma SameBuffer(ds: seq<Remote>, b: seq<byte>, b': seq<byte>, r: int)
    requires Listed(ds, b, b', BUFFER, r, 0)
    ensures b' == b && r == FAILED
  {
  }

  /** What one more walk meets. */
  lemma NextPass(replies: seq<Option<seq<Remote>>>, bufs: seq<seq<byte>>, rets: seq<int>, ns: seq<nat>, j: nat)
    requires Passes(replies, bufs, rets, ns) && PlainListings(replies) && j < |replies|
    ensures var es := Walk(Leading, bufs[j + 1], 0, rets[j] % UINT64);
            && ns[j] <= |Listing(replies[j])|
            && (ns[j] > 0 ==> es == RemoteEntries(Listing(replies[j]))[..ns[j]])
            && (ns[j] == 0 ==> (es == [] <==> forall i | 0 <= i < j :: ns[i] == 0))
  {
    hide Holds, Plain, Walk, Listed;
    DeliveredWithin(replies, bufs, rets, ns, j);
    assert Listed(Listing(replies[j]), bufs[j], bufs[j + 1], BUFFER, rets[j], ns[j]);
    if ns[j] > 0 {
      FullPass(Listing(replies[j]), bufs[j], bufs[j + 1], rets[j], ns[j]);
    } else {
      SameBuffer(Listing(replies[j]), bufs[j], bufs[j + 1], rets[j]);
      var e := BufferStart(replies, bufs, rets, ns, j);
      if forall i | 0 <= i < j :: ns[i] == 0 {
        ZeroPass(bufs[j], rets[j] % UINT64);
      } else {
        StalePass(bufs[j], e);
      }
    }
  }

  lemma EmptyNext(ns: seq<nat>, j: nat)
    requires j < |ns|
    ensures EmptyOnesFirst(ns, j + 1) <==> EmptyOnesFirst(ns, j) && (ns[j] > 0 || forall i | 0 <= i < j :: ns[i] == 0)
  {
  }

  /** Every delivered entry is looked at; nothing else is, and each entry once, if and only if no
      server without entries comes after one with entries. */
  lemma {:induction false} EachListingOnceIff(replies: seq<Option<seq<Remote>>>, bufs: seq<seq<byte>>, rets: seq<int>,
                                              ns: seq<nat>, k: nat)
    requires Passes(replies, bufs, rets, ns) && PlainListings(replies) && k <= |replies|
    ensures forall i | 0 <= i < |replies| :: ns[i] <= |Listing(replies[i])|
    ensures |Met(bufs, rets, k)| >= |Delivered(replies, ns, k)|
    ensures |Met(bufs, rets, k)| == |Delivered(replies, ns, k)| <==> EmptyOnesFirst(ns, k)
    ensures EmptyOnesFirst(ns, k) ==> Met(bufs, rets, k) == Delivered(replies, ns, k)
  {
    hide Passes, PlainListings, Walk, EmptyOnesFirst;
    AllWithin(replies, bufs, rets, ns);
    if k == 0 {
      NothingEmpty(ns);
    } else {
      EachListingOnceIff(replies, bufs, rets, ns, k - 1);
      NextPass(replies, bufs, rets, ns, k - 1);
      EmptyNext(ns, k - 1);
    }
  }

  lemma NothingEmpty(ns: seq<nat>)
    ensures EmptyOnesFirst(ns, 0)
  {
  }

  lemma AllWithin(replies: seq<Option<seq<Remote>>>, bufs: seq<seq<byte>>, rets: seq<int>, ns: seq<nat>)
    requires Passes(replies, bufs, rets, ns)
    ensures |bufs| == |replies| + 1 && |rets| == |ns| == |replies|
    ensures forall i | 0 <= i < |replies| :: ns[i] <= |Listing(replies[i])|
  {
    hide Listed;
    forall i | 0 <= i < |replies|
      ensures ns[i] <= |Listing(replies[i])|
    {
      DeliveredWithin(replies, bufs, rets, ns, i);
    }
  }

  lemma ZeroBehind(b: seq<byte>, at: nat, end: nat)
    requires at + 20 <= |b| && b[at + 19] == 0
    ensures Walk(Leading, b, at, end) == [] && Walkable(Leading, b, at, end)
  {
    assert b[at + 19..][0] == 0;
  }

  /** After a whole listing has been fetched into the zeroed buffer, -1 makes the walk meet it again. */
  lemma ListedAgain(ds: seq<Remote>, b: seq<byte>, r: int)
    requires Listed(ds, seq(BUFFER, _ => 0), b, BUFFER, r, |ds|) && ds != []
    requires forall k | 0 <= k < |ds| :: Plain(Leading, RemoteEntry(ds[k]))
    requires Sum(Leading, RemoteEntries(ds)) + 20 <= BUFFER
    ensures Walk(Leading, b, 0, FAILED % UINT64) == RemoteEntries(ds) && Walkable(Leading, b, 0, FAILED % UINT64)
  {
    hide Walk, Walkable, Plain, HoldsAll, Sum, Total;
    var es := RemoteEntries(ds);
    assert es[..|ds|] == es && es[..0] == [] && es[0..] == es;
    var n := Sum(Leading, es);
    assert b[n + 19] == b[n..][19] == 0;
    ZeroBehind(b, n, FAILED % UINT64);
    WalkBack(Leading, b, es, 0, FAILED % UINT64);
    NothingHeld(Leading, b);
  }

  /** Two servers, the second without entries: the walk stays inside the buffer and meets the whole
      listing of the first server twice. */
  lemma EmptyServerRepeats(ds: seq<Remote>, bufs: seq<seq<byte>>, rets: seq<int>, ns: seq<nat>)
    requires Passes([Some(ds), Some([])], bufs, rets, ns) && |ds| == ns[0] > 0
    requires forall k | 0 <= k < |ds| :: Plain(Leading, RemoteEntry(ds[k]))
    requires Sum(Leading, RemoteEntries(ds)) + 20 <= BUFFER
    ensures Met(bufs, rets, 2) == RemoteEntries(ds) + RemoteEntries(ds)
    ensures Walkable(Leading, bufs[2], 0, rets[1] % UINT64)
  {
    hide Listed, Walk, Walkable, Plain, Sum;
    var replies := [Some(ds), Some([])];
    assert Listed(Listing(replies[0]), bufs[0], bufs[0 + 1], BUFFER, rets[0], ns[0]);
    assert Listed(Listing(replies[1]), bufs[1], bufs[1 + 1], BUFFER, rets[1], ns[1]);
    DeliveredWithin(replies, bufs, rets, ns, 1);
    SameBuffer([], bufs[1], bufs[2], rets[1]);
    FullPass(ds, bufs[0], bufs[1], rets[0], ns[0]);
    ListedAgain(ds, bufs[1], rets[0]);
    assert RemoteEntries(ds)[..|ds|] == RemoteEntries(ds);
    assert Met(bufs, rets, 1) == Met(bufs, rets, 0) + RemoteEntries(ds) == RemoteEntries(ds);
  }
}
