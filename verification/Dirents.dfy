/** Packing directory entries into a caller's buffer (src/client/gkfs_functions.cpp) and walking
    the buffer (examples/gfind/sfind.cpp). The three record formats share one shape: two words,
    the record length, a type byte and the name. */
module Dirents {
  import opened Common
  import Wire

  type byte = Wire.byte

  /** What the calls return when they set an error number. */
  const FAILED := -1
  const UINT32 := 0x1_0000_0000
  const UINT64 := 0x1_0000_0000_0000_0000

  /** `linux_dirent`, which keeps the type in its last byte; `linux_dirent64` and
      `dirent_extended`, which keep it before the name. */
  datatype Layout = Trailing | Leading

  /** `first` and `second` are the inode and offset, or the size and change time. */
  datatype Entry = Entry(first: nat, second: nat, kind: byte, name: seq<byte>)

  function NameAt(layout: Layout): nat {
    if layout == Trailing then 18 else 19
  }

  function Extra(layout: Layout): nat {
    if layout == Trailing then 3 else 1
  }

  function AlignUp(n: nat): nat {
    (n + 7) / 8 * 8
  }

  /** The length of an entry's record. */
  function Total(layout: Layout, e: Entry): (t: nat)
    ensures t % 8 == 0 && NameAt(layout) + |e.name| + Extra(layout) <= t < NameAt(layout) + |e.name| + Extra(layout) + 8
  {
    AlignUp(NameAt(layout) + |e.name| + Extra(layout))
  }

  function KindAt(layout: Layout, e: Entry): nat {
    if layout == Trailing then Total(layout, e) - 1 else 18
  }

  /** `width` bytes, least significant first. */
  function Little(n: nat, width: nat): (r: seq<byte>)
    ensures |r| == width
  {
    if width == 0 then [] else [n % 256] + Little(n / 256, width - 1)
  }

  function Number(s: seq<byte>): nat {
    if s == [] then 0 else s[0] + 256 * Number(s[1..])
  }

  function Range(width: nat): (r: nat)
    ensures r > 0
  {
    if width == 0 then 1 else 256 * Range(width - 1)
  }

  lemma {:induction false} LittleNumber(n: nat, width: nat)
    requires n < Range(width)
    ensures Number(Little(n, width)) == n
    decreases width
  {
    if width > 0 {
      LittleNumber(n / 256, width - 1);
    }
  }

  lemma Ranges()
    ensures Range(2) == 65536 && Range(8) == UINT64
  {
    assert Range(4) == 256 * (256 * Range(2));
    assert Range(6) == 256 * (256 * Range(4));
  }

  // ---------------------------------------------------------------- the buffer

  method Store(buf: array<byte>, at: nat, bytes: seq<byte>)
    requires at + |bytes| <= buf.Length
    modifies buf
    ensures buf[..] == Splice(old(buf[..]), at, bytes)
  {
    var i := 0;
    while i < |bytes|
      invariant 0 <= i <= |bytes|
      invariant forall j | 0 <= j < buf.Length ::
                  buf[j] == if at <= j < at + i then bytes[j - at] else old(buf[j])
    {
      buf[at + i] := bytes[i];
      i := i + 1;
    }
    assert buf[..] == Splice(old(buf[..]), at, bytes);
  }

  /** The fields of a record that reaches from `at` to `end`, its type at `k` and its name at `n`. */
  ghost predicate Fields(b: seq<byte>, at: nat, end: nat, k: nat, n: nat, x1: seq<byte>, x2: seq<byte>, kind: byte,
                         x4: seq<byte>, x5: seq<byte>)
  {
    && at + 18 <= end <= |b| && k < end && n + |x4| <= end
    && b[at..at + 8] == x1 && b[at + 8..at + 16] == x5 && b[at + 16..at + 18] == x2
    && b[k..k + 1] == [kind] && b[n..n + |x4|] == x4
  }

  /** A record for `e` stands in `b` at `at`. The stored length is 16 bits wide. */
  ghost predicate Holds(layout: Layout, b: seq<byte>, at: nat, e: Entry) {
    var t := Total(layout, e);
    && at + t <= |b|
    && Fields(b, at, at + t, at + KindAt(layout, e), at + NameAt(layout), Little(e.first, 8), Little(t % 65536, 2),
              e.kind, CString(e.name, 0) + [0], Little(e.second, 8))
  }

  lemma Layouts(layout: Layout, e: Entry)
    ensures var t, k, n := Total(layout, e), KindAt(layout, e), NameAt(layout);
            && 18 <= n && |CString(e.name, 0)| <= |e.name| && n + |e.name| < t
            && 18 <= k < t && (k < n || n + |e.name| < k)
  {
  }

  /** A record written field by field. */
  function Written(b: seq<byte>, at: nat, k: nat, n: nat, x1: seq<byte>, x2: seq<byte>, kind: byte, x4: seq<byte>,
                   x5: seq<byte>): (r: seq<byte>)
    requires |x1| == |x5| == 8 && |x2| == 2 && at + 18 <= |b| && n + |x4| <= |b| && k < |b|
    ensures |r| == |b|
  {
    var b1 := Splice(b, at, x1);
    var b2 := Splice(b1, at + 16, x2);
    var b3 := Splice(b2, k, [kind]);
    var b4 := Splice(b3, n, x4);
    Splice(b4, at + 8, x5)
  }

  lemma WrittenAt(b: seq<byte>, at: nat, k: nat, n: nat, x1: seq<byte>, x2: seq<byte>, kind: byte, x4: seq<byte>,
                  x5: seq<byte>, j: nat)
    requires |x1| == |x5| == 8 && |x2| == 2 && at + 18 <= |b| && n + |x4| <= |b| && k < |b| && j < |b|
    ensures Written(b, at, k, n, x1, x2, kind, x4, x5)[j] ==
            if at + 8 <= j < at + 16 then x5[j - (at + 8)]
            else if n <= j < n + |x4| then x4[j - n]
            else if j == k then kind
            else if at + 16 <= j < at + 18 then x2[j - (at + 16)]
            else if at <= j < at + 8 then x1[j - at]
            else b[j]
  {
    hide Splice;
    var b1 := Splice(b, at, x1);
    SpliceAt(b, at, x1, j);
    var b2 := Splice(b1, at + 16, x2);
    SpliceAt(b1, at + 16, x2, j);
    var b3 := Splice(b2, k, [kind]);
    SpliceAt(b2, k, [kind], j);
    SpliceAt(b3, n, x4, j);
    SpliceAt(Splice(b3, n, x4), at + 8, x5, j);
  }

  /** Equal bytes make equal slices. */
  lemma SliceIs(b: seq<byte>, lo: nat, x: seq<byte>)
    requires lo + |x| <= |b| && forall j: nat | lo <= j < lo + |x| :: b[j] == x[j - lo]
    ensures b[lo..lo + |x|] == x
  {
  }

  lemma FieldsApart(b: seq<byte>, at: nat, end: nat, k: nat, n: nat, x1: seq<byte>, x2: seq<byte>, kind: byte,
                    x4: seq<byte>, x5: seq<byte>)
    requires |x1| == |x5| == 8 && |x2| == 2 && at + 18 <= n && n + |x4| <= end <= |b| && at + 18 <= k < end
    requires k < n || n + |x4| <= k
    ensures var r := Written(b, at, k, n, x1, x2, kind, x4, x5);
            r[..at] == b[..at] && r[end..] == b[end..] && Fields(r, at, end, k, n, x1, x2, kind, x4, x5)
  {
    hide Written, Splice;
    var r := Written(b, at, k, n, x1, x2, kind, x4, x5);
    forall j: nat | j < |b|
      ensures r[j] ==
            if at + 8 <= j < at + 16 then x5[j - (at + 8)]
            else if n <= j < n + |x4| then x4[j - n]
            else if j == k then kind
            else if at + 16 <= j < at + 18 then x2[j - (at + 16)]
            else if at <= j < at + 8 then x1[j - at]
            else b[j]
    {
      WrittenAt(b, at, k, n, x1, x2, kind, x4, x5, j);
    }
    SliceIs(r, at, x1);
    SliceIs(r, at + 8, x5);
    SliceIs(r, at + 16, x2);
    SliceIs(r, k, [kind]);
    SliceIs(r, n, x4);
  }

  /** The fields of a record, written where they belong, make the record. */
  lemma RecordWritten(layout: Layout, b: seq<byte>, at: nat, e: Entry)
    requires at + Total(layout, e) <= |b|
    ensures var t, name := Total(layout, e), CString(e.name, 0);
            && at + 19 <= |b| && at + NameAt(layout) + |name| + 1 <= |b| && at + KindAt(layout, e) < |b|
            && var r := Written(b, at, at + KindAt(layout, e), at + NameAt(layout), Little(e.first, 8),
                                Little(t % 65536, 2), e.kind, name + [0], Little(e.second, 8));
               && r[..at] == b[..at] && r[at + t..] == b[at + t..]
               && Holds(layout, r, at, e)
  {
    hide Total, NameAt, KindAt, CString, Little, Written, Fields;
    Layouts(layout, e);
    var t, n, k, name := Total(layout, e), at + NameAt(layout), at + KindAt(layout, e), CString(e.name, 0);
    FieldsApart(b, at, at + t, k, n, Little(e.first, 8), Little(t % 65536, 2), e.kind, name + [0], Little(e.second, 8));
  }

  /** `strcpy` and the assignments of the fields, in the source's order. */
  method PackRecord(layout: Layout, buf: array<byte>, at: nat, e: Entry)
    requires at + Total(layout, e) <= buf.Length
    modifies buf
    ensures buf[..][..at] == old(buf[..])[..at]
    ensures buf[..][at + Total(layout, e)..] == old(buf[..])[at + Total(layout, e)..]
    ensures Holds(layout, buf[..], at, e)
  {
    hide Total, NameAt, KindAt, CString, Little, Written, Holds, Fields;
    RecordWritten(layout, buf[..], at, e);
    var t, name := Total(layout, e), CString(e.name, 0);
    StoreFields(buf, at, at + KindAt(layout, e), at + NameAt(layout), Little(e.first, 8), Little(t % 65536, 2), e.kind,
                name + [0], Little(e.second, 8));
  }

  method StoreFields(buf: array<byte>, at: nat, k: nat, n: nat, x1: seq<byte>, x2: seq<byte>, kind: byte,
                     x4: seq<byte>, x5: seq<byte>)
    requires |x1| == |x5| == 8 && |x2| == 2 && at + 18 <= buf.Length && n + |x4| <= buf.Length && k < buf.Length
    modifies buf
    ensures buf[..] == Written(old(buf[..]), at, k, n, x1, x2, kind, x4, x5)
  {
    hide Splice;
    Store(buf, at, x1);
    Store(buf, at + 16, x2);
    Store(buf, k, [kind]);
    Store(buf, n, x4);
    Store(buf, at + 8, x5);
  }

  // ---------------------------------------------------------------- many records

  function Sum(layout: Layout, es: seq<Entry>): nat {
    if es == [] then 0 else Sum(layout, es[..|es| - 1]) + Total(layout, es[|es| - 1])
  }

  /** Records for all of `es` stand in `b` one behind the other. */
  ghost predicate HoldsAll(layout: Layout, b: seq<byte>, es: seq<Entry>) {
    forall i | 0 <= i < |es| :: Holds(layout, b, Sum(layout, es[..i]), es[i])
  }

  lemma SumMore(layout: Layout, es: seq<Entry>, i: nat)
    requires i < |es|
    ensures Sum(layout, es[..i + 1]) == Sum(layout, es[..i]) + Total(layout, es[i])
  {
    assert es[..i + 1][..i] == es[..i];
  }

  lemma {:induction false} SumBelow(layout: Layout, es: seq<Entry>, i: nat, j: nat)
    requires i <= j <= |es|
    ensures Sum(layout, es[..i]) <= Sum(layout, es[..j])
    decreases j - i
  {
    if i < j {
      SumMore(layout, es, i);
      SumBelow(layout, es, i + 1, j);
    }
  }

  lemma FieldsKept(b: seq<byte>, b': seq<byte>, m: nat, at: nat, end: nat, k: nat, n: nat, x1: seq<byte>,
                   x2: seq<byte>, kind: byte, x4: seq<byte>, x5: seq<byte>)
    requires Fields(b, at, end, k, n, x1, x2, kind, x4, x5) && end <= m <= |b| && |b'| == |b| && b'[..m] == b[..m]
    ensures Fields(b', at, end, k, n, x1, x2, kind, x4, x5)
  {
    SliceKept(b, b', m, at, at + 8);
    SliceKept(b, b', m, at + 8, at + 16);
    SliceKept(b, b', m, at + 16, at + 18);
    SliceKept(b, b', m, k, k + 1);
    SliceKept(b, b', m, n, n + |x4|);
  }

  lemma HoldsKept(layout: Layout, b: seq<byte>, b': seq<byte>, at: nat, e: Entry, m: nat)
    requires Holds(layout, b, at, e) && at + Total(layout, e) <= m <= |b| && |b'| == |b| && b'[..m] == b[..m]
    ensures Holds(layout, b', at, e)
  {
    hide Total, NameAt, KindAt, CString, Little, Fields;
    var t := Total(layout, e);
    FieldsKept(b, b', m, at, at + t, at + KindAt(layout, e), at + NameAt(layout), Little(e.first, 8),
               Little(t % 65536, 2), e.kind, CString(e.name, 0) + [0], Little(e.second, 8));
  }

  lemma SliceKept(b: seq<byte>, b': seq<byte>, m: nat, lo: nat, hi: nat)
    requires lo <= hi <= m <= |b| && |b'| == |b| && b'[..m] == b[..m]
    ensures b'[lo..hi] == b[lo..hi]
  {
    assert b'[lo..hi] == b'[..m][lo..hi];
    assert b[lo..hi] == b[..m][lo..hi];
  }

  /** One more record behind the others. */
  lemma HoldsMore(layout: Layout, b: seq<byte>, b': seq<byte>, es: seq<Entry>, e: Entry)
    requires HoldsAll(layout, b, es) && Sum(layout, es) <= |b| && |b'| == |b|
    requires b'[..Sum(layout, es)] == b[..Sum(layout, es)] && Holds(layout, b', Sum(layout, es), e)
    ensures HoldsAll(layout, b', es + [e]) && Sum(layout, es + [e]) == Sum(layout, es) + Total(layout, e)
  {
    hide Holds, Sum, Total;
    var all := es + [e];
    assert all[..|es|] == es && all[..|es| + 1] == all;
    SumMore(layout, all, |es|);
    forall i | 0 <= i < |all|
      ensures Holds(layout, b', Sum(layout, all[..i]), all[i])
    {
      if i < |es| {
        assert all[..i] == es[..i];
        SumMore(layout, es, i);
        SumBelow(layout, es, i + 1, |es|);
        assert es[..|es|] == es;
        HoldsKept(layout, b, b', Sum(layout, es[..i]), es[i], Sum(layout, es));
      }
    }
  }

  /** The packing loop: as many entries as fit, from `pos` on. */
  method Fill(layout: Layout, entries: seq<Entry>, pos: nat, buf: array<byte>, count: nat)
    returns (written: nat, next: nat)
    requires pos <= |entries| && count <= buf.Length
    modifies buf
    ensures pos <= next <= |entries|
    ensures written == Sum(layout, entries[pos..next]) <= count
    ensures next < |entries| ==> written + Total(layout, entries[next]) > count
    ensures HoldsAll(layout, buf[..], entries[pos..next])
    ensures buf[..][written..] == old(buf[..])[written..]
  {
    hide Holds, Sum, Total, HoldsAll;
    next, written := pos, 0;
    assert entries[pos..pos] == [];
    NothingHeld(layout, buf[..]);
    while next < |entries|
      invariant pos <= next <= |entries|
      invariant written == Sum(layout, entries[pos..next]) <= count
      invariant HoldsAll(layout, buf[..], entries[pos..next])
      invariant buf[..][written..] == old(buf[..])[written..]
    {
      var e := entries[next];
      var total := Total(layout, e);
      if total > count - written {
        break;
      }
      ghost var b := buf[..];
      assert b[written + total..] == old(buf[..])[written + total..] by {
        assert b[written + total..] == b[written..][total..];
        assert old(buf[..])[written + total..] == old(buf[..])[written..][total..];
      }
      PackRecord(layout, buf, written, e);
      HoldsMore(layout, b, buf[..], entries[pos..next], e);
      assert entries[pos..next] + [e] == entries[pos..next + 1];
      next := next + 1;
      written := written + total;
    }
  }

  lemma NothingHeld(layout: Layout, b: seq<byte>)
    ensures HoldsAll(layout, b, []) && Sum(layout, []) == 0
  {
  }

  // ---------------------------------------------------------------- reading back

  function RecordLength(b: seq<byte>, at: nat): nat
    requires at + 18 <= |b|
  {
    Number(b[at + 16..at + 18])
  }

  /** The entry a reader sees at `at`. */
  function EntryAt(layout: Layout, b: seq<byte>, at: nat): Entry
    requires at + 19 <= |b| && 1 <= RecordLength(b, at) && at + RecordLength(b, at) <= |b|
  {
    Entry(Number(b[at..at + 8]), Number(b[at + 8..at + 16]),
          if layout == Trailing then b[at + RecordLength(b, at) - 1] else b[at + 18],
          CString(b[at + NameAt(layout)..], 0))
  }

  /** Stepping through the records by their length up to `end`, or to an empty name. A length of
      zero, on which a reader would spin, ends the walk. */
  function Walk(layout: Layout, b: seq<byte>, at: nat, end: nat): seq<Entry>
    decreases end - at
  {
    if at >= end || at + 19 > |b| || CString(b[at + NameAt(layout)..], 0) == [] then []
    else if RecordLength(b, at) == 0 || at + RecordLength(b, at) > |b| then []
    else [EntryAt(layout, b, at)] + Walk(layout, b, at + RecordLength(b, at), end)
  }

  /** What a reader needs to step through the buffer: up to `end` or to an empty name every record
      lies inside the buffer and has a length, and its name an end. */
  predicate Walkable(layout: Layout, b: seq<byte>, at: nat, end: nat)
    decreases end - at
  {
    at < end ==>
      && at + 19 <= |b| && 0 in b[at + NameAt(layout)..]
      && (CString(b[at + NameAt(layout)..], 0) != [] ==>
            && 1 <= RecordLength(b, at) && at + RecordLength(b, at) <= |b|
            && Walkable(layout, b, at + RecordLength(b, at), end))
  }

  /** What a record can carry: words of 64 bits, a name that is not empty and has no NUL, and a
      length that fits 16 bits. */
  predicate Plain(layout: Layout, e: Entry) {
    e.first < UINT64 && e.second < UINT64 && e.name != [] && 0 !in e.name && Total(layout, e) < 65536
  }

  lemma {:induction false} CStringIs(s: seq<byte>, x: seq<byte>)
    requires 0 !in x && |x| < |s| && s[..|x| + 1] == x + [0]
    ensures CString(s, 0) == x
    decreases |x|
  {
    if x == [] {
      assert s[0] == s[..1][0];
    } else {
      assert s[0] == s[..|x| + 1][0] == x[0];
      assert s[1..][..|x[1..]| + 1] == s[..|x| + 1][1..] == x[1..] + [0];
      CStringIs(s[1..], x[1..]);
    }
  }

  lemma WholeName(x: seq<byte>)
    requires 0 !in x
    ensures CString(x, 0) == x
  {
  }

  lemma WordsBack(layout: Layout, e: Entry)
    requires Plain(layout, e)
    ensures Number(Little(e.first, 8)) == e.first && Number(Little(e.second, 8)) == e.second
    ensures Number(Little(Total(layout, e) % 65536, 2)) == Total(layout, e)
  {
    Ranges();
    hide Total, Little, Number, Range;
    LittleNumber(Total(layout, e), 2);
    LittleNumber(e.first, 8);
    LittleNumber(e.second, 8);
  }

  lemma NameBack(layout: Layout, b: seq<byte>, at: nat, e: Entry)
    requires Holds(layout, b, at, e) && Plain(layout, e)
    ensures at + NameAt(layout) <= |b| && CString(b[at + NameAt(layout)..], 0) == e.name
    ensures 0 in b[at + NameAt(layout)..]
  {
    Layouts(layout, e);
    WholeName(e.name);
    var n := at + NameAt(layout);
    hide Total, CString, Little, KindAt, NameAt;
    assert b[n..][..|e.name| + 1] == b[n..n + |e.name| + 1];
    assert b[n..][|e.name|] == 0;
    CStringIs(b[n..], e.name);
  }

  lemma KindBack(layout: Layout, b: seq<byte>, at: nat, e: Entry)
    requires Holds(layout, b, at, e)
    ensures at + 19 <= at + Total(layout, e) <= |b|
    ensures (if layout == Trailing then b[at + Total(layout, e) - 1] else b[at + 18]) == e.kind
  {
    Layouts(layout, e);
    hide Total, CString, Little;
    var k := at + KindAt(layout, e);
    assert b[k] == b[k..k + 1][0];
  }

  lemma NumbersBack(layout: Layout, b: seq<byte>, at: nat, e: Entry)
    requires Holds(layout, b, at, e) && Plain(layout, e)
    ensures at + 19 <= |b| && RecordLength(b, at) == Total(layout, e)
    ensures Number(b[at..at + 8]) == e.first && Number(b[at + 8..at + 16]) == e.second
  {
    Layouts(layout, e);
    WordsBack(layout, e);
    hide Total, CString, Little, Number, Plain, KindAt, NameAt;
  }

  /** A record gives its entry back. */
  lemma EntryBack(layout: Layout, b: seq<byte>, at: nat, e: Entry)
    requires Holds(layout, b, at, e) && Plain(layout, e)
    ensures at + 19 <= |b| && RecordLength(b, at) == Total(layout, e)
    ensures CString(b[at + NameAt(layout)..], 0) == e.name && EntryAt(layout, b, at) == e
  {
    hide Total, CString, Little, Number, Plain, Holds, RecordLength, KindAt, NameAt;
    NumbersBack(layout, b, at, e);
    NameBack(layout, b, at, e);
    KindBack(layout, b, at, e);
  }

  lemma WalkOne(layout: Layout, b: seq<byte>, at: nat, end: nat, e: Entry)
    requires Holds(layout, b, at, e) && Plain(layout, e) && at < end
    ensures Walk(layout, b, at, end) == [e] + Walk(layout, b, at + Total(layout, e), end)
    ensures Walkable(layout, b, at, end) <==> Walkable(layout, b, at + Total(layout, e), end)
  {
    hide Holds, Total, CString, EntryAt, RecordLength;
    HoldsFits(layout, b, at, e);
    NameBack(layout, b, at, e);
    EntryBack(layout, b, at, e);
  }

  lemma WalkedAll(layout: Layout, b: seq<byte>, end: nat)
    ensures Walk(layout, b, end, end) == [] && Walkable(layout, b, end, end)
  {
  }

  /** Walking a packed buffer recovers exactly the entries packed, in order, and goes on behind them. */
  lemma {:induction false} WalkBack(layout: Layout, b: seq<byte>, es: seq<Entry>, i: nat, end: nat)
    requires HoldsAll(layout, b, es) && i <= |es| && Sum(layout, es) <= end
    requires forall j | 0 <= j < |es| :: Plain(layout, es[j])
    ensures Walk(layout, b, Sum(layout, es[..i]), end) == es[i..] + Walk(layout, b, Sum(layout, es), end)
    ensures Walkable(layout, b, Sum(layout, es[..i]), end) <==> Walkable(layout, b, Sum(layout, es), end)
    decreases |es| - i
  {
    hide Holds, Total, Sum, Walk, Walkable, Plain;
    assert es[..|es|] == es;
    if i < |es| {
      SumMore(layout, es, i);
      SumBelow(layout, es, i + 1, |es|);
      WalkOne(layout, b, Sum(layout, es[..i]), end, es[i]);
      WalkBack(layout, b, es, i + 1, end);
      assert es[i..] == [es[i]] + es[i + 1..];
    }
  }

  lemma HoldsFits(layout: Layout, b: seq<byte>, at: nat, e: Entry)
    requires Holds(layout, b, at, e)
    ensures at + Total(layout, e) <= |b| && Total(layout, e) > 19
  {
  }

  lemma WalkRecovers(layout: Layout, b: seq<byte>, es: seq<Entry>)
    requires HoldsAll(layout, b, es) && forall j | 0 <= j < |es| :: Plain(layout, es[j])
    ensures Walk(layout, b, 0, Sum(layout, es)) == es && Walkable(layout, b, 0, Sum(layout, es))
  {
    hide HoldsAll, Walk, Walkable, Sum, Plain;
    WalkBack(layout, b, es, 0, Sum(layout, es));
    WalkedAll(layout, b, Sum(layout, es));
    assert es[..0] == [] && es[0..] == es;
    NothingHeld(layout, b);
  }

  // ---------------------------------------------------------------- byte by byte

  /** What the bytes of one record say: two words of eight bytes, the length of the record, its type
      and its name, at the offsets of the C structures. */
  ghost predicate Tells(layout: Layout, b: seq<byte>, at: nat, e: Entry, length: nat) {
    var name := at + if layout == Trailing then 18 else 19;
    var kind := at + if layout == Trailing then length - 1 else 18;
    && 19 < length && at + length <= |b|
    && Number(b[at..at + 8]) == e.first && Number(b[at + 8..at + 16]) == e.second
    && Number(b[at + 16..at + 18]) == length
    && b[kind] == e.kind
    && name + |e.name| + 1 <= at + length && b[name..name + |e.name|] == e.name && b[name + |e.name|] == 0
  }

  /** The length of a record: the fields before the name, the name, its end and in the older format
      the type, rounded up to a multiple of eight. */
  ghost function Length(layout: Layout, name: seq<byte>): nat {
    ((if layout == Trailing then 21 else 20) + |name| + 7) / 8 * 8
  }

  /** Records one behind the other. */
  ghost predicate Told(layout: Layout, b: seq<byte>, at: nat, es: seq<Entry>)
    decreases |es|
  {
    es == [] ||
    (&& Tells(layout, b, at, es[0], Length(layout, es[0].name))
     && Told(layout, b, at + Length(layout, es[0].name), es[1..]))
  }

  lemma NameTells(layout: Layout, b: seq<byte>, at: nat, e: Entry)
    requires Holds(layout, b, at, e) && Plain(layout, e)
    ensures var n := at + NameAt(layout);
            && n + |e.name| + 1 <= at + Total(layout, e) <= |b|
            && b[n..n + |e.name|] == e.name && b[n + |e.name|] == 0
  {
    hide CString, Little, Number, Total, NameAt, KindAt;
    Layouts(layout, e);
    WholeName(e.name);
    var n, l, x := at + NameAt(layout), |e.name|, CString(e.name, 0) + [0];
    assert x == e.name + [0] && |x| == l + 1;
    assert b[n..n + |x|] == x;
    assert b[n..n + l] == b[n..n + l + 1][..l];
    assert b[n + l] == b[n..n + l + 1][l];
  }

  lemma HeldTells(layout: Layout, b: seq<byte>, at: nat, e: Entry)
    requires Holds(layout, b, at, e) && Plain(layout, e)
    ensures Length(layout, e.name) == Total(layout, e) && Tells(layout, b, at, e, Total(layout, e))
  {
    hide Holds, Plain, CString, Little, Number;
    HoldsFits(layout, b, at, e);
    NameTells(layout, b, at, e);
    NumbersBack(layout, b, at, e);
    KindBack(layout, b, at, e);
  }

  lemma {:induction false} HeldTold(layout: Layout, b: seq<byte>, es: seq<Entry>, i: nat)
    requires HoldsAll(layout, b, es) && i <= |es| && forall j | 0 <= j < |es| :: Plain(layout, es[j])
    ensures Told(layout, b, Sum(layout, es[..i]), es[i..])
    decreases |es| - i
  {
    hide Holds, Total, Sum, Plain, Tells, Length;
    if i < |es| {
      SumMore(layout, es, i);
      HeldTells(layout, b, Sum(layout, es[..i]), es[i]);
      HeldTold(layout, b, es, i + 1);
      assert es[i..][0] == es[i] && es[i..][1..] == es[i + 1..];
    }
  }

  lemma AllTold(layout: Layout, b: seq<byte>, es: seq<Entry>)
    requires HoldsAll(layout, b, es) && forall j | 0 <= j < |es| :: Plain(layout, es[j])
    ensures Told(layout, b, 0, es)
  {
    hide HoldsAll, Told, Sum, Plain;
    HeldTold(layout, b, es, 0);
    NothingHeld(layout, b);
    assert es[..0] == [] && es[0..] == es;
  }

  // ---------------------------------------------------------------- getdents

  datatype Dentry = Dentry(name: seq<byte>, regular: bool)

  const DT_DIR: byte := 4
  const DT_REG: byte := 8

  /** The record of the entry at `i`: its offset is the position behind it. */
  function RecordOf(hash: seq<byte> -> nat, entries: seq<Dentry>, i: nat): Entry
    requires i < |entries|
  {
    Entry(hash(entries[i].name) % UINT64, i + 1, if entries[i].regular then DT_REG else DT_DIR, entries[i].name)
  }

  function Records(hash: seq<byte> -> nat, entries: seq<Dentry>): seq<Entry> {
    seq(|entries|, i requires 0 <= i < |entries| => RecordOf(hash, entries, i))
  }

  /** What the records must say: the hash of the name, the position behind the entry, and 8 for a
      regular file or 4 for a directory. */
  ghost function Meant(hash: seq<byte> -> nat, entries: seq<Dentry>, lo: nat, hi: nat): seq<Entry>
    requires lo <= hi <= |entries|
  {
    if lo == hi then []
    else
      var e := entries[hi - 1];
      Meant(hash, entries, lo, hi - 1) +
      [Entry(hash(e.name) % 0x1_0000_0000_0000_0000, hi, if e.regular then 8 else 4, e.name)]
  }

  lemma {:induction false} RecordsAreMeant(hash: seq<byte> -> nat, entries: seq<Dentry>, lo: nat, hi: nat)
    requires lo <= hi <= |entries|
    ensures Records(hash, entries)[lo..hi] == Meant(hash, entries, lo, hi)
    decreases hi
  {
    if lo < hi {
      RecordsAreMeant(hash, entries, lo, hi - 1);
      var rs := Records(hash, entries);
      assert rs[lo..hi] == rs[lo..hi - 1] + [rs[hi - 1]];
    }
  }

  /** Names a record can carry. */
  ghost predicate PlainNames(layout: Layout, entries: seq<Dentry>) {
    && |entries| < UINT64
    && forall i | 0 <= i < |entries| ::
         entries[i].name != [] && 0 !in entries[i].name && Length(layout, entries[i].name) < 65536
  }

  lemma RecordsArePlain(layout: Layout, hash: seq<byte> -> nat, entries: seq<Dentry>, i: nat)
    requires PlainNames(layout, entries) && i < |entries|
    ensures Plain(layout, Records(hash, entries)[i])
  {
  }

  /** What one call promises: 0 at the end; an error, and no move, if the next record does not fit;
      otherwise as many records as fit, their length converted to `int`. */
  ghost predicate Call(layout: Layout, es: seq<Entry>, pos: nat, count: nat, r: int, next: nat) {
    if pos >= |es| then r == 0 && next == pos
    else if Total(layout, es[pos]) > count then r == FAILED && next == pos
    else
      && pos < next <= |es|
      && Sum(layout, es[pos..next]) <= count && r == ToInt32(Sum(layout, es[pos..next]))
      && (next < |es| ==> Sum(layout, es[pos..next]) + Total(layout, es[next]) > count)
  }

  /** An open directory: the entries fetched when it was opened, and the position in them. */
  class OpenDir {
    const hash: seq<byte> -> nat
    const entries: seq<Dentry>
    var pos: nat

    constructor (hash: seq<byte> -> nat, entries: seq<Dentry>)
      ensures this.hash == hash && this.entries == entries && pos == 0
    {
      this.hash, this.entries, pos := hash, entries, 0;
    }

    /** `getdents` with `Trailing`, `getdents64` with `Leading`. */
    method Getdents(layout: Layout, buf: array<byte>, count: nat) returns (r: int)
      requires count <= buf.Length && count < UINT32
      modifies this, buf
      ensures Call(layout, Records(hash, entries), old(pos), count, r, pos)
      ensures old(pos) >= |entries| || r == FAILED ==> buf[..] == old(buf[..])
      ensures old(pos) < |entries| && r != FAILED ==>
                && HoldsAll(layout, buf[..], Records(hash, entries)[old(pos)..pos])
                && (var n := Sum(layout, Records(hash, entries)[old(pos)..pos]);
                    n <= buf.Length && buf[..][n..] == old(buf[..])[n..])
                && (PlainNames(layout, entries) ==> Told(layout, buf[..], 0, Meant(hash, entries, old(pos), pos)))
    {
      hide Sum, HoldsAll, ToInt32, Told, PlainNames, Meant, Plain;
      if pos >= |entries| {
        return 0;
      }
      var es := Records(hash, entries);
      var written, next := Fill(layout, es, pos, buf, count);
      NothingOrMore(layout, es, pos, next);
      RecordsAreAligned(layout, es[pos..next]);
      ReturnedLength(written);
      hide Total;
      if written == 0 {
        assert buf[..][0..] == buf[..] && old(buf[..])[0..] == old(buf[..]);
        return FAILED;
      }
      if PlainNames(layout, entries) {
        forall i: nat | i < |entries|
          ensures Plain(layout, es[i])
        {
          RecordsArePlain(layout, hash, entries, i);
        }
        AllTold(layout, buf[..], es[pos..next]);
        RecordsAreMeant(hash, entries, pos, next);
      }
      pos := next;
      return ToInt32(written);
    }
  }

  /** Every record starts at a multiple of eight. */
  lemma {:induction false} RecordsAreAligned(layout: Layout, es: seq<Entry>)
    ensures Sum(layout, es) % 8 == 0
    decreases |es|
  {
    if es != [] {
      RecordsAreAligned(layout, es[..|es| - 1]);
    }
  }

  /** A length is returned as it is exactly below 2 GiB, and is never taken for an error. */
  lemma ReturnedLength(n: nat)
    requires n < UINT32 && n % 8 == 0
    ensures ToInt32(n) == n <==> n < 0x8000_0000
    ensures ToInt32(n) != FAILED && (ToInt32(n) == 0 <==> n == 0)
  {
  }

  lemma NothingOrMore(layout: Layout, es: seq<Entry>, pos: nat, next: nat)
    requires pos <= next <= |es|
    ensures Sum(layout, es[pos..next]) == 0 <==> pos == next
    ensures pos < next ==> Sum(layout, es[pos..next]) >= Total(layout, es[pos])
  {
    var part := es[pos..next];
    if pos < next {
      SumMore(layout, part, 0);
      SumBelow(layout, part, 1, |part|);
      assert part[..|part|] == part && part[..0] == [];
    }
  }

  /** Successive calls: the positions between them, the buffer sizes and the values returned. */
  ghost predicate Session(layout: Layout, es: seq<Entry>, counts: seq<nat>, rets: seq<int>, poss: seq<nat>) {
    && |rets| == |counts| && |poss| == |counts| + 1 && poss[0] == 0
    && forall i | 0 <= i < |counts| :: Call(layout, es, poss[i], counts[i], rets[i], poss[i + 1])
  }

  function Slice(es: seq<Entry>, from: nat, to: nat): seq<Entry> {
    if from <= to <= |es| then es[from..to] else []
  }

  /** The entries the first `n` calls delivered, one call's behind the other's. */
  function DeliveredBy(es: seq<Entry>, poss: seq<nat>, n: nat): seq<Entry>
    requires n < |poss|
  {
    if n == 0 then [] else DeliveredBy(es, poss, n - 1) + Slice(es, poss[n - 1], poss[n])
  }

  lemma {:induction false} PositionsGrow(layout: Layout, es: seq<Entry>, counts: seq<nat>, rets: seq<int>,
                                         poss: seq<nat>, n: nat)
    requires Session(layout, es, counts, rets, poss) && n <= |counts|
    ensures |poss| == |counts| + 1 && poss[n] <= |es| && (n > 0 ==> poss[n - 1] <= poss[n])
  {
    hide Total, Sum;
    if n > 0 {
      PositionsGrow(layout, es, counts, rets, poss, n - 1);
      assert Call(layout, es, poss[n - 1], counts[n - 1], rets[n - 1], poss[n - 1 + 1]);
    }
  }

  /** Successive calls, whatever their buffers, deliver the entries in order, each exactly once. */
  lemma {:induction false} EachEntryOnce(layout: Layout, es: seq<Entry>, counts: seq<nat>, rets: seq<int>,
                                         poss: seq<nat>, n: nat)
    requires Session(layout, es, counts, rets, poss) && n <= |counts|
    ensures |poss| == |counts| + 1 && poss[n] <= |es|
    ensures DeliveredBy(es, poss, n) == es[..poss[n]]
  {
    hide Session, Call;
    PositionsGrow(layout, es, counts, rets, poss, n);
    if n > 0 {
      EachEntryOnce(layout, es, counts, rets, poss, n - 1);
      assert es[..poss[n - 1]] + es[poss[n - 1]..poss[n]] == es[..poss[n]];
    } else {
      SessionStart(layout, es, counts, rets, poss);
    }
  }

  lemma SessionStart(layout: Layout, es: seq<Entry>, counts: seq<nat>, rets: seq<int>, poss: seq<nat>)
    requires Session(layout, es, counts, rets, poss)
    ensures |poss| == |counts| + 1 && poss[0] == 0
  {
  }

  /** A call returns 0 exactly when everything has been delivered, fails exactly when the next record
      does not fit, and otherwise returns the length of what it delivers if and only if that is less
      than 2 GiB. */
  lemma ZeroAtTheEnd(layout: Layout, es: seq<Entry>, pos: nat, count: nat, r: int, next: nat)
    requires Call(layout, es, pos, count, r, next) && count < UINT32
    ensures r == 0 <==> pos >= |es|
    ensures r == FAILED <==> pos < |es| && Total(layout, es[pos]) > count
    ensures next > pos <==> r != 0 && r != FAILED
    ensures pos < next <= |es| ==> (r == Sum(layout, es[pos..next]) <==> Sum(layout, es[pos..next]) < 0x8000_0000)
  {
    hide Sum, ToInt32;
    if pos < |es| && Total(layout, es[pos]) <= count {
      NothingOrMore(layout, es, pos, next);
      RecordsAreAligned(layout, es[pos..next]);
      ReturnedLength(Sum(layout, es[pos..next]));
    }
  }

  /** With room for the next record each time, as many calls as there are entries deliver all. */
  lemma {:induction false} SessionEnds(layout: Layout, es: seq<Entry>, counts: seq<nat>, rets: seq<int>,
                                       poss: seq<nat>, n: nat)
    requires Session(layout, es, counts, rets, poss) && n <= |counts|
    requires forall i, j | 0 <= i < |counts| && 0 <= j < |es| :: Total(layout, es[j]) <= counts[i]
    ensures poss[n] >= n || poss[n] == |es|
  {
    hide Total, Sum;
    if n > 0 {
      SessionEnds(layout, es, counts, rets, poss, n - 1);
      PositionsGrow(layout, es, counts, rets, poss, n);
      assert Call(layout, es, poss[n - 1], counts[n - 1], rets[n - 1], poss[n - 1 + 1]);
    }
  }

  // ---------------------------------------------------------------- gkfs_getsingleserverdir

  datatype Remote = Remote(name: seq<byte>, isDir: bool, size: nat, ctime: nat)

  function RemoteEntry(d: Remote): Entry {
    Entry(d.size, d.ctime, if d.isDir then 1 else 0, d.name)
  }

  function RemoteEntries(ds: seq<Remote>): seq<Entry> {
    seq(|ds|, i requires 0 <= i < |ds| => RemoteEntry(ds[i]))
  }

  /** What a call for one server's listing does to the buffer: the first `n` entries fit, and what is
      behind them stays. */
  ghost predicate Listed(ds: seq<Remote>, b: seq<byte>, b': seq<byte>, count: nat, r: int, n: nat) {
    var es := RemoteEntries(ds);
    && n <= |ds| && |b'| == |b|
    && (if n == 0 then r == FAILED && b' == b && (ds != [] ==> Total(Leading, es[0]) > count)
        else
          var written := Sum(Leading, es[..n]);
          && written <= count && written <= |b| && r == ToInt32(written)
          && (n < |ds| ==> written + Total(Leading, es[n]) > count)
          && HoldsAll(Leading, b', es[..n]) && b'[written..] == b[written..])
  }

  /** What the records of a listing must say: size and change time, and 1 for a directory. */
  ghost function MeantRemote(ds: seq<Remote>): seq<Entry> {
    if ds == [] then []
    else
      var d := ds[|ds| - 1];
      MeantRemote(ds[..|ds| - 1]) + [Entry(d.size, d.ctime, if d.isDir then 1 else 0, d.name)]
  }

  lemma {:induction false} RemoteIsMeant(ds: seq<Remote>, n: nat)
    requires n <= |ds|
    ensures RemoteEntries(ds)[..n] == MeantRemote(ds[..n])
  {
    if n > 0 {
      RemoteIsMeant(ds, n - 1);
      assert ds[..n][..n - 1] == ds[..n - 1];
      assert RemoteEntries(ds)[..n] == RemoteEntries(ds)[..n - 1] + [RemoteEntries(ds)[n - 1]];
    }
  }

  /** `gkfs_getsingleserverdir`; `reply` is the server's listing, or none if the call to it failed. */
  method GetSingleServerDir(reply: Option<seq<Remote>>, buf: array<byte>, count: nat) returns (r: int, ghost n: nat)
    requires count <= buf.Length && count < UINT32
    modifies buf
    ensures Listed(if reply.Some? then reply.value else [], old(buf[..]), buf[..], count, r, n)
    ensures r == FAILED <==> n == 0
    ensures reply.Some? && n > 0 && (forall i | 0 <= i < n :: Plain(Leading, RemoteEntry(reply.value[i]))) ==>
              && n <= |reply.value|
              && var es := RemoteEntries(reply.value)[..n];
                 && Walk(Leading, buf[..], 0, Sum(Leading, es)) == es
                 && Walkable(Leading, buf[..], 0, Sum(Leading, es))
                 && es == MeantRemote(reply.value[..n]) && Told(Leading, buf[..], 0, es)
  {
    hide Sum, HoldsAll, Walk, Walkable, Plain, Total, ToInt32, Told, MeantRemote;
    if reply.None? {
      return FAILED, 0;
    }
    var ds := reply.value;
    var es := RemoteEntries(ds);
    var written, next := Fill(Leading, es, 0, buf, count);
    n := next;
    assert es[0..next] == es[..next];
    NothingOrMore(Leading, es, 0, next);
    RecordsAreAligned(Leading, es[..next]);
    ReturnedLength(written);
    if n > 0 && forall i | 0 <= i < n :: Plain(Leading, RemoteEntry(ds[i])) {
      WalkRecovers(Leading, buf[..], es[..n]);
      AllTold(Leading, buf[..], es[..n]);
      RemoteIsMeant(ds, n);
    }
    if written == 0 {
      assert buf[..][0..] == buf[..] && old(buf[..])[0..] == old(buf[..]);
      return FAILED, n;
    }
    r := ToInt32(written);
  }

  /** The stored length is the record's exactly when that fits 16 bits. */
  lemma StoredLengthIff(layout: Layout, b: seq<byte>, at: nat, e: Entry)
    requires Holds(layout, b, at, e)
    ensures at + 18 <= |b| && (RecordLength(b, at) == Total(layout, e) <==> Total(layout, e) < 65536)
  {
    hide Total, Little, Number, Range, CString, KindAt, NameAt;
    Layouts(layout, e);
    Ranges();
    LittleNumber(Total(layout, e) % 65536, 2);
  }
}
