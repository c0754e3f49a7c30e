/** A file's metadata as text (src/common/metadata.cpp): fields in a fixed order, separated by '|',
    some of them compiled in or out; and the parser that reads the text back. */
module Metadata {
  import opened Common

  const MSP := '|'
  const NUL := '\0'
  const TWO32 := 0x1_0000_0000
  const TWO63 := 0x8000_0000_0000_0000
  const TWO64 := 0x1_0000_0000_0000_0000

  datatype Record = Record(mode: int, size: int, atime: int, mtime: int, ctime: int, links: int, blocks: int,
                           target: string, rename: string)

  /** Which fields are compiled in; a rename path comes only with a link target. */
  datatype Config = Config(atime: bool, mtime: bool, ctime: bool, links: bool, blocks: bool, symlinks: bool,
                           rename: bool)

  const BLANK := Record(0, 0, 0, 0, 0, 0, 0, "", "")

  /** The values the fields' C++ types can hold. */
  predicate Typed(md: Record) {
    && 0 <= md.mode < TWO32 && 0 <= md.size < TWO64
    && -TWO63 <= md.atime < TWO63 && -TWO63 <= md.mtime < TWO63 && -TWO63 <= md.ctime < TWO63
    && 0 <= md.links < TWO64 && -TWO63 <= md.blocks < TWO63
  }

  // ---------------------------------------------------------------- numbers

  function Digit(d: nat): char
    requires d < 10
  {
    (48 + d) as char
  }

  predicate IsDigit(c: char) {
    '0' <= c <= '9'
  }

  function Digits(n: nat): string {
    if n < 10 then [Digit(n)] else Digits(n / 10) + [Digit(n % 10)]
  }

  /** `fmt::format_int`. */
  function Decimal(n: int): string {
    if n < 0 then "-" + Digits(-n) else Digits(n)
  }

  predicate IsSpace(c: char) {
    c == ' ' || '\t' <= c <= '\r'
  }

  function SkipSpaces(s: string, p: nat): (q: nat)
    requires p <= |s|
    ensures p <= q <= |s|
    decreases |s| - p
  {
    if p < |s| && IsSpace(s[p]) then SkipSpaces(s, p + 1) else p
  }

  /** The digits at `p`, continuing the value `acc`; and where they end. */
  function ReadDigits(s: string, p: nat, acc: nat): (r: (nat, nat))
    requires p <= |s|
    ensures p <= r.1 <= |s|
    decreases |s| - p
  {
    if p < |s| && IsDigit(s[p]) then ReadDigits(s, p + 1, acc * 10 + (s[p] as int - 48)) else (acc, p)
  }

  /** How a number is read: `mode` by `stoul` and cut to 32 bits, `size` by `stol` into an unsigned
      variable, the others by `stol` or `stoul`. */
  datatype Kind = Mode | Size | Signed | Unsigned

  /** The C++ conversions: their range errors, and the wrap-around of the variable assigned. */
  function Converted(kind: Kind, negative: bool, magnitude: nat): Option<int> {
    var v: int := if negative then -(magnitude as int) else magnitude;
    match kind
    case Mode => if magnitude < TWO64 then Some((v % TWO64) % TWO32) else None
    case Unsigned => if magnitude < TWO64 then Some(v % TWO64) else None
    case Size => if -TWO63 <= v < TWO63 then Some(v % TWO64) else None
    case Signed => if -TWO63 <= v < TWO63 then Some(v) else None
  }

  /** `stol` or `stoul` at position `p`: the value, and where reading stopped. */
  function ReadNumber(kind: Kind, s: string, p: nat): (r: Option<(int, nat)>)
    requires p <= |s|
    ensures r.Some? ==> p <= r.value.1 <= |s|
  {
    var q := SkipSpaces(s, p);
    var signed := q < |s| && (s[q] == '-' || s[q] == '+');
    var from := if signed then q + 1 else q;
    if from < |s| && IsDigit(s[from]) then
      var (magnitude, end) := ReadDigits(s, from, 0);
      var v := Converted(kind, signed && s[q] == '-', magnitude);
      if v.Some? then Some((v.value, end)) else None
    else None
  }

  predicate Fits(kind: Kind, n: int) {
    match kind
    case Mode => 0 <= n < TWO32
    case Unsigned => 0 <= n < TWO64
    case Size => 0 <= n < TWO63
    case Signed => -TWO63 <= n < TWO63
  }

  /** `part` stands in `s` at `p`. */
  predicate At(s: string, p: nat, part: string) {
    p + |part| <= |s| && s[p..p + |part|] == part
  }

  lemma DigitsShape(n: nat)
    ensures Digits(n) != "" && IsDigit(Digits(n)[0])
  {
  }

  lemma DigitValue(d: nat)
    requires d < 10
    ensures IsDigit(Digit(d)) && Digit(d) as int - 48 == d
  {
  }

  lemma AtSplit(s: string, p: nat, a: string, b: string)
    requires At(s, p, a + b)
    ensures At(s, p, a) && At(s, p + |a|, b)
  {
    assert s[p..p + |a|] == s[p..p + |a + b|][..|a|];
    assert s[p + |a|..p + |a| + |b|] == s[p..p + |a + b|][|a|..];
  }

  lemma {:induction false} ReadBack(s: string, p: nat, n: nat)
    requires At(s, p, Digits(n))
    ensures ReadDigits(s, p, 0) == ReadDigits(s, p + |Digits(n)|, n)
    decreases n
  {
    hide Digit, ReadDigits;
    if n < 10 {
      ReadOne(s, p, 0, n);
    } else {
      var k := |Digits(n / 10)|;
      AtSplit(s, p, Digits(n / 10), [Digit(n % 10)]);
      ReadBack(s, p, n / 10);
      ReadOne(s, p + k, n / 10, n % 10);
      TensAndOnes(n);
    }
  }

  lemma ReadOne(s: string, p: nat, n: nat, d: nat)
    requires d < 10 && At(s, p, [Digit(d)])
    ensures ReadDigits(s, p, n) == ReadDigits(s, p + 1, n * 10 + d)
  {
    hide IsDigit, Digit;
    DigitValue(d);
    assert s[p] == s[p..p + 1][0];
  }

  lemma TensAndOnes(n: nat)
    ensures n / 10 * 10 + n % 10 == n
  {
  }

  lemma ConvertedFits(kind: Kind, n: int)
    requires Fits(kind, n)
    ensures Converted(kind, n < 0, if n < 0 then -n else n) == Some(n)
  {
  }

  /** Nothing continues the number. */
  predicate Stops(s: string, p: nat) {
    p >= |s| || !IsDigit(s[p])
  }

  lemma ReadNatural(s: string, p: nat, n: nat)
    requires At(s, p, Digits(n)) && Stops(s, p + |Digits(n)|)
    ensures p < |s| && IsDigit(s[p]) && ReadDigits(s, p, 0) == (n, p + |Digits(n)|)
  {
    ReadBack(s, p, n);
    DigitsShape(n);
    hide Digits;
    assert s[p] == s[p..p + |Digits(n)|][0];
  }

  lemma NoSpace(s: string, p: nat)
    requires p < |s| && (IsDigit(s[p]) || s[p] == '-')
    ensures SkipSpaces(s, p) == p
  {
  }

  /** Reading a formatted number with nothing continuing it converts that number. */
  lemma ReadDecimal(kind: Kind, s: string, p: nat, n: int)
    requires At(s, p, Decimal(n)) && Stops(s, p + |Decimal(n)|)
    ensures var v := Converted(kind, n < 0, if n < 0 then -n else n);
            ReadNumber(kind, s, p) == if v.Some? then Some((v.value, p + |Decimal(n)|)) else None
  {
    hide Converted, Digits, ReadDigits, SkipSpaces;
    if n < 0 {
      AtSplit(s, p, "-", Digits(-n));
      assert s[p] == s[p..p + 1][0];
      ReadNatural(s, p + 1, -n);
      NoSpace(s, p);
    } else {
      ReadNatural(s, p, n);
      NoSpace(s, p);
      DigitIsNoSign(s[p]);
    }
  }

  lemma DigitIsNoSign(c: char)
    requires IsDigit(c)
    ensures c != '-' && c != '+'
  {
  }

  // ---------------------------------------------------------------- serialising

  function Put(s: string, on: bool, n: int): string {
    if on then s + [MSP] + Decimal(n) else s
  }

  function PutText(s: string, on: bool, text: string): string {
    if on then s + [MSP] + text else s
  }

  /** The numbers of the record as they stand in the text. */
  function Numbers(cfg: Config, md: Record): string {
    var s := Decimal(md.mode) + [MSP] + Decimal(md.size);
    Put(Put(Put(Put(Put(s, cfg.atime, md.atime), cfg.mtime, md.mtime), cfg.ctime, md.ctime), cfg.links, md.links),
        cfg.blocks, md.blocks)
  }

  function Serialized(cfg: Config, md: Record): string {
    PutText(PutText(Numbers(cfg, md), cfg.symlinks, md.target), cfg.symlinks && cfg.rename, md.rename)
  }

  /** A field of the text that is compiled in or not. */
  ghost function Barred(on: bool, text: string): string {
    if on then "|" + text else ""
  }

  /** The text: the fields in this order, a bar before each but the first. */
  lemma TextIs(cfg: Config, md: Record)
    ensures Serialized(cfg, md) ==
            Decimal(md.mode) + "|" + Decimal(md.size) + Barred(cfg.atime, Decimal(md.atime)) +
            Barred(cfg.mtime, Decimal(md.mtime)) + Barred(cfg.ctime, Decimal(md.ctime)) +
            Barred(cfg.links, Decimal(md.links)) + Barred(cfg.blocks, Decimal(md.blocks)) +
            Barred(cfg.symlinks, md.target) + Barred(cfg.symlinks && cfg.rename, md.rename)
  {
    hide Decimal;
    var s := Decimal(md.mode) + "|" + Decimal(md.size);
    var s1 := PutIs(s, cfg.atime, md.atime);
    var s2 := PutIs(s1, cfg.mtime, md.mtime);
    var s3 := PutIs(s2, cfg.ctime, md.ctime);
    var s4 := PutIs(s3, cfg.links, md.links);
    var s5 := PutIs(s4, cfg.blocks, md.blocks);
    hide Put;
    PutTextIs(s5, cfg.symlinks, md.target);
    PutTextIs(PutText(s5, cfg.symlinks, md.target), cfg.symlinks && cfg.rename, md.rename);
  }

  lemma PutIs(s: string, on: bool, n: int) returns (r: string)
    ensures r == Put(s, on, n) == s + Barred(on, Decimal(n))
  {
    hide Decimal;
    r := Put(s, on, n);
    PutTextIs(s, on, Decimal(n));
  }

  lemma PutTextIs(s: string, on: bool, text: string)
    ensures PutText(s, on, text) == s + Barred(on, text)
  {
    if on {
      assert s + [MSP] + text == s + ("|" + text);
    }
  }

  /** The number a string of digits stands for. */
  ghost function Value(s: string): int {
    if s == "" then 0 else Value(s[..|s| - 1]) * 10 + (s[|s| - 1] as int - '0' as int)
  }

  lemma {:induction false} DigitsAre(n: nat)
    ensures Digits(n) != "" && (forall c | c in Digits(n) :: '0' <= c <= '9') && Value(Digits(n)) == n
    ensures n > 0 ==> Digits(n)[0] != '0'
    ensures n == 0 ==> Digits(n) == "0"
    decreases n
  {
    if n < 10 {
      assert Digits(n)[..0] == "";
    } else {
      var s := Digits(n / 10);
      DigitsAre(n / 10);
      assert Digits(n)[..|s|] == s;
      TensAndOnes(n);
    }
  }

  /** A number is written in decimal, without leading zeros, with a minus sign if it is negative. */
  lemma DecimalIs(n: int)
    ensures n < 0 ==> Decimal(n) == "-" + Decimal(-n)
    ensures n >= 0 ==> (forall c | c in Decimal(n) :: '0' <= c <= '9') && Value(Decimal(n)) == n
    ensures n > 0 ==> Decimal(n) != "" && Decimal(n)[0] != '0'
    ensures n == 0 ==> Decimal(n) == "0"
  {
    if n >= 0 {
      DigitsAre(n);
    }
  }

  /** `serialize`. */
  method Serialize(cfg: Config, md: Record) returns (s: string)
    ensures s == Serialized(cfg, md)
  {
    hide Decimal;
    s := "";
    s := s + Decimal(md.mode);
    s := s + [MSP];
    s := s + Decimal(md.size);
    assert s == Decimal(md.mode) + [MSP] + Decimal(md.size);
    s := AppendNumber(s, cfg.atime, md.atime);
    s := AppendNumber(s, cfg.mtime, md.mtime);
    s := AppendNumber(s, cfg.ctime, md.ctime);
    s := AppendNumber(s, cfg.links, md.links);
    s := AppendNumber(s, cfg.blocks, md.blocks);
    hide Put;
    if cfg.symlinks {
      s := s + [MSP];
      s := s + md.target;
      if cfg.rename {
        s := s + [MSP];
        s := s + md.rename;
      }
    }
  }

  method AppendNumber(s: string, on: bool, n: int) returns (r: string)
    ensures r == Put(s, on, n)
  {
    hide Decimal;
    r := s;
    if on {
      r := r + [MSP];
      r := r + Decimal(n);
    }
  }

  // ---------------------------------------------------------------- parsing

  /** Position of the last separator, or -1. */
  function LastSeparator(s: string): (k: int)
    ensures -1 <= k < |s| && (k >= 0 ==> s[k] == MSP)
    ensures forall j | k < j < |s| :: s[j] != MSP
  {
    if s == "" then -1 else if s[|s| - 1] == MSP then |s| - 1 else LastSeparator(s[..|s| - 1])
  }

  datatype Reader = Failed | Reader(md: Record, ptr: nat)

  datatype Field = Atime | Mtime | Ctime | Links | Blocks

  function KindOf(f: Field): Kind {
    if f == Links then Unsigned else Signed
  }

  function With(md: Record, f: Field, v: int): Record {
    match f
    case Atime => md.(atime := v)
    case Mtime => md.(mtime := v)
    case Ctime => md.(ctime := v)
    case Links => md.(links := v)
    case Blocks => md.(blocks := v)
  }

  /** A number after a separator. */
  function ReadField(s: string, kind: Kind, ptr: nat): (r: Option<(int, nat)>)
    ensures r.Some? ==> ptr < r.value.1 <= |s|
  {
    if ptr < |s| && s[ptr] == MSP then ReadNumber(kind, s, ptr + 1) else None
  }

  function Optional(s: string, on: bool, f: Field, r: Reader): (q: Reader)
    requires r.Reader? ==> r.ptr <= |s|
    ensures q.Reader? ==> q.ptr <= |s|
  {
    if r.Failed? || !on then r
    else
      var v := ReadField(s, KindOf(f), r.ptr);
      if v.None? then Failed else Reader(With(r.md, f, v.value.0), v.value.1)
  }

  function Mandatory(s: string): (q: Reader)
    ensures q.Reader? ==> q.ptr <= |s|
  {
    var mode := ReadNumber(Mode, s, 0);
    if mode.None? then Failed
    else
      var size := ReadField(s, Size, mode.value.1);
      if size.None? then Failed else Reader(BLANK.(mode := mode.value.0, size := size.value.0), size.value.1)
  }

  function ReadNumbers(cfg: Config, s: string): (q: Reader)
    ensures q.Reader? ==> q.ptr <= |s|
  {
    Optional(s, cfg.blocks, Blocks,
      Optional(s, cfg.links, Links,
        Optional(s, cfg.ctime, Ctime, Optional(s, cfg.mtime, Mtime, Optional(s, cfg.atime, Atime, Mandatory(s))))))
  }

  /** The paths at the end. The text behind the separator is split at its last separator; with
      none there, all of it is both the target and the rename path. */
  function Paths(cfg: Config, s: string, r: Reader): Option<Record>
    requires r.Reader? && r.ptr <= |s|
  {
    if !cfg.symlinks then (if r.ptr == |s| then Some(r.md) else None)
    else if r.ptr == |s| || s[r.ptr] != MSP then None
    else
      var text := s[r.ptr + 1..];
      if !cfg.rename then Some(r.md.(target := text))
      else if text == "" then None
      else
        var k := LastSeparator(text);
        Some(if k < 0 then r.md.(target := text, rename := text)
             else r.md.(target := text[..k], rename := text[k + 1..]))
  }

  function Parsed(cfg: Config, text: string): Option<Record> {
    var s := CString(text, NUL);
    var r := ReadNumbers(cfg, s);
    if r.Failed? then None else Paths(cfg, s, r)
  }

  // ---------------------------------------------------------------- round trip

  lemma FieldReads(s: string, a: string, on: bool, n: int, f: Field, md: Record)
    requires Put(a, on, n) <= s && Stops(s, |Put(a, on, n)|) && Fits(KindOf(f), n)
    ensures Optional(s, on, f, Reader(md, |a|)) == Reader(if on then With(md, f, n) else md, |Put(a, on, n)|)
  {
    hide Decimal, With, Fits, KindOf, ReadNumber;
    if on {
      assert s[|a|] == (a + [MSP] + Decimal(n))[|a|];
      assert s[|a| + 1..|a| + 1 + |Decimal(n)|] == (a + [MSP] + Decimal(n))[|a| + 1..];
      ReadDecimal(KindOf(f), s, |a| + 1, n);
      ConvertedFits(KindOf(f), n);
      hide Converted;
    }
  }

  /** Two numbers and what separates them, found in a text that starts with them. */
  lemma TwoNumbers(s: string, m: string, z: string)
    requires Leads(m + [MSP] + z, s)
    ensures At(s, 0, m) && Stops(s, |m|) && |m| < |s| && s[|m|] == MSP
    ensures At(s, |m| + 1, z) && Stops(s, |m| + 1 + |z|)
  {
    var a := m + [MSP] + z;
    assert s[..|a|] == a;
    assert s[0..|m|] == a[..|m|] == m;
    assert s[|m|] == a[|m|] == MSP;
    SeparatorStops(s, |m|);
    SeparatorStops(s, |a|);
    assert s[|m| + 1..|m| + 1 + |z|] == a[|m| + 1..] == z;
  }

  /** The size is the one mandatory number the parser may refuse. */
  lemma MandatoryReads(s: string, mode: int, size: int)
    requires Leads(Decimal(mode) + [MSP] + Decimal(size), s)
    requires Fits(Mode, mode) && 0 <= size
    ensures Mandatory(s) ==
            if size < TWO63 then Reader(BLANK.(mode := mode, size := size), |Decimal(mode) + [MSP] + Decimal(size)|)
            else Failed
  {
    hide Decimal, Fits, ReadNumber, Converted, Leads, At, Stops;
    ConvertedFits(Mode, mode);
    SizeConverted(size);
    var m, z := Decimal(mode), Decimal(size);
    TwoNumbers(s, m, z);
    ReadDecimal(Mode, s, 0, mode);
    ReadDecimal(Size, s, |m| + 1, size);
  }

  lemma SizeConverted(size: nat)
    ensures Converted(Size, false, size) == if size < TWO63 then Some(size) else None
  {
  }

  lemma SeparatorStops(s: string, p: nat)
    requires p < |s| ==> s[p] == MSP
    ensures Stops(s, p)
  {
  }

  /** What stands in `s` is the text so far, continued by a separator or not at all. */
  predicate Leads(a: string, s: string) {
    a <= s && (|a| < |s| ==> s[|a|] == MSP)
  }

  lemma PutLeads(a: string, on: bool, n: int, s: string)
    requires Leads(Put(a, on, n), s)
    ensures Leads(a, s)
  {
    hide Decimal;
    if on {
      var b := a + [MSP] + Decimal(n);
      assert a == b[..|a|] == s[..|a|];
      assert s[|a|] == b[|a|];
    }
  }

  /** The record with the fields that are compiled out left blank. */
  function KeptNumbers(cfg: Config, md: Record): Record {
    Record(md.mode, md.size, if cfg.atime then md.atime else 0, if cfg.mtime then md.mtime else 0,
           if cfg.ctime then md.ctime else 0, if cfg.links then md.links else 0, if cfg.blocks then md.blocks else 0,
           "", "")
  }

  function Kept(cfg: Config, md: Record): Record {
    KeptNumbers(cfg, md).(target := if cfg.symlinks then md.target else "",
                          rename := if cfg.symlinks && cfg.rename then md.rename else "")
  }

  lemma OptionalReads(s: string, a: string, on: bool, n: int, f: Field, md: Record)
    requires Leads(Put(a, on, n), s) && Fits(KindOf(f), n)
    ensures Leads(a, s)
    ensures Optional(s, on, f, Reader(md, |a|)) == Reader(if on then With(md, f, n) else md, |Put(a, on, n)|)
  {
    PutLeads(a, on, n, s);
    SeparatorStops(s, |Put(a, on, n)|);
    hide Put, Optional, With;
    FieldReads(s, a, on, n, f, md);
  }

  /** The text of the numbers at the front is read back. */
  lemma NumbersRead(cfg: Config, md: Record, s: string)
    requires Typed(md) && Leads(Numbers(cfg, md), s)
    ensures ReadNumbers(cfg, s) ==
            if md.size < TWO63 then Reader(KeptNumbers(cfg, md), |Numbers(cfg, md)|) else Failed
  {
    var a := Decimal(md.mode) + [MSP] + Decimal(md.size);
    hide Decimal, Leads, Mandatory;
    var b := Put(a, cfg.atime, md.atime);
    var c := Put(b, cfg.mtime, md.mtime);
    var d := Put(c, cfg.ctime, md.ctime);
    var e := Put(d, cfg.links, md.links);
    hide Put;
    PutLeads(e, cfg.blocks, md.blocks, s);
    PutLeads(d, cfg.links, md.links, s);
    PutLeads(c, cfg.ctime, md.ctime, s);
    PutLeads(b, cfg.mtime, md.mtime, s);
    PutLeads(a, cfg.atime, md.atime, s);
    MandatoryReads(s, md.mode, md.size);
    if md.size < TWO63 {
      OptionalsRead(cfg, md, s, a);
      hide Optional;
    }
  }

  lemma OptionalsRead(cfg: Config, md: Record, s: string, a: string)
    requires Typed(md)
    requires Leads(Put(Put(Put(Put(Put(a, cfg.atime, md.atime), cfg.mtime, md.mtime), cfg.ctime, md.ctime), cfg.links,
                               md.links), cfg.blocks, md.blocks), s)
    ensures |a| <= |s|
    ensures Optional(s, cfg.blocks, Blocks,
              Optional(s, cfg.links, Links,
                Optional(s, cfg.ctime, Ctime, Optional(s, cfg.mtime, Mtime, Optional(s, cfg.atime, Atime,
                  Reader(BLANK.(mode := md.mode, size := md.size), |a|)))))) ==
            Reader(KeptNumbers(cfg, md),
              |Put(Put(Put(Put(Put(a, cfg.atime, md.atime), cfg.mtime, md.mtime), cfg.ctime, md.ctime), cfg.links,
                       md.links), cfg.blocks, md.blocks)|)
  {
    var b := Put(a, cfg.atime, md.atime);
    var c := Put(b, cfg.mtime, md.mtime);
    var d := Put(c, cfg.ctime, md.ctime);
    var e := Put(d, cfg.links, md.links);
    var m0 := BLANK.(mode := md.mode, size := md.size);
    var m1 := if cfg.atime then m0.(atime := md.atime) else m0;
    var m2 := if cfg.mtime then m1.(mtime := md.mtime) else m1;
    var m3 := if cfg.ctime then m2.(ctime := md.ctime) else m2;
    var m4 := if cfg.links then m3.(links := md.links) else m3;
    hide Put, Leads, Optional;
    OptionalReads(s, e, cfg.blocks, md.blocks, Blocks, m4);
    OptionalReads(s, d, cfg.links, md.links, Links, m3);
    OptionalReads(s, c, cfg.ctime, md.ctime, Ctime, m2);
    OptionalReads(s, b, cfg.mtime, md.mtime, Mtime, m1);
    OptionalReads(s, a, cfg.atime, md.atime, Atime, m0);
    LeadsLength(a, s);
  }

  lemma LeadsLength(a: string, s: string)
    requires Leads(a, s)
    ensures |a| <= |s|
  {
  }

  lemma SliceLacks(s: string, c: char, i: nat, j: nat)
    requires c !in s && i <= j <= |s|
    ensures c !in s[i..j]
  {
  }

  lemma LacksOneMore(s: string, c: char, x: char)
    requires c !in s && c != x
    ensures c !in s + [x]
  {
  }

  lemma {:induction false} BehindLast(s: string)
    ensures MSP !in s[LastSeparator(s) + 1..]
    decreases |s|
  {
    if s != "" && s[|s| - 1] != MSP {
      var up, x := s[..|s| - 1], s[|s| - 1];
      BehindLast(up);
      assert LastSeparator(s) == LastSeparator(up);
      hide LastSeparator;
      var k := LastSeparator(up);
      LacksOneMore(up[k + 1..], MSP, x);
      assert s[k + 1..] == up[k + 1..] + [x];
    } else {
      assert s[LastSeparator(s) + 1..] == "";
    }
  }

  /** Neither path read can hold a NUL, nor the rename path a separator. */
  lemma PathsAreClean(cfg: Config, s: string, r: Reader)
    requires r.Reader? && r.ptr <= |s| && NUL !in s && cfg.symlinks && Paths(cfg, s, r).Some?
    ensures NUL !in Paths(cfg, s, r).value.target
    ensures cfg.rename ==> NUL !in Paths(cfg, s, r).value.rename && MSP !in Paths(cfg, s, r).value.rename
  {
    hide LastSeparator;
    var text := s[r.ptr + 1..];
    SliceLacks(s, NUL, r.ptr + 1, |s|);
    if cfg.rename {
      var k := LastSeparator(text);
      BehindLast(text);
      SliceLacks(text, NUL, k + 1, |text|);
      if k < 0 {
        assert text[k + 1..] == text;
      } else {
        SliceLacks(text, NUL, 0, k);
      }
    }
  }

  lemma {:induction false} LastIn(a: string, c: string)
    requires MSP !in c
    ensures LastSeparator(a + [MSP] + c) == |a|
    decreases |c|
  {
    var s := a + [MSP] + c;
    if c == "" {
      assert s[|s| - 1] == MSP;
    } else {
      var k := |c| - 1;
      assert s[..|s| - 1] == a + [MSP] + c[..k];
      assert s[|s| - 1] == c[k];
      LastIn(a, c[..k]);
    }
  }

  /** What the text of a record survives: a size that `stol` can read, no NUL in a path, and no
      separator in the rename path. */
  predicate Faithful(cfg: Config, md: Record) {
    && md.size < TWO63
    && (cfg.symlinks ==> NUL !in md.target)
    && (cfg.symlinks && cfg.rename ==> NUL !in md.rename && MSP !in md.rename)
  }

  lemma {:induction false} DecimalNoNul(n: nat)
    ensures NUL !in Digits(n)
    decreases n
  {
    if n >= 10 {
      DecimalNoNul(n / 10);
    }
  }

  lemma PutNoNul(a: string, on: bool, n: int)
    requires NUL !in a
    ensures NUL !in Put(a, on, n)
  {
    DecimalNoNul(if n < 0 then -n else n);
  }

  lemma NumbersNoNul(cfg: Config, md: Record)
    requires Typed(md)
    ensures NUL !in Numbers(cfg, md)
  {
    DecimalNoNul(md.mode);
    DecimalNoNul(md.size);
    var a := Decimal(md.mode) + [MSP] + Decimal(md.size);
    assert NUL !in a;
    hide Decimal, Put;
    PutNoNul(a, cfg.atime, md.atime);
    var b := Put(a, cfg.atime, md.atime);
    PutNoNul(b, cfg.mtime, md.mtime);
    var c := Put(b, cfg.mtime, md.mtime);
    PutNoNul(c, cfg.ctime, md.ctime);
    var d := Put(c, cfg.ctime, md.ctime);
    PutNoNul(d, cfg.links, md.links);
    PutNoNul(Put(d, cfg.links, md.links), cfg.blocks, md.blocks);
  }

  lemma CutLeads(a: string, rest: string)
    requires NUL !in a
    ensures CString(a + rest, NUL) == a + CString(rest, NUL)
    decreases |a|
  {
    if a == "" {
      assert a + rest == rest;
    } else {
      assert (a + rest)[1..] == a[1..] + rest;
      CutLeads(a[1..], rest);
    }
  }

  /** The paths as they stand in the text. */
  function Tail(cfg: Config, md: Record): string {
    PutText(PutText("", cfg.symlinks, md.target), cfg.symlinks && cfg.rename, md.rename)
  }

  lemma TailOf(cfg: Config, md: Record)
    ensures Serialized(cfg, md) == Numbers(cfg, md) + Tail(cfg, md)
  {
    hide Numbers;
    assert Numbers(cfg, md) + "" == Numbers(cfg, md);
  }

  lemma TailLeads(cfg: Config, md: Record, a: string)
    ensures Leads(a, a + CString(Tail(cfg, md), NUL))
  {
  }

  lemma TailNoNul(cfg: Config, md: Record)
    requires Faithful(cfg, md)
    ensures CString(Tail(cfg, md), NUL) == Tail(cfg, md)
  {
    assert NUL !in Tail(cfg, md);
  }

  /** The paths are read back from behind the numbers. */
  lemma PathsRead(cfg: Config, md: Record, a: string, nums: Record)
    requires Faithful(cfg, md)
    ensures Paths(cfg, a + Tail(cfg, md), Reader(nums, |a|)) ==
            Some(nums.(target := if cfg.symlinks then md.target else nums.target,
                       rename := if cfg.symlinks && cfg.rename then md.rename else nums.rename))
  {
    hide LastSeparator;
    var s := a + Tail(cfg, md);
    if !cfg.symlinks {
      assert s == a;
    } else if !cfg.rename {
      TextAt(a, md.target);
      assert s == a + [MSP] + md.target;
    } else {
      var text := md.target + [MSP] + md.rename;
      TextAt(a, text);
      assert s == a + [MSP] + text;
      LastIn(md.target, md.rename);
      TextAt(md.target, md.rename);
    }
  }

  lemma TextAt(a: string, text: string)
    ensures var s := a + [MSP] + text; s[|a|] == MSP && s[..|a|] == a && s[|a| + 1..] == text
  {
  }

  lemma ParsedCut(cfg: Config, md: Record)
    requires Typed(md)
    ensures var s := Numbers(cfg, md) + CString(Tail(cfg, md), NUL);
            && CString(Serialized(cfg, md), NUL) == s
            && ReadNumbers(cfg, s) ==
               if md.size < TWO63 then Reader(KeptNumbers(cfg, md), |Numbers(cfg, md)|) else Failed
  {
    TailOf(cfg, md);
    NumbersNoNul(cfg, md);
    CutLeads(Numbers(cfg, md), Tail(cfg, md));
    TailLeads(cfg, md, Numbers(cfg, md));
    hide Numbers, Tail, Serialized, CString, ReadNumbers, Typed, Leads, KeptNumbers;
    NumbersRead(cfg, md, Numbers(cfg, md) + CString(Tail(cfg, md), NUL));
  }

  /** Parsing undoes serialising, for every record and every choice of compiled-in fields, exactly
      when the record is faithful. */
  lemma RoundTripIff(cfg: Config, md: Record)
    requires Typed(md)
    ensures Parsed(cfg, Serialized(cfg, md)) == Some(Kept(cfg, md)) <==> Faithful(cfg, md)
  {
    ParsedCut(cfg, md);
    var s := Numbers(cfg, md) + CString(Tail(cfg, md), NUL);
    var nums := Reader(KeptNumbers(cfg, md), |Numbers(cfg, md)|);
    hide Numbers, Tail, Serialized, ReadNumbers, Typed, CString, Paths;
    assert NUL !in s;
    if md.size < TWO63 {
      if Faithful(cfg, md) {
        TailNoNul(cfg, md);
        PathsRead(cfg, md, Numbers(cfg, md), nums.md);
      } else if Paths(cfg, s, nums).Some? && cfg.symlinks {
        PathsAreClean(cfg, s, nums);
      }
    }
  }

  /** Two faithful records with the same text agree on every compiled-in field. */
  lemma SerialisingIsInjective(cfg: Config, a: Record, b: Record)
    requires Typed(a) && Typed(b) && Faithful(cfg, a) && Faithful(cfg, b) && Serialized(cfg, a) == Serialized(cfg, b)
    ensures Kept(cfg, a) == Kept(cfg, b)
  {
    hide Parsed, Serialized, Kept, Typed, Faithful;
    RoundTripIff(cfg, a);
    RoundTripIff(cfg, b);
  }

  // ---------------------------------------------------------------- the parser

  /** The parsing constructor: `None` where a conversion throws or an assertion fails. */
  method Parse(cfg: Config, text: string) returns (r: Option<Record>)
    ensures r == Parsed(cfg, text)
  {
    hide Converted, ReadNumber, CString, KindOf, Paths, With;
    var s := CString(text, NUL);
    var md := BLANK;
    var first := ReadNumber(Mode, s, 0);
    if first.None? {
      return None;
    }
    md := md.(mode := first.value.0);
    var second := ReadField(s, Size, first.value.1);
    if second.None? {
      return None;
    }
    md := md.(size := second.value.0);
    var ptr := second.value.1;
    assert Mandatory(s) == Reader(md, ptr);
    hide Mandatory, ReadField, Optional;
    var at := ParseField(s, cfg.atime, Atime, Reader(md, ptr));
    var at2 := ParseField(s, cfg.mtime, Mtime, at);
    var at3 := ParseField(s, cfg.ctime, Ctime, at2);
    var at4 := ParseField(s, cfg.links, Links, at3);
    var at5 := ParseField(s, cfg.blocks, Blocks, at4);
    if at5.Failed? {
      return None;
    }
    r := ParsePaths(cfg, s, at5);
  }

  /** One optional number; a failure stays a failure. */
  method ParseField(s: string, on: bool, f: Field, r: Reader) returns (q: Reader)
    requires r.Reader? ==> r.ptr <= |s|
    ensures q == Optional(s, on, f, r)
    ensures q.Reader? ==> q.ptr <= |s|
  {
    hide Converted, ReadNumber, ReadField, KindOf;
    q := r;
    if q.Reader? && on {
      var v := ReadField(s, KindOf(f), q.ptr);
      if v.None? {
        return Failed;
      }
      q := Reader(With(q.md, f, v.value.0), v.value.1);
    }
  }

  /** The pointer walks to the end of the text and back to the last separator. */
  method ParsePaths(cfg: Config, s: string, at: Reader) returns (r: Option<Record>)
    requires at.Reader? && at.ptr <= |s|
    ensures r == Paths(cfg, s, at)
  {
    hide LastSeparator;
    var md, ptr := at.md, at.ptr;
    if cfg.symlinks {
      if ptr == |s| || s[ptr] != MSP {
        return None;
      }
      ptr := ptr + 1;
      md := md.(target := s[ptr..]);
      ptr := ptr + |md.target|;
      if cfg.rename {
        if md.target != "" {
          var index, size := LastSeparator(md.target), |md.target|;
          var text := md.target;
          md := md.(target := if index < 0 then text else text[..index]);
          ptr := ptr - (size - index);
        }
        if ptr == |s| || s[ptr] != MSP {
          return None;
        }
        ptr := ptr + 1;
        md := md.(rename := s[ptr..]);
        ptr := ptr + |md.rename|;
      }
    }
    if ptr != |s| {
      return None;
    }
    return Some(md);
  }
}
