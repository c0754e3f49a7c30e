/** How a client tells a daemon which chunks of a request are meant for it: a bit vector
    indexed by a 16-bit position, sent as base64 text (src/common/rpc/rpc_util.cpp). */
module Wire {
  import opened Arithmetic

  type byte = x: int | 0 <= x < 256
  type sextet = x: int | 0 <= x < 64

  const UINT16: nat := 65536
  const UINT32: nat := 0x1_0000_0000

  // ---------------------------------------------------------------- bit vectors

  predicate GetBit(data: seq<byte>, position: nat)
    requires position / 8 < |data|
  {
    BitAnd(data[position / 8], Pow2(position % 8)) != 0
  }

  function SetBit(data: seq<byte>, position: nat): (r: seq<byte>)
    requires position / 8 < |data|
    ensures |r| == |data|
  {
    OrStaysByte(data[position / 8], position % 8);
    data[position / 8 := BitOr(data[position / 8], Pow2(position % 8))]
  }

  /** `get_bitset`; the position is a `uint16_t`. */
  predicate GetBitset(data: seq<byte>, position: nat)
    requires position % UINT16 / 8 < |data|
  {
    GetBit(data, position % UINT16)
  }

  /** `set_bitset`; the position is a `uint16_t`. */
  function SetBitset(data: seq<byte>, position: nat): (r: seq<byte>)
    requires position % UINT16 / 8 < |data|
    ensures |r| == |data|
  {
    SetBit(data, position % UINT16)
  }

  /** Above its lowest bit a word with bit `j` set is half the word with the bit below set. */
  lemma OrHalf(x: nat, j: nat)
    ensures BitOr(x, Pow2(j)) / 2 == if j == 0 then x / 2 else BitOr(x / 2, Pow2(j - 1))
    ensures BitOr(x, Pow2(j)) % 2 == if j == 0 then 1 else x % 2
  {
    if j == 0 {
      assert BitOr(x / 2, 0) == x / 2;
    }
  }

  lemma {:induction false} OrBelow(x: nat, j: nat, w: nat)
    requires j < w && x < Pow2(w)
    ensures BitOr(x, Pow2(j)) < Pow2(w)
  {
    assert Pow2(w) == 2 * Pow2(w - 1);
    hide BitOr, Pow2;
    OrHalf(x, j);
    if j > 0 {
      OrBelow(x / 2, j - 1, w - 1);
    }
  }

  lemma OrStaysByte(x: byte, j: nat)
    requires j < 8
    ensures 0 <= BitOr(x, Pow2(j)) < 256
  {
    assert Pow2(8) == 256;
    OrBelow(x, j, 8);
  }

  lemma TestBit(x: nat, i: nat)
    ensures BitAnd(x, Pow2(0)) != 0 <==> x % 2 == 1
    ensures BitAnd(x, Pow2(i + 1)) != 0 <==> BitAnd(x / 2, Pow2(i)) != 0
  {
    assert BitAnd(x / 2, 0) == 0;
    assert Pow2(i + 1) == 2 * Pow2(i);
  }

  lemma {:induction false} OrSetsOneBit(x: nat, j: nat, i: nat)
    ensures BitAnd(BitOr(x, Pow2(j)), Pow2(i)) != 0 <==> (i == j || BitAnd(x, Pow2(i)) != 0)
  {
    hide BitOr, BitAnd, Pow2;
    OrHalf(x, j);
    var y := BitOr(x, Pow2(j));
    if i == 0 {
      TestBit(y, 0);
      TestBit(x, 0);
    } else {
      TestBit(y, i - 1);
      TestBit(x, i - 1);
      if j != 0 { OrSetsOneBit(x / 2, j - 1, i - 1); }
    }
  }

  lemma SetBitThenGet(data: seq<byte>, p: nat, q: nat)
    requires p / 8 < |data| && q / 8 < |data|
    ensures GetBit(SetBit(data, p), q) <==> (p == q || GetBit(data, q))
  {
    hide Pow2, BitOr, BitAnd;
    if p / 8 == q / 8 {
      OrSetsOneBit(data[p / 8], p % 8, q % 8);
    }
  }

  /** Setting a position sets exactly the positions that agree with it in 16 bits. */
  lemma SetThenGet(data: seq<byte>, p: nat, q: nat)
    requires p % UINT16 / 8 < |data| && q % UINT16 / 8 < |data|
    ensures GetBitset(SetBitset(data, p), q) <==> (p % UINT16 == q % UINT16 || GetBitset(data, q))
  {
    hide GetBit, SetBit;
    SetBitThenGet(data, p % UINT16, q % UINT16);
  }

  // ---------------------------------------------------------------- base64

  /** The alphabet of section 4 of RFC 4648, in order. */
  function Base64Char(v: sextet): char {
    if v < 26 then 'A' + v as char
    else if v < 52 then 'a' + (v - 26) as char
    else if v < 62 then '0' + (v - 52) as char
    else if v == 62 then '+' else '/'
  }

  /** Capitals, small letters and digits in their order, then two signs. */
  lemma AlphabetInOrder(v: sextet)
    ensures Base64Char(0) == 'A' && Base64Char(25) == 'Z' && Base64Char(26) == 'a' && Base64Char(51) == 'z'
    ensures Base64Char(52) == '0' && Base64Char(61) == '9' && Base64Char(62) == '+' && Base64Char(63) == '/'
    ensures v < 61 && v != 25 && v != 51 ==> Base64Char(v + 1) as int == Base64Char(v) as int + 1
  {
  }

  /** Position of a character in the alphabet; -1 when it has none. */
  function Base64Value(c: char): (v: int)
    ensures -1 <= v < 64
  {
    if 'A' <= c <= 'Z' then c as int - 'A' as int
    else if 'a' <= c <= 'z' then c as int - 'a' as int + 26
    else if '0' <= c <= '9' then c as int - '0' as int + 52
    else if c == '+' then 62 else if c == '/' then 63 else -1
  }

  lemma AlphabetInverts(v: sextet)
    ensures Base64Value(Base64Char(v)) == v && Base64Char(v) != '='
  {
  }

  function Chars(v: seq<sextet>): string {
    seq(|v|, i requires 0 <= i < |v| => Base64Char(v[i]))
  }

  // The four sextets of three bytes.
  function S0(a: byte): sextet { a / 4 }
  function S1(a: byte, b: byte): sextet { a % 4 * 16 + b / 16 }
  function S2(b: byte, c: byte): sextet { b % 16 * 4 + c / 64 }
  function S3(c: byte): sextet { c % 64 }

  /** The data cut into six-bit groups, the last one filled up with zero bits. */
  function Sextets(d: seq<byte>): seq<sextet> {
    if |d| == 0 then []
    else if |d| == 1 then [S0(d[0]), S1(d[0], 0)]
    else if |d| == 2 then [S0(d[0]), S1(d[0], d[1]), S2(d[1], 0)]
    else [S0(d[0]), S1(d[0], d[1]), S2(d[1], d[2]), S3(d[2])] + Sextets(d[3..])
  }

  /** Base64 as section 4 of RFC 4648 defines it. */
  function Encoded(d: seq<byte>): string {
    Chars(Sextets(d)) + (if |d| % 3 == 0 then "" else if |d| % 3 == 1 then "==" else "=")
  }

  // Appending one byte, by the bytes already in its group of three.

  lemma {:induction false} SextetsSnoc0(d: seq<byte>, b: byte)
    requires |d| % 3 == 0
    ensures Sextets(d + [b]) == Sextets(d) + [S0(b), S1(b, 0)]
  {
    hide S0, S1, S2, S3;
    if |d| != 0 {
      SextetsSnoc0(d[3..], b);
      assert (d + [b])[3..] == d[3..] + [b];
    }
  }

  lemma {:induction false} SextetsSnoc1(d: seq<byte>, b: byte)
    requires |d| % 3 == 1
    ensures var s := Sextets(d);
            && |s| > 0 && s[|s| - 1] == S1(d[|d| - 1], 0)
            && Sextets(d + [b]) == s[..|s| - 1] + [S1(d[|d| - 1], b), S2(b, 0)]
  {
    hide S0, S1, S2, S3;
    if |d| != 1 {
      SextetsSnoc1(d[3..], b);
      assert (d + [b])[3..] == d[3..] + [b];
    }
  }

  lemma {:induction false} SextetsSnoc2(d: seq<byte>, b: byte)
    requires |d| % 3 == 2
    ensures var s := Sextets(d);
            && |s| > 0 && s[|s| - 1] == S2(d[|d| - 1], 0)
            && Sextets(d + [b]) == s[..|s| - 1] + [S2(d[|d| - 1], b), S3(b)]
  {
    hide S0, S1, S2, S3;
    if |d| != 2 {
      SextetsSnoc2(d[3..], b);
      assert (d + [b])[3..] == d[3..] + [b];
    } else {
      assert (d + [b])[3..] == [];
    }
  }

  /** The sextets the encoder's inner loop takes off the top of the register. */
  function Emitted(buffer: nat, padding: nat): seq<sextet> {
    if padding < 6 then [] else [ShiftRight(buffer, padding - 6) % 64] + Emitted(buffer, padding - 6)
  }

  /** The bits still in the encoder's register, as the zero-filled sextet they stand for. */
  function Pending(buffer: nat, padding: nat): seq<sextet> {
    if padding == 2 then [buffer % 4 * 16] else if padding == 4 then [buffer % 16 * 4] else []
  }

  /** The encoder after `data`: the register holds what is missing from `out`. */
  ghost predicate Encoding(data: seq<byte>, out: seq<sextet>, buffer: nat, padding: nat) {
    padding == |data| % 3 * 2 && out + Pending(buffer, padding) == Sextets(data)
  }

  /** Six bits of a word, with what is above and below them. */
  lemma Window(y: nat, d: nat, h: nat, v: nat, r: nat)
    requires d > 0 && r < d && v < 64 && y == (h * 64 + v) * d + r
    ensures y / d % 64 == v && y % d == r
  {
    RemainderUnique(y, d, h * 64 + v, r);
    RemainderUnique(h * 64 + v, 64, h, v);
  }

  /** Shifting a byte into the 32-bit register keeps the four bits below it. */
  lemma ShiftIn8(buffer: nat, b: byte) returns (h: nat)
    ensures (buffer * 256 + b) % UINT32 == h * 4096 + buffer % 16 * 256 + b
  {
    assert UINT32 == 4096 * 1048576;
    var x := buffer * 256 + b;
    h := buffer / 16 - x / UINT32 * 1048576;
  }

  lemma FeedWindows(y: nat, h: nat, p: nat, b: byte)
    requires p < 16 && y == h * 4096 + p * 256 + b
    ensures y / 4 % 64 == b / 4 && y % 4 == b % 4
    ensures y / 16 % 64 == p % 4 * 16 + b / 16 && y % 16 == b % 16
    ensures y / 64 % 64 == p * 4 + b / 64 && y % 64 == b % 64
  {
    Window(y, 4, h * 16 + p, b / 4, b % 4);
    Window(y, 16, h * 4 + p / 4, p % 4 * 16 + b / 16, b % 16);
    Window(y, 64, h, p * 4 + b / 64, b % 64);
  }

  lemma FeedByte(buffer: nat, b: byte)
    ensures var y := (buffer * 256 + b) % UINT32;
            && Emitted(y, 8) == [b / 4] && y % 4 == b % 4
            && Emitted(y, 10) == [buffer % 4 * 16 + b / 16] && y % 16 == b % 16
            && Emitted(y, 12) == [buffer % 16 * 4 + b / 64, b % 64]
  {
    hide Emitted;
    var y := (buffer * 256 + b) % UINT32;
    var h := ShiftIn8(buffer, b);
    LowBits(buffer);
    FeedWindows(y, h, buffer % 16, b);
    EmittedWindows(y);
  }

  lemma LowBits(x: nat)
    ensures x % 16 % 4 == x % 4
  {
  }

  lemma EmittedWindows(y: nat)
    ensures Emitted(y, 8) == [y / 4 % 64] && Emitted(y, 10) == [y / 16 % 64]
    ensures Emitted(y, 12) == [y / 64 % 64, y % 64]
  {
    hide ShiftRight, Pow2;
    ShiftByLiterals(y);
    assert Emitted(y, 6) == [y % 64];
  }

  lemma EncodeStep0(data: seq<byte>, b: byte, out: seq<sextet>, buffer: nat)
    requires Encoding(data, out, buffer, 0) && |data| % 3 == 0
    ensures var y := (buffer * 256 + b) % UINT32;
            Encoding(data + [b], out + Emitted(y, 8), y, 2)
  {
    hide Emitted, Sextets;
    FeedByte(buffer, b);
    SextetsSnoc0(data, b);
    assert out + [S0(b)] + [S1(b, 0)] == Sextets(data) + [S0(b), S1(b, 0)];
  }

  lemma EncodeStep1(data: seq<byte>, b: byte, out: seq<sextet>, buffer: nat)
    requires Encoding(data, out, buffer, 2) && |data| % 3 == 1
    ensures var y := (buffer * 256 + b) % UINT32;
            Encoding(data + [b], out + Emitted(y, 10), y, 4)
  {
    hide Emitted, Sextets;
    FeedByte(buffer, b);
    SextetsSnoc1(data, b);
    var s := Sextets(data);
    assert s[..|s| - 1] == out && s[|s| - 1] == buffer % 4 * 16;
    var x, y := S1(data[|data| - 1], b), S2(b, 0);
    assert out + [x] + [y] == out + [x, y];
  }

  lemma EncodeStep2(data: seq<byte>, b: byte, out: seq<sextet>, buffer: nat)
    requires Encoding(data, out, buffer, 4) && |data| % 3 == 2
    ensures var y := (buffer * 256 + b) % UINT32;
            Encoding(data + [b], out + Emitted(y, 12), y, 0)
  {
    hide Emitted, Sextets;
    FeedByte(buffer, b);
    SextetsSnoc2(data, b);
    var s := Sextets(data);
    assert s[..|s| - 1] == out && s[|s| - 1] == buffer % 16 * 4;
  }

  lemma EncodeStep(data: seq<byte>, b: byte, out: seq<sextet>, buffer: nat, padding: nat)
    requires Encoding(data, out, buffer, padding)
    ensures var y := (buffer * 256 + b) % UINT32;
            Encoding(data + [b], out + Emitted(y, padding + 8), y, (padding + 8) % 6)
  {
    assert padding == |data| % 3 * 2;
    hide Emitted, Sextets, Encoding;
    if |data| % 3 == 0 {
      EncodeStep0(data, b, out, buffer);
    } else if |data| % 3 == 1 {
      EncodeStep1(data, b, out, buffer);
    } else {
      EncodeStep2(data, b, out, buffer);
    }
  }

  lemma {:induction false} SextetCount(d: seq<byte>)
    ensures |Sextets(d)| % 4 == if |d| % 3 == 0 then 0 else |d| % 3 + 1
  {
    hide S0, S1, S2, S3;
    if |d| >= 3 {
      SextetCount(d[3..]);
      assert |Sextets(d)| == |Sextets(d[3..])| + 4;
      hide Sextets;
      OneGroup(|d| - 3, |Sextets(d[3..])|);
    }
  }

  lemma OneGroup(n: nat, k: nat)
    ensures (n + 3) % 3 == n % 3 && (k + 4) % 4 == k % 4
  {
  }

  /** The inner loop of `base64_encode`: emit the whole sextets in the register. */
  method Drain(buffer: nat, padding: nat) returns (text: string, left: nat)
    ensures text == Chars(Emitted(buffer, padding)) && left == padding % 6
  {
    hide Base64Char;
    text, left := "", padding;
    ghost var out: seq<sextet> := [];
    while left >= 6
      invariant left % 6 == padding % 6
      invariant text == Chars(out) && out + Emitted(buffer, left) == Emitted(buffer, padding)
    {
      left := left - 6;
      text := text + [Base64Char(ShiftRight(buffer, left) % 64)];
      out := out + [ShiftRight(buffer, left) % 64];
    }
  }

  /** The loop of `base64_encode` over the bytes, and the sextet filled up at its end. */
  method EncodeBytes(data: seq<byte>) returns (encoded: string)
    ensures encoded == Chars(Sextets(data))
  {
    hide Emitted, Sextets, Base64Char, Encoding, Pow2;
    encoded := "";
    var buffer: nat, padding: nat := 0, 0;
    ghost var out: seq<sextet> := [];
    assert Encoding(data[..0], [], 0, 0) by { EncodeStart(data[..0]); }
    for i := 0 to |data|
      invariant Encoding(data[..i], out, buffer, padding) && encoded == Chars(out)
    {
      EncodeStep(data[..i], data[i], out, buffer, padding);
      assert data[..i + 1] == data[..i] + [data[i]];
      buffer := (buffer * 256 + data[i]) % UINT32;
      out := out + Emitted(buffer, padding + 8);
      var text;
      text, padding := Drain(buffer, padding + 8);
      encoded := encoded + text;
    }
    assert data[..|data|] == data;
    EncodeEnd(data, out, buffer, padding);
    if padding > 0 {
      LastSextet(buffer, padding);
      buffer := buffer * Pow2(6 - padding) % UINT32;
      encoded := encoded + [Base64Char(buffer % 64)];
    }
  }

  /** `base64_encode`, with its 32-bit shift register. */
  method Base64Encode(data: seq<byte>) returns (encoded: string)
    ensures encoded == Encoded(data)
  {
    hide Sextets, Base64Char;
    encoded := EncodeBytes(data);
    SextetCount(data);
    while |encoded| % 4 != 0
      invariant Chars(Sextets(data)) <= encoded <= Encoded(data)
      decreases |Encoded(data)| - |encoded|
    {
      encoded := encoded + "=";
    }
  }

  lemma EncodeStart(none: seq<byte>)
    requires none == []
    ensures Encoding(none, [], 0, 0)
  {
  }

  lemma EncodeEnd(data: seq<byte>, out: seq<sextet>, buffer: nat, padding: nat)
    requires Encoding(data, out, buffer, padding)
    ensures padding in {0, 2, 4} && out + Pending(buffer, padding) == Sextets(data)
  {
    hide Sextets;
  }

  lemma LastSextet(buffer: nat, padding: nat)
    requires padding == 2 || padding == 4
    ensures buffer * Pow2(6 - padding) % UINT32 % 64 ==
            (if padding == 2 then buffer % 4 * 16 else buffer % 16 * 4)
  {
    assert Pow2(2) == 4 && Pow2(4) == 16;
    assert UINT32 == 64 * 67108864;
    var x := buffer * Pow2(6 - padding);
    var q := x / UINT32;
    var (h, r) := if padding == 2 then (buffer / 4, buffer % 4 * 16) else (buffer / 16, buffer % 16 * 4);
    RemainderUnique(x % UINT32, 64, h - q * 67108864, r);
  }

  // ---------------------------------------------------------------- decoding

  /** The sextets of a text: up to the first '=', leaving out foreign characters. */
  function Clean(text: string): seq<sextet> {
    if text == "" || text[0] == '=' then []
    else if Base64Value(text[0]) == -1 then Clean(text[1..])
    else [Base64Value(text[0])] + Clean(text[1..])
  }

  // The three octets of four sextets.
  function O0(a: sextet, b: sextet): byte { a * 4 + b / 16 }
  function O1(b: sextet, c: sextet): byte { b % 16 * 16 + c / 4 }
  function O2(c: sextet, d: sextet): byte { c % 4 * 64 + d }

  /** The whole octets in a sequence of sextets. */
  function Octets(v: seq<sextet>): seq<byte> {
    if |v| < 2 then []
    else if |v| == 2 then [O0(v[0], v[1])]
    else if |v| == 3 then [O0(v[0], v[1]), O1(v[1], v[2])]
    else [O0(v[0], v[1]), O1(v[1], v[2]), O2(v[2], v[3])] + Octets(v[4..])
  }

  /** The bits of the last sextet that are not part of a whole octet. */
  function Rest(v: seq<sextet>): nat {
    if |v| % 4 == 0 then 0
    else
      var last := v[|v| - 1];
      if |v| % 4 == 1 then last else if |v| % 4 == 2 then last % 16 else last % 4
  }

  /** The last two octets as one number, missing ones counting as zero. */
  function LastTwo(o: seq<byte>): nat {
    if |o| == 0 then 0 else if |o| == 1 then o[0] else (o[|o| - 2] as int) * 256 + o[|o| - 1]
  }

  /** What `base64_decode` returns for any text. A text whose left-over bits are zero, which
      is what an encoder produces unless the data is a multiple of three bytes long, yields
      one octet too many: a copy of the last but one. */
  function Decoded(text: string): seq<byte> {
    var v := Clean(text);
    if |v| % 4 == 0 then Octets(v)
    else if |v| % 4 == 1 || Rest(v) != 0 then []
    else Octets(v) + [LastTwo(Octets(v)) / 256]
  }

  // Appending one sextet, by the sextets already in its group of four.

  lemma {:induction false} OctetsSnoc0(v: seq<sextet>, s: sextet)
    requires |v| % 4 == 0
    ensures Octets(v + [s]) == Octets(v)
  {
    hide O0, O1, O2;
    if |v| != 0 {
      OctetsSnoc0(v[4..], s);
      assert (v + [s])[4..] == v[4..] + [s];
    }
  }

  lemma {:induction false} OctetsSnoc1(v: seq<sextet>, s: sextet)
    requires |v| % 4 == 1
    ensures Octets(v + [s]) == Octets(v) + [O0(v[|v| - 1], s)]
  {
    hide O0, O1, O2;
    if |v| != 1 {
      OctetsSnoc1(v[4..], s);
      assert (v + [s])[4..] == v[4..] + [s];
    }
  }

  lemma {:induction false} OctetsSnoc2(v: seq<sextet>, s: sextet)
    requires |v| % 4 == 2
    ensures Octets(v + [s]) == Octets(v) + [O1(v[|v| - 1], s)]
  {
    hide O0, O1, O2;
    if |v| != 2 {
      OctetsSnoc2(v[4..], s);
      assert (v + [s])[4..] == v[4..] + [s];
    }
  }

  lemma {:induction false} OctetsSnoc3(v: seq<sextet>, s: sextet)
    requires |v| % 4 == 3
    ensures Octets(v + [s]) == Octets(v) + [O2(v[|v| - 1], s)]
  {
    hide O0, O1, O2;
    if |v| != 3 {
      OctetsSnoc3(v[4..], s);
      assert (v + [s])[4..] == v[4..] + [s];
    } else {
      assert (v + [s])[4..] == [];
    }
  }

  /** How many bits of `n` sextets are not part of a whole octet. */
  function LeftOver(n: nat): nat {
    if n % 4 == 1 then 6 else if n % 4 == 2 then 4 else if n % 4 == 3 then 2 else 0
  }

  /** `w` shifted left by the number of left-over bits. */
  function Above(w: int, padding: nat): int {
    if padding == 6 then w * 64 else if padding == 4 then w * 16 else if padding == 2 then w * 4 else w
  }

  /** The decoder's register: above the left-over bits are the last two octets. */
  ghost predicate Decoding(v: seq<sextet>, buffer: nat, padding: nat, h: int) {
    && padding == LeftOver(|v|)
    && buffer == Above(h * 65536 + LastTwo(Octets(v)), padding) + Rest(v)
  }

  lemma LastTwoSnoc(o: seq<byte>, octet: byte)
    ensures LastTwo(o) < 65536
    ensures LastTwo(o + [octet]) == LastTwo(o) % 256 * 256 + octet
  {
    if |o| >= 2 {
      RemainderUnique(LastTwo(o), 256, o[|o| - 2], o[|o| - 1]);
    }
  }

  lemma SmallPowers()
    ensures Pow2(0) == 1 && Pow2(2) == 4 && Pow2(4) == 16 && Pow2(6) == 64 && Pow2(8) == 256
  {
  }

  lemma ShiftByLiterals(y: nat)
    ensures ShiftRight(y, 0) == y && ShiftRight(y, 2) == y / 4 && ShiftRight(y, 4) == y / 16
    ensures ShiftRight(y, 6) == y / 64 && ShiftRight(y, 8) == y / 256
  {
    hide Pow2, ShiftRight;
    SmallPowers();
    ShiftAndMask(y, 0);
    ShiftAndMask(y, 2);
    ShiftAndMask(y, 4);
    ShiftAndMask(y, 6);
    ShiftAndMask(y, 8);
  }

  lemma Register0(buffer: nat, h: int, two: nat, s: sextet) returns (h': int)
    requires buffer == h * 65536 + two
    ensures (buffer * 64 + s) % UINT32 == (h' * 65536 + two) * 64 + s
  {
    h' := h - (buffer * 64 + s) / UINT32 * 1024;
  }

  lemma RestAfter0(v: seq<sextet>, s: sextet)
    requires |v| % 4 == 0
    ensures Rest(v) == 0 && Rest(v + [s]) == s
    ensures LeftOver(|v|) == 0 && LeftOver(|v + [s]|) == 6
  {
  }

  // The register takes a sextet: what it then holds, and the octet that is read off, with six,
  // four or two bits left over from before.

  lemma Register6(buffer: nat, h: int, two: nat, rest: nat, s: sextet) returns (h': int)
    requires two < 65536 && rest < 64 && buffer == (h * 65536 + two) * 64 + rest
    ensures var y, octet := (buffer * 64 + s) % UINT32, rest * 4 + s / 16;
            && y == (h' * 65536 + (two % 256 * 256 + octet)) * 16 + s % 16
            && ShiftRight(y, 4) % 256 == octet
  {
    hide ShiftRight;
    var x, octet := buffer * 64 + s, rest * 4 + s / 16;
    var y, q := x % UINT32, x / UINT32;
    assert y == x - q * UINT32;
    h' := h * 256 + two / 256 - q * 4096;
    assert y == ((h' * 256 + two % 256) * 256 + octet) * 16 + s % 16;
    ShiftByLiterals(y);
    RemainderUnique(y, 16, (h' * 256 + two % 256) * 256 + octet, s % 16);
    RemainderUnique((h' * 256 + two % 256) * 256 + octet, 256, h' * 256 + two % 256, octet);
  }

  lemma Register4(buffer: nat, h: int, two: nat, rest: nat, s: sextet) returns (h': int)
    requires two < 65536 && rest < 16 && buffer == (h * 65536 + two) * 16 + rest
    ensures var y, octet := (buffer * 64 + s) % UINT32, rest * 16 + s / 4;
            && y == (h' * 65536 + (two % 256 * 256 + octet)) * 4 + s % 4
            && ShiftRight(y, 2) % 256 == octet
  {
    hide ShiftRight;
    var x, octet := buffer * 64 + s, rest * 16 + s / 4;
    var y, q := x % UINT32, x / UINT32;
    assert y == x - q * UINT32;
    h' := h * 256 + two / 256 - q * 16384;
    assert y == ((h' * 256 + two % 256) * 256 + octet) * 4 + s % 4;
    ShiftByLiterals(y);
    RemainderUnique(y, 4, (h' * 256 + two % 256) * 256 + octet, s % 4);
    RemainderUnique((h' * 256 + two % 256) * 256 + octet, 256, h' * 256 + two % 256, octet);
  }

  lemma Register2(buffer: nat, h: int, two: nat, rest: nat, s: sextet) returns (h': int)
    requires two < 65536 && rest < 4 && buffer == (h * 65536 + two) * 4 + rest
    ensures var y, octet := (buffer * 64 + s) % UINT32, rest * 64 + s;
            && y == (h' * 65536 + (two % 256 * 256 + octet))
            && ShiftRight(y, 0) % 256 == octet
  {
    hide ShiftRight;
    var x, octet := buffer * 64 + s, rest * 64 + s;
    var y, q := x % UINT32, x / UINT32;
    assert y == x - q * UINT32;
    h' := h * 256 + two / 256 - q * 65536;
    assert y == ((h' * 256 + two % 256) * 256 + octet);
    ShiftByLiterals(y);
    RemainderUnique((h' * 256 + two % 256) * 256 + octet, 256, h' * 256 + two % 256, octet);
  }

  lemma RestAfter1(v: seq<sextet>, s: sextet)
    requires |v| % 4 == 1
    ensures Rest(v) < 64 && Rest(v + [s]) == s % 16
    ensures O0(v[|v| - 1], s) == Rest(v) * 4 + s / 16
    ensures LeftOver(|v + [s]|) == 4
  {
  }

  lemma RestAfter2(v: seq<sextet>, s: sextet)
    requires |v| % 4 == 2
    ensures Rest(v) < 16 && Rest(v + [s]) == s % 4
    ensures O1(v[|v| - 1], s) == Rest(v) * 16 + s / 4
    ensures LeftOver(|v + [s]|) == 2
  {
  }

  lemma RestAfter3(v: seq<sextet>, s: sextet)
    requires |v| % 4 == 3
    ensures Rest(v) < 4 && Rest(v + [s]) == 0
    ensures O2(v[|v| - 1], s) == Rest(v) * 64 + s
    ensures LeftOver(|v + [s]|) == 0
  {
  }

  /** The decoder's register takes a sextet, and gives an octet once it holds eight bits. */
  lemma DecodeStep(v: seq<sextet>, buffer: nat, padding: nat, h: int, s: sextet) returns (h': int)
    requires Decoding(v, buffer, padding, h)
    ensures var y := (buffer * 64 + s) % UINT32;
            && Decoding(v + [s], y, if padding + 6 >= 8 then padding - 2 else padding + 6, h')
            && Octets(v + [s]) ==
               Octets(v) + if padding + 6 >= 8 then [ShiftRight(y, padding - 2) % 256] else []
  {
    hide Octets, LastTwo, Rest, ShiftRight, O0, O1, O2;
    var last := LastTwo(Octets(v));
    if |v| % 4 == 0 {
      RestAfter0(v, s);
      OctetsSnoc0(v, s);
      h' := Register0(buffer, h, last, s);
    } else if |v| % 4 == 1 {
      RestAfter1(v, s);
      OctetsSnoc1(v, s);
      LastTwoSnoc(Octets(v), O0(v[|v| - 1], s));
      h' := Register6(buffer, h, last, Rest(v), s);
    } else if |v| % 4 == 2 {
      RestAfter2(v, s);
      OctetsSnoc2(v, s);
      LastTwoSnoc(Octets(v), O1(v[|v| - 1], s));
      h' := Register4(buffer, h, last, Rest(v), s);
    } else {
      RestAfter3(v, s);
      OctetsSnoc3(v, s);
      LastTwoSnoc(Octets(v), O2(v[|v| - 1], s));
      h' := Register2(buffer, h, last, Rest(v), s);
    }
  }

  lemma DecodeEnd(v: seq<sextet>, buffer: nat, padding: nat, h: int)
    requires Decoding(v, buffer, padding, h)
    ensures BitAnd(buffer, Pow2(padding) - 1) == Rest(v)
    ensures ShiftRight(ShiftRight(buffer, padding), 8) % 256 == LastTwo(Octets(v)) / 256
    ensures padding == LeftOver(|v|)
  {
    hide Octets, LastTwo, BitAnd, Pow2, ShiftRight;
    var two := LastTwo(Octets(v));
    LastTwoSnoc(Octets(v), 0);
    ShiftAndMask(buffer, padding);
    assert Rest(v) < Pow2(padding) && buffer == (h * 65536 + two) * Pow2(padding) + Rest(v) by {
      SmallPowers();
    }
    hide Rest, Above;
    RemainderUnique(buffer, Pow2(padding), h * 65536 + two, Rest(v));
    LastButOne(h * 65536 + two, h, two);
  }

  lemma LastButOne(y: nat, h: int, two: nat)
    requires two < 65536 && y == h * 65536 + two
    ensures ShiftRight(y, 8) % 256 == two / 256
  {
    hide ShiftRight;
    ShiftByLiterals(y);
    RemainderUnique(y, 256, h * 256 + two / 256, two % 256);
    RemainderUnique(h * 256 + two / 256, 256, h, two / 256);
  }

  lemma DecodeStart()
    ensures Decoding([], 0, 0, 0) && Octets([]) == []
  {
  }

  lemma CleanStep(text: string, i: nat, v: seq<sextet>)
    requires i <= |text|
    ensures i == |text| || text[i] == '=' ==> v + Clean(text[i..]) == v
    ensures i < |text| && text[i] != '=' ==>
              v + Clean(text[i..]) ==
              (if Base64Value(text[i]) == -1 then v else v + [Base64Value(text[i])]) + Clean(text[i + 1..])
  {
    hide Base64Value;
    if i < |text| {
      assert text[i..][1..] == text[i + 1..];
    }
  }

  /** `base64_decode`. */
  method Base64Decode(encoded: string) returns (r: seq<byte>)
    ensures r == Decoded(encoded)
  {
    hide Octets, Rest, LastTwo, Base64Value, Pow2, Decoding, Clean, BitAnd, ShiftRight;
    var data: seq<byte>, buffer: nat, padding: nat, count: nat := [], 0, 0, 0;
    ghost var v: seq<sextet>, h := [], 0;
    DecodeStart();
    assert v + Clean(encoded[0..]) == Clean(encoded) by { assert encoded[0..] == encoded; }
    var i := 0;
    while i < |encoded| && encoded[i] != '='
      invariant 0 <= i <= |encoded|
      invariant v + Clean(encoded[i..]) == Clean(encoded)
      invariant Decoding(v, buffer, padding, h)
      invariant data == Octets(v) && count == |data|
    {
      var value := Base64Value(encoded[i]);
      CleanStep(encoded, i, v);
      i := i + 1;
      if value != -1 {
        h := DecodeStep(v, buffer, padding, h, value);
        v := v + [value];
        buffer := (buffer * 64 + value) % UINT32;
        padding := padding + 6;
        if padding >= 8 {
          padding := padding - 8;
          data := data + [ShiftRight(buffer, padding) % 256];
          count := count + 1;
        }
      }
    }
    CleanStep(encoded, i, v);
    DecodeEnd(v, buffer, padding, h);
    if 0 < padding < 6 && BitAnd(buffer, Pow2(padding) - 1) == 0 {
      buffer := ShiftRight(buffer, padding);
      padding := 0;
      data := data + [ShiftRight(buffer, 8) % 256];
      count := count + 1;
    }
    if count == 0 || padding % 8 != 0 {
      return [];
    }
    return data;
  }

  // ---------------------------------------------------------------- round trip

  lemma {:induction false} CleanChars(v: seq<sextet>, tail: string)
    requires tail == "" || tail[0] == '='
    ensures Clean(Chars(v) + tail) == v
  {
    hide Base64Char, Base64Value;
    if v == [] {
      assert Chars(v) + tail == tail;
    } else {
      AlphabetInverts(v[0]);
      var text := Chars(v) + tail;
      assert text[1..] == Chars(v[1..]) + tail;
      CleanChars(v[1..], tail);
    }
  }

  lemma GroupRegroups(a: byte, b: byte, c: byte)
    ensures O0(S0(a), S1(a, b)) == a && O1(S1(a, b), S2(b, c)) == b && O2(S2(b, c), S3(c)) == c
  {
  }

  lemma {:induction false} RegroupingInverts(d: seq<byte>)
    ensures Octets(Sextets(d)) == d
  {
    hide S0, S1, S2, S3, O0, O1, O2;
    if |d| >= 3 {
      RegroupingInverts(d[3..]);
      GroupRegroups(d[0], d[1], d[2]);
      assert Sextets(d)[4..] == Sextets(d[3..]);
    } else if |d| == 1 {
      GroupRegroups(d[0], 0, 0);
    } else if |d| == 2 {
      GroupRegroups(d[0], d[1], 0);
    }
  }

  lemma NothingLeftOver(d: seq<byte>)
    ensures Rest(Sextets(d)) == 0
  {
    hide Sextets;
    SextetCount(d);
    if |d| % 3 == 1 {
      SextetsSnoc1(d, 0);
    } else if |d| % 3 == 2 {
      SextetsSnoc2(d, 0);
    }
  }

  /** `decompress_bitset` undoes `compress_bitset` exactly on multiples of three bytes. On any
      other length it appends a copy of the last but one byte (zero for a single byte). */
  lemma CompressionRoundTrip(d: seq<byte>)
    ensures Decoded(Encoded(d)) ==
            if |d| % 3 == 0 then d else d + [if |d| == 1 then 0 else d[|d| - 2]]
  {
    hide Sextets, Chars, Octets, Rest;
    RegroupingInverts(d);
    SextetCount(d);
    NothingLeftOver(d);
    var tail := if |d| % 3 == 0 then "" else if |d| % 3 == 1 then "==" else "=";
    CleanChars(Sextets(d), tail);
    if |d| >= 2 {
      RemainderUnique(LastTwo(d), 256, d[|d| - 2], d[|d| - 1]);
    }
  }

  /** So a daemon sees the client's bits at every position the client allocated. */
  lemma BitsSurviveTheWire(d: seq<byte>, position: nat)
    requires position % UINT16 / 8 < |d|
    ensures d <= Decoded(Encoded(d))
    ensures GetBitset(Decoded(Encoded(d)), position) <==> GetBitset(d, position)
  {
    hide Decoded, Encoded, BitAnd, Pow2;
    CompressionRoundTrip(d);
  }
}
