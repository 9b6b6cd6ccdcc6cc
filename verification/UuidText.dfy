/** The text of a UUID: the plain form, and the vector form that prints and parses it. Text is bytes
    of ASCII. */
module UuidText {
  import opened Simd

  const DASH: bv8 := 0x2D

  // ---- The plain form ----

  function HexDigit(n: bv8): bv8 {
    if n < 10 then 0x30 + n else 0x57 + n
  }

  /** The k-th hex digit: two for each byte, the high one first. */
  function Nibble(x: Vec128, k: nat): bv8
    requires k < 32
  {
    if k % 2 == 0 then x[k / 2] >> 4 else x[k / 2] & 0x0F
  }

  function Hex(x: Vec128): (r: Vec256)
    ensures forall k :: 0 <= k < 32 ==> r[k] == HexDigit(Nibble(x, k))
  {
    seq(32, k requires 0 <= k < 32 => HexDigit(Nibble(x, k)))
  }

  /** Dashes after 8, 4, 4 and 4 digits. */
  function Dashed(h: Vec256): (r: seq<bv8>)
    ensures |r| == 36
  {
    h[..8] + [DASH] + h[8..12] + [DASH] + h[12..16] + [DASH] + h[16..20] + [DASH] + h[20..]
  }

  function Print(x: Vec128): seq<bv8> {
    Dashed(Hex(x))
  }

  // ---- Printing with vectors ----

  /** Every byte of x expanded to its two digits. The upper half of the widened register is arbitrary. */
  function Digits(x: Vec128, upper: Vec128): Vec256 {
    var a := Cast256(x, upper);
    var high := ShiftRight64(a, 4);
    And(Interleaved(high, a), Set1(0x0F))
  }

  function Chars(d: Vec256): Vec256 {
    var add := Set1(0x06);
    var alpha := ShiftLeft64(And(Add(d, add), Set1(0x10)), 3);
    var offset := Blend(ShiftLeft64(add, 3), Set1(0x57), alpha);
    Add(d, offset)
  }

  lemma Shifted4InLane(b0: bv8, b1: bv8, b2: bv8, b3: bv8, b4: bv8, b5: bv8, b6: bv8, b7: bv8)
    ensures var w := Right64(Word64(b0, b1, b2, b3, b4, b5, b6, b7), 4);
            && Byte64(w, 0) & 0x0F == b0 >> 4 && Byte64(w, 1) & 0x0F == b1 >> 4
            && Byte64(w, 2) & 0x0F == b2 >> 4 && Byte64(w, 3) & 0x0F == b3 >> 4
            && Byte64(w, 4) & 0x0F == b4 >> 4 && Byte64(w, 5) & 0x0F == b5 >> 4
            && Byte64(w, 6) & 0x0F == b6 >> 4 && Byte64(w, 7) & 0x0F == b7 >> 4
  {
  }

  lemma Shifted4(v: Vec256, k: nat, r: nat)
    requires k < 4 && r < 8
    ensures Byte64(Right64(Lane64(v, k), 4), r) & 0x0F == v[8 * k + r] >> 4
  {
    hide Byte64, Right64, Word64;
    Shifted4InLane(v[8 * k], v[8 * k + 1], v[8 * k + 2], v[8 * k + 3],
                   v[8 * k + 4], v[8 * k + 5], v[8 * k + 6], v[8 * k + 7]);
    assert r == 0 || r == 1 || r == 2 || r == 3 || r == 4 || r == 5 || r == 6 || r == 7;
  }

  function Interleaved(high: Vec256, a: Vec256): Vec256 {
    InsertHigh128(UnpackLow(high, a), Cast128(UnpackHigh(high, a)))
  }

  lemma LowHalf(high: Vec256, a: Vec256, k: nat)
    requires k < 16
    ensures UnpackLow(high, a)[k] == (if k % 2 == 0 then high else a)[k / 2]
    ensures UnpackHigh(high, a)[k] == (if k % 2 == 0 then high else a)[8 + k / 2]
  {
    assert k / 16 * 16 + k % 16 / 2 == k / 2;
  }

  lemma InterleavedAt(high: Vec256, a: Vec256, k: nat)
    requires k < 32
    ensures Interleaved(high, a)[k] == (if k % 2 == 0 then high else a)[k / 2]
  {
    if k < 16 {
      LowHalf(high, a, k);
    } else {
      LowHalf(high, a, k - 16);
    }
  }

  lemma DigitsAreNibbles(x: Vec128, upper: Vec128, k: nat)
    requires k < 32
    ensures Digits(x, upper)[k] == Nibble(x, k)
  {
    hide Byte64, Right64, Lane64, Interleaved;
    var a := Cast256(x, upper);
    InterleavedAt(ShiftRight64(a, 4), a, k);
    var j := k / 2;
    Shifted4(a, j / 8, j % 8);
    assert 8 * (j / 8) + j % 8 == j;
  }

  lemma Shifted3InLane(b0: bv8, b1: bv8, b2: bv8, b3: bv8, b4: bv8, b5: bv8, b6: bv8, b7: bv8)
    ensures var w := Left64(Word64(b0, b1, b2, b3, b4, b5, b6, b7), 3);
            && (Byte64(w, 0) & 0x80 == 0 <==> b0 & 0x10 == 0) && (Byte64(w, 1) & 0x80 == 0 <==> b1 & 0x10 == 0)
            && (Byte64(w, 2) & 0x80 == 0 <==> b2 & 0x10 == 0) && (Byte64(w, 3) & 0x80 == 0 <==> b3 & 0x10 == 0)
            && (Byte64(w, 4) & 0x80 == 0 <==> b4 & 0x10 == 0) && (Byte64(w, 5) & 0x80 == 0 <==> b5 & 0x10 == 0)
            && (Byte64(w, 6) & 0x80 == 0 <==> b6 & 0x10 == 0) && (Byte64(w, 7) & 0x80 == 0 <==> b7 & 0x10 == 0)
  {
  }

  lemma Shifted3(v: Vec256, k: nat, r: nat)
    requires k < 4 && r < 8
    ensures Byte64(Left64(Lane64(v, k), 3), r) & 0x80 == 0 <==> v[8 * k + r] & 0x10 == 0
  {
    hide Byte64, Left64, Word64;
    Shifted3InLane(v[8 * k], v[8 * k + 1], v[8 * k + 2], v[8 * k + 3],
                   v[8 * k + 4], v[8 * k + 5], v[8 * k + 6], v[8 * k + 7]);
    assert r == 0 || r == 1 || r == 2 || r == 3 || r == 4 || r == 5 || r == 6 || r == 7;
  }

  lemma SixesShifted(v: Vec256, k: nat, r: nat)
    requires k < 4 && r < 8 && forall i :: 0 <= i < 32 ==> v[i] == 0x06
    ensures Byte64(Left64(Lane64(v, k), 3), r) == 0x30
  {
    assert Lane64(v, k) == 0x0606_0606_0606_0606;
    hide Lane64, Word64;
    assert r == 0 || r == 1 || r == 2 || r == 3 || r == 4 || r == 5 || r == 6 || r == 7;
  }

  lemma OffsetMakesHex(d: bv8)
    requires d < 16
    ensures d + (if (d + 0x06) & 0x10 == 0 then 0x30 else 0x57) == HexDigit(d)
  {
  }

  lemma CharsAreHex(d: Vec256, k: nat)
    requires k < 32 && d[k] < 16
    ensures Chars(d)[k] == HexDigit(d[k])
  {
    hide Byte64, Left64, Lane64, HexDigit;
    var q, r := k / 8, k % 8;
    assert 8 * q + r == k;
    SixesShifted(Set1(0x06), q, r);
    Shifted3(And(Add(d, Set1(0x06)), Set1(0x10)), q, r);
    assert ((d[k] + 0x06) & 0x10) & 0x10 == (d[k] + 0x06) & 0x10;
    OffsetMakesHex(d[k]);
  }

  /** The printing pipeline up to the shuffle computes the plain hex form. */
  lemma CharsOfDigitsAreHex(x: Vec128, upper: Vec128)
    ensures Chars(Digits(x, upper)) == Hex(x)
  {
    hide Chars, Digits, HexDigit;
    forall k | 0 <= k < 32
      ensures Chars(Digits(x, upper))[k] == Hex(x)[k]
    {
      DigitsAreNibbles(x, upper, k);
      NibbleIsSmall(x, k);
      CharsAreHex(Digits(x, upper), k);
    }
  }

  lemma NibbleIsSmall(x: Vec128, k: nat)
    requires k < 32
    ensures Nibble(x, k) < 16
  {
  }

  // ---- Dashes ----

  function DashShuffle(): Vec256 {
    SetEpi32([0x03020100, 0x07060504, 0x0a090880, 0x0d0c800b, 0x00808080, 0x80030201, 0x07060504, 0x0b0a0908])
  }

  function DashBytes(): Vec256 {
    SetEpi64([0, 0x00002d000000002d, 0x2d000000002d0000, 0])
  }

  function WithDashes(h: Vec256): Vec256 {
    Or(Shuffle(h, DashShuffle()), DashBytes())
  }

  predicate IsDash(i: nat) {
    i == 8 || i == 13 || i == 18 || i == 23
  }

  /** The digit at a position of the text that is not a dash. */
  function DigitAt(i: nat): nat
    requires i < 36
  {
    if i < 8 then i else if i < 13 then i - 1 else if i < 18 then i - 2 else if i < 23 then i - 3 else i - 4
  }

  lemma DashShuffleAt(i: nat)
    requires i < 32
    ensures var s := DashShuffle()[i];
            if IsDash(i) || i == 16 || i == 17 then s & 0x80 != 0
            else s & 0x80 == 0 && i / 16 * 16 + (s & 0x0F) as int == DigitAt(i)
  {
    var q, r := i / 4, i % 4;
    assert q == 0 || q == 1 || q == 2 || q == 3 || q == 4 || q == 5 || q == 6 || q == 7;
    assert r == 0 || r == 1 || r == 2 || r == 3;
  }

  lemma DashBytesAt(i: nat)
    requires i < 32
    ensures DashBytes()[i] == if IsDash(i) then DASH else 0
  {
    var q, r := i / 8, i % 8;
    assert q == 0 || q == 1 || q == 2 || q == 3;
    assert r == 0 || r == 1 || r == 2 || r == 3 || r == 4 || r == 5 || r == 6 || r == 7;
  }

  lemma WithDashesAt(h: Vec256, i: nat)
    requires i < 32 && i != 16 && i != 17
    ensures WithDashes(h)[i] == if IsDash(i) then DASH else h[DigitAt(i)]
  {
    hide DashShuffle, DashBytes, DigitAt;
    DashShuffleAt(i);
    DashBytesAt(i);
    if IsDash(i) {
      OrZero(DASH);
    } else {
      OrZero(h[DigitAt(i)]);
    }
  }

  lemma OrZero(b: bv8)
    ensures b | 0 == b && 0 | b == b
  {
  }

  lemma DashedAt(h: Vec256, i: nat)
    requires i < 36
    ensures Dashed(h)[i] == if IsDash(i) then DASH else h[DigitAt(i)]
  {
  }

  lemma DashedFromParts(h: Vec256, t: seq<bv8>)
    requires |t| == 36
    requires forall i :: 0 <= i < 36 ==> t[i] == if IsDash(i) then DASH else h[DigitAt(i)]
    ensures t == Dashed(h)
  {
    hide IsDash, DigitAt;
    forall i | 0 <= i < 36
      ensures t[i] == Dashed(h)[i]
    {
      DashedAt(h, i);
    }
  }

  /** Prints x into mem: one 32-byte store, and two smaller ones over the bytes that the shuffle,
      which cannot move a byte to the other half, leaves out. */
  method M128ToText(x: Vec128, upper: Vec128, mem: array<bv8>)
    requires mem.Length >= 36
    modifies mem
    ensures mem[..36] == Print(x)
    ensures mem[36..] == old(mem[36..])
  {
    hide Chars, Digits, Hex, WithDashes, Dashed;
    CharsOfDigitsAreHex(x, upper);
    var res := Chars(Digits(x, upper));
    var resd := WithDashes(res);
    forall i | 0 <= i < 32 && i != 16 && i != 17
      ensures resd[i] == if IsDash(i) then DASH else res[DigitAt(i)]
    {
      WithDashesAt(res, i);
    }
    forall i | 0 <= i < 32 {
      mem[i] := resd[i];
    }
    forall i | 0 <= i < 2 {
      mem[16 + i] := res[14 + i];
    }
    forall i | 0 <= i < 4 {
      mem[32 + i] := res[28 + i];
    }
    DashedFromParts(res, mem[..36]);
  }

  // ---- Parsing: the plain form ----

  /** Where the k-th digit stands in the dashed text. */
  function Position(k: nat): nat
    requires k < 32
  {
    if k < 8 then k else if k < 12 then k + 1 else if k < 16 then k + 2 else if k < 20 then k + 3 else k + 4
  }

  function Undashed(t: seq<bv8>): (h: Vec256)
    requires |t| >= 36
    ensures forall k :: 0 <= k < 32 ==> h[k] == t[Position(k)]
  {
    seq(32, k requires 0 <= k < 32 => t[Position(k)])
  }

  predicate IsLower(c: bv8) {
    0x30 <= c <= 0x39 || 0x61 <= c <= 0x66
  }

  predicate IsUpper(c: bv8) {
    0x41 <= c <= 0x46
  }

  function DigitValue(c: bv8): bv8 {
    if c <= 0x39 then c - 0x30 else if c <= 0x46 then c - 0x37 else c - 0x57
  }

  function Pair(high: bv8, low: bv8): bv8 {
    (high << 4) | low
  }

  /** Two digits to a byte, in text order. */
  function Unhex(h: Vec256): (x: Vec128)
    ensures forall j :: 0 <= j < 16 ==> x[j] == Pair(DigitValue(h[2 * j]), DigitValue(h[2 * j + 1]))
  {
    seq(16, j requires 0 <= j < 16 => Pair(DigitValue(h[2 * j]), DigitValue(h[2 * j + 1])))
  }

  function Parse(t: seq<bv8>): Vec128
    requires |t| >= 36
  {
    Unhex(Undashed(t))
  }

  // ---- Parsing with vectors ----

  function UndashShuffle(): Vec256 {
    SetEpi32([0x03020100, 0x07060504, 0x0c0b0a09, 0x80800f0e, 0x06050403, 0x0b0a0908, 0x0f0e0d0c, 0x80808080])
  }

  /** The 32 digits: one load, a shuffle, and the six bytes it cannot reach inserted. */
  function LoadDigits(t: seq<bv8>): Vec256
    requires |t| >= 36
  {
    var x := Shuffle(t[..32], UndashShuffle());
    Insert32At7(Insert16At7(x, t[16..18]), t[32..36])
  }

  lemma UndashShuffleAt(k: nat)
    requires k < 28 && k != 14 && k != 15
    ensures var s := UndashShuffle()[k];
            s & 0x80 == 0 && k / 16 * 16 + (s & 0x0F) as int == Position(k)
  {
    var q, r := k / 4, k % 4;
    assert q == 0 || q == 1 || q == 2 || q == 3 || q == 4 || q == 5 || q == 6;
    assert r == 0 || r == 1 || r == 2 || r == 3;
  }

  lemma LoadDigitsUndashes(t: seq<bv8>)
    requires |t| >= 36
    ensures LoadDigits(t) == Undashed(t)
  {
    hide UndashShuffle;
    forall k | 0 <= k < 32
      ensures LoadDigits(t)[k] == t[Position(k)]
    {
      if k < 28 && k != 14 && k != 15 {
        UndashShuffleAt(k);
      }
    }
  }

  /** Every byte of text to its value; the 0x20 bit of what is left after subtracting 0x2F tells
      letters from digits. */
  function Values(x: Vec256): Vec256 {
    var a := Sub(x, Set1(0x2F));
    var alpha := ShiftLeft64(And(a, Set1(0x20)), 2);
    Sub(a, Blend(Set1(0x01), Set1(0x28), alpha))
  }

  /** What that makes of one byte. */
  function LaneValue(c: bv8): bv8 {
    if (c - 0x2F) & 0x20 == 0 then c - 0x2F - 0x01 else c - 0x2F - 0x28
  }

  lemma Shifted2InLane(b0: bv8, b1: bv8, b2: bv8, b3: bv8, b4: bv8, b5: bv8, b6: bv8, b7: bv8)
    ensures var w := Left64(Word64(b0, b1, b2, b3, b4, b5, b6, b7), 2);
            && (Byte64(w, 0) & 0x80 == 0 <==> b0 & 0x20 == 0) && (Byte64(w, 1) & 0x80 == 0 <==> b1 & 0x20 == 0)
            && (Byte64(w, 2) & 0x80 == 0 <==> b2 & 0x20 == 0) && (Byte64(w, 3) & 0x80 == 0 <==> b3 & 0x20 == 0)
            && (Byte64(w, 4) & 0x80 == 0 <==> b4 & 0x20 == 0) && (Byte64(w, 5) & 0x80 == 0 <==> b5 & 0x20 == 0)
            && (Byte64(w, 6) & 0x80 == 0 <==> b6 & 0x20 == 0) && (Byte64(w, 7) & 0x80 == 0 <==> b7 & 0x20 == 0)
  {
  }

  lemma Shifted2(v: Vec256, k: nat, r: nat)
    requires k < 4 && r < 8
    ensures Byte64(Left64(Lane64(v, k), 2), r) & 0x80 == 0 <==> v[8 * k + r] & 0x20 == 0
  {
    hide Byte64, Left64, Word64;
    Shifted2InLane(v[8 * k], v[8 * k + 1], v[8 * k + 2], v[8 * k + 3],
                   v[8 * k + 4], v[8 * k + 5], v[8 * k + 6], v[8 * k + 7]);
    assert r == 0 || r == 1 || r == 2 || r == 3 || r == 4 || r == 5 || r == 6 || r == 7;
  }

  lemma ValuesAt(x: Vec256, k: nat)
    requires k < 32
    ensures Values(x)[k] == LaneValue(x[k])
  {
    hide Byte64, Left64, Lane64;
    var q, r := k / 8, k % 8;
    assert 8 * q + r == k;
    Shifted2(And(Sub(x, Set1(0x2F)), Set1(0x20)), q, r);
    AndTwice(x[k] - 0x2F);
  }

  lemma AndTwice(b: bv8)
    ensures (b & 0x20) & 0x20 == b & 0x20
  {
  }

  /** In each half, the even digits of each eight before the odd ones. */
  function Unweave(): Vec256 {
    SetEpi32([0x06040200, 0x07050301, 0x0e0c0a08, 0x0f0d0b09, 0x06040200, 0x07050301, 0x0e0c0a08, 0x0f0d0b09])
  }

  /** The k-th of its four patterns, twice over. */
  function UnweaveLane(k: nat): bv32
    requires k < 4
  {
    if k == 0 then 0x06040200 else if k == 1 then 0x07050301 else if k == 2 then 0x0e0c0a08 else 0x0f0d0b09
  }

  lemma UnweaveLanes(k: nat)
    requires k < 32
    ensures Unweave()[k] == Byte32(UnweaveLane(k / 4 % 4), k % 4)
  {
    hide Byte32;
  }

  lemma UnweaveByte(k: nat, r: nat)
    requires k < 4 && r < 4
    ensures var s := Byte32(UnweaveLane(k), r);
            s & 0x80 == 0 && (s & 0x0F) as int == k / 2 * 8 + 2 * r + k % 2
  {
    assert r == 0 || r == 1 || r == 2 || r == 3;
    assert k == 0 || k == 1 || k == 2 || k == 3;
  }

  lemma UnweaveAt(g: nat, o: nat, r: nat)
    requires g < 4 && o < 2 && r < 4
    ensures var s := Unweave()[8 * g + 4 * o + r];
            s & 0x80 == 0 && g / 2 * 16 + (s & 0x0F) as int == 8 * g + 2 * r + o
  {
    hide *;
    UnweaveIndex(g, o, r);
    UnweaveLanes(8 * g + 4 * o + r);
    UnweaveByte(2 * (g % 2) + o, r);
  }

  lemma UnweaveIndex(g: nat, o: nat, r: nat)
    requires g < 4 && o < 2 && r < 4
    ensures 8 * g + 4 * o + r < 32 && 2 * (g % 2) + o < 4
    ensures (8 * g + 4 * o + r) / 4 % 4 == 2 * (g % 2) + o && (8 * g + 4 * o + r) % 4 == r
    ensures g / 2 * 16 + ((2 * (g % 2) + o) / 2 * 8 + 2 * r + (2 * (g % 2) + o) % 2) == 8 * g + 2 * r + o
  {
  }

  /** Digit values to bytes: gather the high digits of four bytes in one lane and the low digits in
      the next, shift the first, add the two, and move the sums together. */
  function Packed(v: Vec256): Vec128 {
    var unwoven := Shuffle(v, Unweave());
    var shifted := ShiftLeft32(unwoven, [4, 0, 4, 0, 4, 0, 4, 0]);
    var sums := Hadd32(shifted, Set1(0));
    Cast128(Permute64(sums, [0, 2, 0, 0]))
  }

  /** The sum of the two lanes made of eight digits. */
  function PackedLane(v: Vec256, g: nat): bv32
    requires g < 4
  {
    Add32(Left32(UnwovenLane(v, g, 0), 4), Left32(UnwovenLane(v, g, 1), 0))
  }

  lemma BytesOfWord(b0: bv8, b1: bv8, b2: bv8, b3: bv8, w: bv32)
    ensures var x := Word32(b0, b1, b2, b3);
            Byte32(x, 0) == b0 && Byte32(x, 1) == b1 && Byte32(x, 2) == b2 && Byte32(x, 3) == b3
    ensures Word32(Byte32(w, 0), Byte32(w, 1), Byte32(w, 2), Byte32(w, 3)) == w
  {
  }

  lemma UnwovenAt(v: Vec256, g: nat, o: nat, r: nat)
    requires g < 4 && o < 2 && r < 4
    ensures Shuffle(v, Unweave())[8 * g + 4 * o + r] == v[8 * g + 2 * r + o]
  {
    hide Unweave, Shuffle;
    UnweaveAt(g, o, r);
    assert (8 * g + 4 * o + r) / 16 == g / 2;
  }

  /** The lane of high digits (o = 0) or low digits (o = 1) of the g-th eight. */
  function UnwovenLane(v: Vec256, g: nat, o: nat): bv32
    requires g < 4 && o < 2
  {
    Word32(v[8 * g + o], v[8 * g + 2 + o], v[8 * g + 4 + o], v[8 * g + 6 + o])
  }

  lemma LaneIsUnwoven(v: Vec256, g: nat, o: nat)
    requires g < 4 && o < 2
    ensures Lane32(Shuffle(v, Unweave()), 2 * g + o) == UnwovenLane(v, g, o)
  {
    hide Shuffle, Unweave, Word32;
    UnwovenAt(v, g, o, 0);
    UnwovenAt(v, g, o, 1);
    UnwovenAt(v, g, o, 2);
    UnwovenAt(v, g, o, 3);
  }

  lemma ShiftedByte(u: Vec256, n: seq<bv8>, m: nat, r: nat)
    requires m < 8 && |n| == 8 && r < 4
    ensures ShiftLeft32(u, n)[4 * m + r] == Byte32(Left32(Lane32(u, m), n[m]), r)
  {
    hide Left32, Byte32, Word32, Lane32;
    assert (4 * m + r) / 4 == m && (4 * m + r) % 4 == r;
  }

  lemma LaneOfBytes(v: Vec256, m: nat, w: bv32)
    requires m < 8 && v[4 * m] == Byte32(w, 0) && v[4 * m + 1] == Byte32(w, 1)
    requires v[4 * m + 2] == Byte32(w, 2) && v[4 * m + 3] == Byte32(w, 3)
    ensures Lane32(v, m) == w
  {
    hide Byte32, Word32;
    BytesOfWord(0, 0, 0, 0, w);
  }

  lemma ShiftedLane(u: Vec256, n: seq<bv8>, m: nat)
    requires m < 8 && |n| == 8
    ensures Lane32(ShiftLeft32(u, n), m) == Left32(Lane32(u, m), n[m])
  {
    hide *;
    ShiftedByte(u, n, m, 0);
    ShiftedByte(u, n, m, 1);
    ShiftedByte(u, n, m, 2);
    ShiftedByte(u, n, m, 3);
    LaneOfBytes(ShiftLeft32(u, n), m, Left32(Lane32(u, m), n[m]));
  }

  /** The horizontal sums of the two halves land in lanes 0, 1, 4 and 5. */
  function LaneOfSum(g: nat): nat {
    if g < 2 then g else g + 2
  }

  lemma PermutedAt(sums: Vec256, g: nat, r: nat)
    requires g < 4 && r < 4
    ensures Permute64(sums, [0, 2, 0, 0])[4 * g + r] == sums[4 * LaneOfSum(g) + r]
  {
    hide Permute64;
    if g == 0 {} else if g == 1 {} else if g == 2 {} else {}
  }

  lemma SumAt(v: Vec256, g: nat, r: nat)
    requires g < 4 && r < 4
    ensures Hadd32(v, Set1(0))[4 * LaneOfSum(g) + r] == Byte32(Add32(Lane32(v, 2 * g), Lane32(v, 2 * g + 1)), r)
  {
    hide Byte32, Lane32, Set1, Hadd32, Add32;
    var k := LaneOfSum(g);
    assert (4 * k + r) / 4 == k && (4 * k + r) % 4 == r;
    if g == 0 {} else if g == 1 {} else if g == 2 {} else {}
  }

  lemma ShiftedLanes(v: Vec256, g: nat)
    requires g < 4
    ensures var s := ShiftLeft32(Shuffle(v, Unweave()), [4, 0, 4, 0, 4, 0, 4, 0]);
            Add32(Lane32(s, 2 * g), Lane32(s, 2 * g + 1)) == PackedLane(v, g)
  {
    hide Byte32, Word32, Left32, Lane32, Unweave, Shuffle, ShiftLeft32, UnwovenLane, Add32;
    var n: seq<bv8> := [4, 0, 4, 0, 4, 0, 4, 0];
    LaneIsUnwoven(v, g, 0);
    LaneIsUnwoven(v, g, 1);
    ShiftedLane(Shuffle(v, Unweave()), n, 2 * g);
    ShiftedLane(Shuffle(v, Unweave()), n, 2 * g + 1);
    if g == 0 {} else if g == 1 {} else if g == 2 {} else {}
  }

  lemma PackedAt(v: Vec256, g: nat, r: nat)
    requires g < 4 && r < 4
    ensures Packed(v)[4 * g + r] == Byte32(PackedLane(v, g), r)
  {
    hide Byte32, Lane32, Unweave, Shuffle, ShiftLeft32, Permute64, Hadd32, PackedLane, Add32;
    var shifted := ShiftLeft32(Shuffle(v, Unweave()), [4, 0, 4, 0, 4, 0, 4, 0]);
    ShiftedLanes(v, g);
    SumAt(shifted, g, r);
    PermutedAt(Hadd32(shifted, Set1(0)), g, r);
  }

  /** The sum of a lane of high and a lane of low digits, digit by digit. */
  function LaneSum(v0: bv8, v1: bv8, v2: bv8, v3: bv8, v4: bv8, v5: bv8, v6: bv8, v7: bv8): bv32 {
    Add32(Left32(Word32(v0, v2, v4, v6), 4), Left32(Word32(v1, v3, v5, v7), 0))
  }

  predicate IsDigitValue(v: bv8) {
    v < 16
  }

  /** A digit value, seven too large where the flag is set. */
  function Overshot(v: bv8, upper: bool): bv8 {
    if upper then v + 7 else v
  }

  /** Every upper-case digit comes out seven too large, and no set of such errors cancels. */
  lemma OvershotShows(v0: bv8, v1: bv8, v2: bv8, v3: bv8, v4: bv8, v5: bv8, v6: bv8, v7: bv8,
                      u0: bool, u1: bool, u2: bool, u3: bool, u4: bool, u5: bool, u6: bool, u7: bool)
    requires IsDigitValue(v0) && IsDigitValue(v1) && IsDigitValue(v2) && IsDigitValue(v3)
    requires IsDigitValue(v4) && IsDigitValue(v5) && IsDigitValue(v6) && IsDigitValue(v7)
    ensures LaneSum(Overshot(v0, u0), Overshot(v1, u1), Overshot(v2, u2), Overshot(v3, u3),
                    Overshot(v4, u4), Overshot(v5, u5), Overshot(v6, u6), Overshot(v7, u7))
         == Word32(Pair(v0, v1), Pair(v2, v3), Pair(v4, v5), Pair(v6, v7))
       <==> !u0 && !u1 && !u2 && !u3 && !u4 && !u5 && !u6 && !u7
  {
  }

  /** The vector form of parsing. The characters where dashes stand are never looked at. */
  function TextToM128(t: seq<bv8>): Vec128
    requires |t| >= 36
  {
    Packed(Values(LoadDigits(t)))
  }

  predicate IsHexDigit(c: bv8) {
    IsLower(c) || IsUpper(c)
  }

  lemma LaneValueIs(c: bv8)
    requires IsHexDigit(c)
    ensures LaneValue(c) == Overshot(DigitValue(c), !IsLower(c)) && IsDigitValue(DigitValue(c))
  {
  }

  predicate LowerEight(h: Vec256, b: nat)
    requires b + 8 <= 32
  {
    IsLower(h[b]) && IsLower(h[b + 1]) && IsLower(h[b + 2]) && IsLower(h[b + 3])
    && IsLower(h[b + 4]) && IsLower(h[b + 5]) && IsLower(h[b + 6]) && IsLower(h[b + 7])
  }

  function PlainLane(h: Vec256, b: nat): bv32
    requires b + 8 <= 32
  {
    Word32(Pair(DigitValue(h[b]), DigitValue(h[b + 1])), Pair(DigitValue(h[b + 2]), DigitValue(h[b + 3])),
           Pair(DigitValue(h[b + 4]), DigitValue(h[b + 5])), Pair(DigitValue(h[b + 6]), DigitValue(h[b + 7])))
  }

  /** Eight characters make the right four bytes if and only if none of them is upper case. */
  lemma EightCharacters(c0: bv8, c1: bv8, c2: bv8, c3: bv8, c4: bv8, c5: bv8, c6: bv8, c7: bv8)
    requires IsHexDigit(c0) && IsHexDigit(c1) && IsHexDigit(c2) && IsHexDigit(c3)
    requires IsHexDigit(c4) && IsHexDigit(c5) && IsHexDigit(c6) && IsHexDigit(c7)
    ensures LaneSum(LaneValue(c0), LaneValue(c1), LaneValue(c2), LaneValue(c3),
                    LaneValue(c4), LaneValue(c5), LaneValue(c6), LaneValue(c7))
         == Word32(Pair(DigitValue(c0), DigitValue(c1)), Pair(DigitValue(c2), DigitValue(c3)),
                   Pair(DigitValue(c4), DigitValue(c5)), Pair(DigitValue(c6), DigitValue(c7)))
       <==> && IsLower(c0) && IsLower(c1) && IsLower(c2) && IsLower(c3)
            && IsLower(c4) && IsLower(c5) && IsLower(c6) && IsLower(c7)
  {
    hide LaneSum, LaneValue, DigitValue, Pair, Word32, Overshot, IsHexDigit, IsDigitValue, IsLower;
    LaneValueIs(c0);
    LaneValueIs(c1);
    LaneValueIs(c2);
    LaneValueIs(c3);
    LaneValueIs(c4);
    LaneValueIs(c5);
    LaneValueIs(c6);
    LaneValueIs(c7);
    OvershotShows(DigitValue(c0), DigitValue(c1), DigitValue(c2), DigitValue(c3),
                  DigitValue(c4), DigitValue(c5), DigitValue(c6), DigitValue(c7),
                  !IsLower(c0), !IsLower(c1), !IsLower(c2), !IsLower(c3),
                  !IsLower(c4), !IsLower(c5), !IsLower(c6), !IsLower(c7));
  }

  lemma PackedLaneIsPlain(h: Vec256, g: nat)
    requires g < 4 && forall k :: 0 <= k < 32 ==> IsHexDigit(h[k])
    ensures PackedLane(Values(h), g) == PlainLane(h, 8 * g) <==> LowerEight(h, 8 * g)
  {
    hide LaneValue, DigitValue, Pair, Word32, Left32, Add32, Values, IsHexDigit, IsLower;
    var b := 8 * g;
    ValuesAt(h, b);
    ValuesAt(h, b + 1);
    ValuesAt(h, b + 2);
    ValuesAt(h, b + 3);
    ValuesAt(h, b + 4);
    ValuesAt(h, b + 5);
    ValuesAt(h, b + 6);
    ValuesAt(h, b + 7);
    EightCharacters(h[b], h[b + 1], h[b + 2], h[b + 3], h[b + 4], h[b + 5], h[b + 6], h[b + 7]);
  }

  lemma UnhexLane(h: Vec256, g: nat)
    requires g < 4
    ensures Lane32(Unhex(h), g) == PlainLane(h, 8 * g)
  {
    hide DigitValue, Pair, Word32, Unhex;
    assert 2 * (4 * g) == 8 * g && 2 * (4 * g + 1) == 8 * g + 2 && 2 * (4 * g + 2) == 8 * g + 4
        && 2 * (4 * g + 3) == 8 * g + 6;
  }

  lemma PackedLaneAt(v: Vec256, g: nat)
    requires g < 4
    ensures Lane32(Packed(v), g) == PackedLane(v, g)
  {
    hide Packed, PackedLane, Word32, Byte32;
    PackedAt(v, g, 0);
    PackedAt(v, g, 1);
    PackedAt(v, g, 2);
    PackedAt(v, g, 3);
    BytesOfWord(0, 0, 0, 0, PackedLane(v, g));
  }

  predicate SameLanes(x: Vec128, y: Vec128) {
    Lane32(x, 0) == Lane32(y, 0) && Lane32(x, 1) == Lane32(y, 1)
    && Lane32(x, 2) == Lane32(y, 2) && Lane32(x, 3) == Lane32(y, 3)
  }

  lemma SameLane(x: Vec128, y: Vec128, g: nat)
    requires g < 4 && Lane32(x, g) == Lane32(y, g)
    ensures x[4 * g] == y[4 * g] && x[4 * g + 1] == y[4 * g + 1]
    ensures x[4 * g + 2] == y[4 * g + 2] && x[4 * g + 3] == y[4 * g + 3]
  {
    hide Word32, Byte32;
    BytesOfWord(x[4 * g], x[4 * g + 1], x[4 * g + 2], x[4 * g + 3], 0);
    BytesOfWord(y[4 * g], y[4 * g + 1], y[4 * g + 2], y[4 * g + 3], 0);
  }

  lemma LanesDecide(x: Vec128, y: Vec128)
    requires SameLanes(x, y)
    ensures x == y
  {
    hide Lane32;
    SameLane(x, y, 0);
    SameLane(x, y, 1);
    SameLane(x, y, 2);
    SameLane(x, y, 3);
  }

  predicate LowerCase(h: Vec256) {
    LowerEight(h, 0) && LowerEight(h, 8) && LowerEight(h, 16) && LowerEight(h, 24)
  }

  lemma LaneIsPlain(h: Vec256, g: nat)
    requires g < 4 && forall k :: 0 <= k < 32 ==> IsHexDigit(h[k])
    ensures Lane32(Packed(Values(h)), g) == Lane32(Unhex(h), g) <==> LowerEight(h, 8 * g)
  {
    hide Packed, Values, Unhex, LowerEight, PackedLane, PlainLane, Lane32, IsHexDigit;
    PackedLaneAt(Values(h), g);
    UnhexLane(h, g);
    PackedLaneIsPlain(h, g);
  }

  lemma PackedIsPlain(h: Vec256)
    requires forall k :: 0 <= k < 32 ==> IsHexDigit(h[k])
    ensures Packed(Values(h)) == Unhex(h) <==> LowerCase(h)
  {
    hide Packed, Values, Unhex, LowerEight, Lane32, IsHexDigit;
    LaneIsPlain(h, 0);
    LaneIsPlain(h, 1);
    LaneIsPlain(h, 2);
    LaneIsPlain(h, 3);
    if LowerCase(h) {
      LanesDecide(Packed(Values(h)), Unhex(h));
    }
  }

  /** For text with hex digits of either case in the digit places, the vector form computes what the
      plain form does, if and only if there is no upper-case digit. */
  lemma ParsingIsPlain(t: seq<bv8>)
    requires |t| >= 36 && forall k :: 0 <= k < 32 ==> IsHexDigit(Undashed(t)[k])
    ensures TextToM128(t) == Parse(t) <==> LowerCase(Undashed(t))
  {
    hide Packed, Values, Unhex, LowerCase, LoadDigits, Undashed, IsHexDigit;
    LoadDigitsUndashes(t);
    PackedIsPlain(Undashed(t));
  }

  // ---- Printing and parsing undo each other ----

  lemma DigitRoundTrip(n: bv8, c: bv8)
    ensures n < 16 ==> IsLower(HexDigit(n)) && DigitValue(HexDigit(n)) == n
    ensures IsLower(c) ==> HexDigit(DigitValue(c)) == c && DigitValue(c) < 16
  {
  }

  lemma PairParts(high: bv8, low: bv8, b: bv8)
    ensures high < 16 && low < 16 ==> Pair(high, low) >> 4 == high && Pair(high, low) & 0x0F == low
    ensures Pair(b >> 4, b & 0x0F) == b
  {
  }

  lemma UndashDashed(h: Vec256)
    ensures Undashed(Dashed(h)) == h
  {
    hide Dashed, Undashed;
    forall k | 0 <= k < 32
      ensures Undashed(Dashed(h))[k] == h[k]
    {
      DashedAt(h, Position(k));
      assert !IsDash(Position(k)) && DigitAt(Position(k)) == k;
    }
  }

  lemma HexIsLower(x: Vec128, k: nat)
    requires k < 32
    ensures IsLower(Hex(x)[k]) && DigitValue(Hex(x)[k]) == Nibble(x, k)
  {
    hide HexDigit, DigitValue, IsLower, Nibble, Hex;
    NibbleIsSmall(x, k);
    DigitRoundTrip(Nibble(x, k), 0);
  }

  lemma AllLower(h: Vec256)
    requires forall k :: 0 <= k < 32 ==> IsLower(h[k])
    ensures LowerCase(h) && forall k :: 0 <= k < 32 ==> IsHexDigit(h[k])
  {
    hide IsLower, IsUpper;
  }

  lemma UnhexHex(x: Vec128)
    ensures Unhex(Hex(x)) == x
  {
    hide Hex, Unhex, DigitValue, Pair, IsLower;
    forall j | 0 <= j < 16
      ensures Unhex(Hex(x))[j] == x[j]
    {
      HexIsLower(x, 2 * j);
      HexIsLower(x, 2 * j + 1);
      PairParts(0, 0, x[j]);
      assert Nibble(x, 2 * j) == x[j] >> 4 && Nibble(x, 2 * j + 1) == x[j] & 0x0F;
    }
  }

  /** Parsing what was printed gives the value back, for every 128-bit value. */
  lemma ParseUndoesPrint(x: Vec128)
    ensures TextToM128(Print(x)) == x
  {
    hide Hex, Dashed, Undashed, Unhex, TextToM128, LowerCase, IsHexDigit, IsLower;
    forall k | 0 <= k < 32
      ensures IsLower(Hex(x)[k])
    {
      HexIsLower(x, k);
    }
    AllLower(Hex(x));
    UndashDashed(Hex(x));
    ParsingIsPlain(Print(x));
    UnhexHex(x);
  }

  lemma HexUnhex(h: Vec256)
    requires forall k :: 0 <= k < 32 ==> IsLower(h[k])
    ensures Hex(Unhex(h)) == h
  {
    hide Hex, Unhex, DigitValue, Pair, IsLower, HexDigit;
    forall k | 0 <= k < 32
      ensures Hex(Unhex(h))[k] == h[k]
    {
      var j := k / 2;
      DigitRoundTrip(0, h[2 * j]);
      DigitRoundTrip(0, h[2 * j + 1]);
      PairParts(DigitValue(h[2 * j]), DigitValue(h[2 * j + 1]), 0);
    }
  }

  /** 8-4-4-4-12 lower-case hex digits, with dashes between. */
  predicate IsCanonical(t: seq<bv8>) {
    |t| == 36 && forall i :: 0 <= i < 36 ==> if IsDash(i) then t[i] == DASH else IsLower(t[i])
  }

  lemma CanonicalIsDashed(t: seq<bv8>)
    requires IsCanonical(t)
    ensures t == Dashed(Undashed(t)) && forall k :: 0 <= k < 32 ==> IsLower(Undashed(t)[k])
  {
    hide Dashed, Undashed, IsLower;
    forall i | 0 <= i < 36
      ensures !IsDash(i) ==> DigitAt(i) < 32 && Position(DigitAt(i)) == i
    {
    }
    forall k | 0 <= k < 32
      ensures !IsDash(Position(k))
    {
    }
    DashedFromParts(Undashed(t), t);
  }

  /** Printing what was parsed gives the text back, for every canonical lower-case text. */
  lemma PrintUndoesParse(t: seq<bv8>)
    requires IsCanonical(t)
    ensures Print(TextToM128(t)) == t
  {
    hide Hex, Dashed, Undashed, Unhex, TextToM128, LowerCase, IsHexDigit, IsLower, IsCanonical;
    CanonicalIsDashed(t);
    CanonicalHasLength(t);
    AllLower(Undashed(t));
    ParsingIsPlain(t);
    HexUnhex(Undashed(t));
  }

  lemma CanonicalHasLength(t: seq<bv8>)
    requires IsCanonical(t)
    ensures |t| == 36
  {
  }

  /** What stands where in a printed UUID: dashes at 8, 13, 18 and 23, and between them the digits of the
      bytes in order, the high digit first, as '0' to '9' and 'a' to 'f'. */
  lemma PrintedCharacter(x: Vec128, i: nat)
    requires i < 36
    ensures var c := Print(x)[i];
            if i == 8 || i == 13 || i == 18 || i == 23 then c == 0x2D
            else
              var k := i - (if i < 8 then 0 else if i < 13 then 1 else if i < 18 then 2 else if i < 23 then 3 else 4);
              var n := if k % 2 == 0 then x[k / 2] >> 4 else x[k / 2] & 0x0F;
              n < 16 && c == if n < 10 then 0x30 + n else 0x61 + (n - 10)
  {
    hide Hex, Dashed, HexDigit;
    DashedAt(Hex(x), i);
    if !IsDash(i) {
      NibbleIsSmall(x, DigitAt(i));
      DigitCharacter(Nibble(x, DigitAt(i)));
    }
  }

  lemma DigitCharacter(n: bv8)
    ensures HexDigit(n) == if n < 10 then 0x30 + n else 0x61 + (n - 10)
  {
  }

  // ---- Ids without dashes ----

  /** Puts the dashes into an id of 32 characters; any other length gives the empty text. */
  method ConvertSlimToFullUUID(uuid: seq<bv8>) returns (id: seq<bv8>)
    ensures id == if |uuid| == 32 then Dashed(uuid) else []
  {
    if |uuid| != 32 {
      return [];
    }
    id := [];
    id := id + uuid[..8];
    id := id + [DASH];
    id := id + uuid[8..12];
    id := id + [DASH];
    id := id + uuid[12..16];
    id := id + [DASH];
    id := id + uuid[16..20];
    id := id + [DASH];
    id := id + uuid[20..32];
  }

  /** For a lower-case id, the UUID parsed from its full form prints as that form, and dropping the
      dashes from it gives the id. */
  lemma SlimRoundTrip(uuid: Vec256)
    requires forall k :: 0 <= k < 32 ==> IsLower(uuid[k])
    ensures Print(TextToM128(Dashed(uuid))) == Dashed(uuid)
    ensures Undashed(Print(TextToM128(Dashed(uuid)))) == uuid
  {
    hide Hex, Undashed, Unhex, TextToM128, IsLower;
    DashedIsCanonical(uuid);
    PrintUndoesParse(Dashed(uuid));
    UndashDashed(uuid);
  }

  lemma DashedIsCanonical(h: Vec256)
    requires forall k :: 0 <= k < 32 ==> IsLower(h[k])
    ensures IsCanonical(Dashed(h))
  {
    hide Dashed, IsLower;
    forall i | 0 <= i < 36
      ensures if IsDash(i) then Dashed(h)[i] == DASH else IsLower(Dashed(h)[i])
    {
      DashedAt(h, i);
    }
  }

  // ---- Random UUIDs ----

  /** _mm_set_epi64x */
  function FromWords(high: bv64, low: bv64): (x: Vec128)
    ensures forall i :: 0 <= i < 16 ==> x[i] == if i < 8 then Byte64(low, i) else Byte64(high, i - 8)
  {
    seq(16, i requires 0 <= i < 16 => if i < 8 then Byte64(low, i) else Byte64(high, i - 8))
  }

  function And128(a: Vec128, b: Vec128): (r: Vec128)
    ensures forall i :: 0 <= i < 16 ==> r[i] == a[i] & b[i]
  {
    seq(16, i requires 0 <= i < 16 => a[i] & b[i])
  }

  function Or128(a: Vec128, b: Vec128): (r: Vec128)
    ensures forall i :: 0 <= i < 16 ==> r[i] == a[i] | b[i]
  {
    seq(16, i requires 0 <= i < 16 => a[i] | b[i])
  }

  /** A version 4 UUID from two random words. */
  function GetUuid(high: bv64, low: bv64): Vec128 {
    var andMask := FromWords(0xFFFF_FFFF_FFFF_FF3F, 0xFF0F_FFFF_FFFF_FFFF);
    var orMask := FromWords(0x0000_0000_0000_0080, 0x0040_0000_0000_0000);
    Or128(And128(FromWords(high, low), andMask), orMask)
  }

  lemma MaskBytes(i: nat)
    requires i < 16
    ensures FromWords(0xFFFF_FFFF_FFFF_FF3F, 0xFF0F_FFFF_FFFF_FFFF)[i]
         == if i == 6 then 0x0F else if i == 8 then 0x3F else 0xFF
    ensures FromWords(0x0000_0000_0000_0080, 0x0040_0000_0000_0000)[i]
         == if i == 6 then 0x40 else if i == 8 then 0x80 else 0x00
  {
    assert i == 0 || i == 1 || i == 2 || i == 3 || i == 4 || i == 5 || i == 6 || i == 7
        || i == 8 || i == 9 || i == 10 || i == 11 || i == 12 || i == 13 || i == 14 || i == 15;
  }

  lemma MaskedByte(b: bv8)
    ensures ((b & 0xFF) | 0x00) == b
    ensures ((b & 0x0F) | 0x40) >> 4 == 4 && ((b & 0x0F) | 0x40) & 0x0F == b & 0x0F
    ensures ((b & 0x3F) | 0x80) >> 4 == 8 | ((b >> 4) & 3) && ((b & 0x3F) | 0x80) & 0x0F == b & 0x0F
  {
  }

  /** Digit by digit: the thirteenth is the version, 4; the seventeenth starts with the variant bits
      10 and keeps its other two; the remaining thirty are the random ones. */
  lemma RandomUuidDigits(high: bv64, low: bv64, k: nat)
    requires k < 32
    ensures var n := Nibble(FromWords(high, low), k);
            Nibble(GetUuid(high, low), k) == if k == 12 then 4 else if k == 16 then 8 | (n & 3) else n
  {
    hide FromWords;
    MaskBytes(k / 2);
    MaskedByte(FromWords(high, low)[k / 2]);
  }

  /** In the text, '4' stands at position 14 and one of 8, 9, a, b at position 19; every other
      character is that of the random value. */
  lemma RandomUuidText(high: bv64, low: bv64, i: nat)
    requires i < 36
    ensures var t := Print(GetUuid(high, low));
            if i == 14 then t[i] == 0x34
            else if i == 19 then t[i] in [0x38, 0x39, 0x61, 0x62]
            else t[i] == Print(FromWords(high, low))[i]
  {
    hide GetUuid, FromWords, Hex, Nibble, Dashed, HexDigit;
    DashedAt(Hex(GetUuid(high, low)), i);
    DashedAt(Hex(FromWords(high, low)), i);
    if !IsDash(i) {
      RandomUuidDigits(high, low, DigitAt(i));
      MaskedNibble(Nibble(FromWords(high, low), 16));
    }
  }

  lemma MaskedNibble(n: bv8)
    ensures HexDigit(4) == 0x34 && HexDigit(8 | (n & 3)) in [0x38, 0x39, 0x61, 0x62]
  {
  }
}
