/** The server hash: a 20-byte digest as the shortest lower-case hex of its signed value. */
module AuthHash {
  import opened Words

  const DIGEST_LENGTH: nat := 20

  // ---- Big numbers: BN_bin2bn, BN_bn2bin, BN_bn2hex ----

  function FromBytes(s: seq<u8>): nat {
    if s == [] then 0 else FromBytes(s[..|s| - 1]) * 0x100 + s[|s| - 1]
  }

  /** As few bytes as the number needs, the highest first. */
  function ToBytes(n: nat): seq<u8> {
    if n == 0 then [] else ToBytes(n / 0x100) + [n % 0x100]
  }

  function UpperDigit(d: nat): char
    requires d < 16
  {
    "0123456789ABCDEF"[d]
  }

  function Pairs(s: seq<u8>): string {
    if s == [] then "" else Pairs(s[..|s| - 1]) + [UpperDigit(s[|s| - 1] / 16), UpperDigit(s[|s| - 1] % 16)]
  }

  /** Two upper-case digits for every byte; a single one for zero. */
  function ToHex(n: nat): string {
    if n == 0 then "0" else Pairs(ToBytes(n))
  }

  // ---- The signed value and its hex ----

  function Pow256(n: nat): (p: nat)
    ensures p >= 1
  {
    if n == 0 then 1 else 0x100 * Pow256(n - 1)
  }

  /** The digest as a two's-complement number. */
  function SignedValue(digest: seq<u8>): int {
    if digest != [] && digest[0] >= 0x80 then FromBytes(digest) - Pow256(|digest|) else FromBytes(digest)
  }

  function LowerDigit(d: nat): char
    requires d < 16
  {
    "0123456789abcdef"[d]
  }

  /** Lower-case hex without leading zeros; of zero, nothing at all. */
  function Hex(n: nat): string {
    if n == 0 then "" else Hex(n / 16) + [LowerDigit(n % 16)]
  }

  function SignedHex(v: int): string {
    if v < 0 then "-" + Hex(-v) else Hex(v)
  }

  // ---- Complement ----

  function Complement(s: seq<u8>): (r: seq<u8>)
    ensures |r| == |s| && forall i :: 0 <= i < |s| ==> r[i] == 0xFF - s[i]
  {
    seq(|s|, i requires 0 <= i < |s| => 0xFF - s[i])
  }

  /** Complementing every byte and adding one gives 256^n less the value. */
  lemma {:induction false} ComplementPlusOne(s: seq<u8>)
    ensures FromBytes(Complement(s)) + 1 == Pow256(|s|) - FromBytes(s)
  {
    if s != [] {
      var front := s[..|s| - 1];
      ComplementPlusOne(front);
      assert Complement(s)[..|s| - 1] == Complement(front);
    }
  }

  lemma Scale(a: nat, b: nat, p: nat)
    requires a <= b
    ensures a * p <= b * p && a * (0x100 * p) == 0x100 * (a * p) && (a + 1) * p == a * p + p
  {
  }

  /** The first byte bounds the value on both sides. */
  lemma {:induction false} FromBytesBound(s: seq<u8>)
    requires s != []
    ensures s[0] * Pow256(|s| - 1) <= FromBytes(s) < (s[0] + 1) * Pow256(|s| - 1) <= Pow256(|s|)
    decreases |s|
  {
    var p, b: nat := Pow256(|s| - 1), s[0];
    Scale(b + 1, 0x100, p);
    if |s| == 1 {
      assert s[..0] == [];
    } else {
      var front := s[..|s| - 1];
      var q := Pow256(|front| - 1);
      assert p == 0x100 * q;
      Scale(b, b, q);
      Scale(b + 1, b + 1, q);
      FromBytesBound(front);
    }
  }

  /** Bytes without a leading zero are what the number they make is turned back into. */
  lemma {:induction false} BytesRoundTrip(s: seq<u8>)
    requires s != [] ==> s[0] != 0
    ensures ToBytes(FromBytes(s)) == s
    decreases |s|
  {
    if s != [] {
      var front, last := s[..|s| - 1], s[|s| - 1];
      BytesRoundTrip(front);
      assert FromBytes(s) / 0x100 == FromBytes(front) && FromBytes(s) % 0x100 == last;
      if front == [] {
        assert FromBytes(s) == last;
      } else {
        FromBytesBound(front);
        Scale(1, front[0], Pow256(|front| - 1));
      }
    }
  }

  // ---- Stripping and lowering ----

  function Strip(s: string): string {
    if s != "" && s[0] == '0' then Strip(s[1..]) else s
  }

  /** std::tolower in the C locale. */
  function ToLower(c: char): char {
    if 'A' <= c <= 'Z' then (c as int + 32) as char else c
  }

  function Lowered(s: string): (r: string)
    ensures |r| == |s| && forall i :: 0 <= i < |s| ==> r[i] == ToLower(s[i])
  {
    seq(|s|, i requires 0 <= i < |s| => ToLower(s[i]))
  }

  function UpperHex(n: nat): string {
    if n == 0 then "" else UpperHex(n / 16) + [UpperDigit(n % 16)]
  }

  lemma {:induction false} UpperHexStartsNonZero(n: nat)
    requires n > 0
    ensures UpperHex(n) != "" && UpperHex(n)[0] != '0'
  {
    if n >= 16 {
      UpperHexStartsNonZero(n / 16);
    }
  }

  /** Two digits to a byte is the minimal hex, with a zero before it if that has odd length. */
  lemma {:induction false} PairsAreHex(n: nat)
    ensures Pairs(ToBytes(n)) == (if |UpperHex(n)| % 2 == 1 then "0" else "") + UpperHex(n)
  {
    hide ToBytes, UpperDigit;
    NothingInZero();
    if n > 0 {
      var q, r := n / 0x100, n % 0x100;
      PairsAreHex(q);
      LastPair(n);
      LastTwoDigits(n, q, r);
    }
  }

  lemma NothingInZero()
    ensures ToBytes(0) == []
  {
  }

  lemma LastPair(n: nat)
    requires n > 0
    ensures Pairs(ToBytes(n)) == Pairs(ToBytes(n / 0x100)) + [UpperDigit(n % 0x100 / 16), UpperDigit(n % 0x100 % 16)]
  {
    assert ToBytes(n)[..|ToBytes(n)| - 1] == ToBytes(n / 0x100);
  }

  lemma LastTwoDigits(n: nat, q: nat, r: nat)
    requires n == 0x100 * q + r && n > 0 && r < 0x100
    ensures n < 16 ==> UpperHex(n) == [UpperDigit(r % 16)] && UpperDigit(r / 16) == '0' && UpperHex(q) == ""
    ensures n >= 16 ==> UpperHex(n) == UpperHex(q) + [UpperDigit(r / 16), UpperDigit(r % 16)]
  {
    assert n / 16 == 16 * q + r / 16 && n % 16 == r % 16;
    assert n / 16 / 16 == q && n / 16 % 16 == r / 16;
    if n >= 16 {
      assert UpperHex(n) == UpperHex(n / 16) + [UpperDigit(n % 16)];
      assert UpperHex(n / 16) == UpperHex(q) + [UpperDigit(r / 16)];
    }
  }

  lemma {:induction false} LoweredHex(n: nat)
    ensures Lowered(UpperHex(n)) == Hex(n)
  {
    if n > 0 {
      LoweredHex(n / 16);
      DigitLowered(n % 16);
    }
  }

  lemma DigitLowered(d: nat)
    requires d < 16
    ensures ToLower(UpperDigit(d)) == LowerDigit(d)
  {
  }

  /** Whatever the library prints, stripped of every leading zero and lowered, is the minimal hex. */
  lemma StrippedIsHex(n: nat)
    ensures Lowered(Strip(ToHex(n))) == Hex(n)
  {
    LoweredHex(n);
    if n == 0 {
      assert Strip("0") == Strip("");
    } else {
      PairsAreHex(n);
      UpperHexStartsNonZero(n);
      var h := UpperHex(n);
      assert Strip(h) == h;
      assert ("0" + h)[1..] == h;
      assert "" + h == h;
    }
  }

  // ---- What the text tells ----

  function DigitValue(c: char): nat {
    if '0' <= c <= '9' then c as int - '0' as int
    else if 'a' <= c <= 'f' then c as int - 'a' as int + 10
    else 0
  }

  function HexValue(s: string): nat {
    if s == "" then 0 else HexValue(s[..|s| - 1]) * 16 + DigitValue(s[|s| - 1])
  }

  lemma {:induction false} HexRoundTrip(n: nat)
    ensures HexValue(Hex(n)) == n && forall i :: 0 <= i < |Hex(n)| ==> Hex(n)[i] != '-'
  {
    if n > 0 {
      HexRoundTrip(n / 16);
      assert Hex(n)[..|Hex(n)| - 1] == Hex(n / 16);
      DigitRoundTrip(n % 16);
    }
  }

  lemma DigitRoundTrip(d: nat)
    requires d < 16
    ensures DigitValue(LowerDigit(d)) == d && LowerDigit(d) != '-'
  {
  }

  /** No string of digits with this value is shorter. */
  lemma {:induction false} HexIsShortest(n: nat, s: string)
    requires HexValue(s) == n
    ensures |Hex(n)| <= |s|
    decreases |s|
  {
    if n > 0 {
      assert DigitValue(s[|s| - 1]) < 16;
      HexIsShortest(n / 16, s[..|s| - 1]);
    }
  }

  lemma SignedHexIsInjective(v: int, w: int)
    requires SignedHex(v) == SignedHex(w)
    ensures v == w
  {
    HexRoundTrip(if v < 0 then -v else v);
    HexRoundTrip(if w < 0 then -w else w);
    assert v < 0 ==> SignedHex(v)[0] == '-' && SignedHex(v)[1..] == Hex(-v);
    assert w < 0 ==> SignedHex(w)[0] == '-' && SignedHex(w)[1..] == Hex(-w);
  }

  lemma {:induction false} FromBytesIsInjective(s: seq<u8>, t: seq<u8>)
    requires |s| == |t| && FromBytes(s) == FromBytes(t)
    ensures s == t
  {
    if s != [] {
      FromBytesIsInjective(s[..|s| - 1], t[..|t| - 1]);
      assert s == s[..|s| - 1] + [s[|s| - 1]];
    }
  }

  /** The first byte's top bit splits the values in half. */
  lemma TopBit(s: seq<u8>)
    requires s != []
    ensures s[0] >= 0x80 <==> 2 * FromBytes(s) >= Pow256(|s|)
    ensures FromBytes(s) < Pow256(|s|)
    ensures SignedValue(s) == if s[0] >= 0x80 then FromBytes(s) - Pow256(|s|) else FromBytes(s)
    ensures SignedValue(s) < 0 <==> s[0] >= 0x80
  {
    FromBytesBound(s);
    var p := Pow256(|s| - 1);
    assert Pow256(|s|) == 0x100 * p;
    if s[0] >= 0x80 {
      Scale(0x80, s[0], p);
    } else {
      Scale(s[0] + 1, 0x80, p);
    }
  }

  lemma SignedValueIsInjective(s: seq<u8>, t: seq<u8>)
    requires |s| == |t| > 0 && SignedValue(s) == SignedValue(t)
    ensures s == t
  {
    hide FromBytes, Pow256, SignedValue;
    TopBit(s);
    TopBit(t);
    FromBytesIsInjective(s, t);
  }

  /** Distinct digests have distinct texts, and only the digest of zeros has the empty one. */
  lemma TextTellsDigest(s: seq<u8>, t: seq<u8>)
    requires |s| == |t| > 0
    ensures SignedHex(SignedValue(s)) == SignedHex(SignedValue(t)) <==> s == t
    ensures SignedHex(SignedValue(s)) == "" <==> FromBytes(s) == 0
  {
    hide FromBytes, Pow256, SignedValue, SignedHex;
    TopBit(s);
    EmptyHex();
    if SignedHex(SignedValue(s)) == SignedHex(SignedValue(t)) {
      SignedHexIsInjective(SignedValue(s), SignedValue(t));
      SignedValueIsInjective(s, t);
    }
    if SignedHex(SignedValue(s)) == "" {
      SignedHexIsInjective(SignedValue(s), 0);
    }
  }

  lemma EmptyHex()
    ensures SignedHex(0) == ""
  {
  }

  /** The first byte has the highest weight. */
  lemma {:induction false} HighestFirst(b: u8, s: seq<u8>)
    ensures FromBytes([b] + s) == b * Pow256(|s|) + FromBytes(s)
    decreases |s|
  {
    var t := [b] + s;
    if s == [] {
      assert t[..0] == [];
    } else {
      var front, p := s[..|s| - 1], Pow256(|s| - 1);
      assert t[..|t| - 1] == [b] + front;
      HighestFirst(b, front);
      Scale(b, b, p);
    }
  }

  /** The text of a digest: a minus sign exactly if the top bit is set, and then digits, without a zero
      in front and of lower case, whose value is that of the digest or of its two's complement. */
  lemma TextForm(digest: seq<u8>)
    requires digest != []
    ensures var text := SignedHex(SignedValue(digest));
            && (digest[0] >= 0x80 ==> text != "" && text[0] == '-')
            && var digits := if digest[0] >= 0x80 then text[1..] else text;
            && (digits != "" ==> digits[0] != '0')
            && (forall i :: 0 <= i < |digits| ==> '0' <= digits[i] <= '9' || 'a' <= digits[i] <= 'f')
            && HexValue(digits) == if digest[0] >= 0x80 then Pow256(|digest|) - FromBytes(digest) else FromBytes(digest)
  {
    hide FromBytes, Pow256, SignedValue, Hex, HexValue;
    TopBit(digest);
    var v := SignedValue(digest);
    HexRoundTrip(if v < 0 then -v else v);
    HexDigits(if v < 0 then -v else v);
    assert v < 0 ==> SignedHex(v)[1..] == Hex(-v);
  }

  lemma {:induction false} HexDigits(n: nat)
    ensures forall i :: 0 <= i < |Hex(n)| ==> '0' <= Hex(n)[i] <= '9' || 'a' <= Hex(n)[i] <= 'f'
    ensures n > 0 ==> Hex(n) != "" && Hex(n)[0] != '0'
    ensures n == 0 ==> Hex(n) == ""
  {
    if n > 0 {
      HexDigits(n / 16);
      OneDigit(n % 16);
    }
  }

  lemma OneDigit(d: nat)
    requires d < 16
    ensures '0' <= LowerDigit(d) <= '9' || 'a' <= LowerDigit(d) <= 'f'
    ensures d > 0 ==> LowerDigit(d) != '0'
  {
  }

  // ---- The program ----

  /** BN_is_bit_set */
  predicate IsBitSet(n: nat, bit: nat) {
    n / Pow2(bit) % 2 == 1
  }

  /** The transform that complements a byte vector in place. */
  method ComplementInPlace(tmp: array<u8>)
    modifies tmp
    ensures tmp[..] == Complement(old(tmp[..]))
  {
    var i := 0;
    while i < tmp.Length
      invariant 0 <= i <= tmp.Length
      invariant forall k :: 0 <= k < i ==> tmp[k] == 0xFF - old(tmp[k])
      invariant forall k :: i <= k < tmp.Length ==> tmp[k] == old(tmp[k])
    {
      tmp[i] := 0xFF - tmp[i];
      i := i + 1;
    }
  }

  /** The text of a digest. */
  method Finalise(digest: seq<u8>) returns (result: string)
    requires |digest| == DIGEST_LENGTH
    ensures result == SignedHex(SignedValue(digest))
  {
    hide FromBytes, ToBytes, Pow256, SignedValue, IsBitSet, ToHex, SignedHex, Hex;
    result := "";
    var bn := FromBytes(digest);
    BitOfTopByte(digest, 159);
    TopBit(digest);
    if IsBitSet(bn, 159) {
      result := result + "-";
      BytesRoundTrip(digest);
      var bytes := ToBytes(bn);
      var tmp := new u8[|bytes|](i requires 0 <= i < |bytes| => bytes[i]);
      assert tmp[..] == digest;
      ComplementInPlace(tmp);
      ComplementPlusOne(digest);
      bn := FromBytes(tmp[..]) + 1;
    }
    var hex := ToHex(bn);
    var view := hex;
    while view != "" && view[0] == '0'
      invariant Strip(view) == Strip(hex)
      decreases |view|
    {
      view := view[1..];
    }
    StrippedIsHex(bn);
    LoweredAppend(result, view);
    SignedHexIs(bn);
    result := result + view;
    result := Lowered(result);
  }

  lemma SignedHexIs(n: nat)
    ensures SignedHex(n) == Hex(n) && (n > 0 ==> SignedHex(0 - n as int) == "-" + Hex(n))
  {
  }

  lemma LoweredAppend(s: string, t: string)
    ensures Lowered(s + t) == Lowered(s) + Lowered(t)
    ensures Lowered("-") == "-" && Lowered("") == "" && "" + Lowered(t) == Lowered(t)
  {
    hide Lowered, ToLower;
    MinusLowered();
  }

  lemma MinusLowered()
    ensures ToLower('-') == '-'
  {
  }

  /** The highest bit that n bytes can have is the top bit of the first. */
  lemma BitOfTopByte(s: seq<u8>, bit: nat)
    requires s != [] && bit + 1 == 8 * |s|
    ensures IsBitSet(FromBytes(s), bit) <==> s[0] >= 0x80
  {
    hide FromBytes, SignedValue;
    TopBit(s);
    Pow256IsPow2(|s|);
    var n, p := FromBytes(s), Pow2(bit);
    assert Pow256(|s|) == 2 * p;
    QuotientOfHalf(n, p);
  }

  lemma QuotientOfHalf(n: nat, p: nat)
    requires n < 2 * p
    ensures n / p == if n >= p then 1 else 0
  {
    if n >= p {
      assert n == 1 * p + (n - p);
    }
  }

  lemma {:induction false} Pow256IsPow2(n: nat)
    ensures Pow256(n) == Pow2(8 * n)
  {
    if n > 0 {
      Pow256IsPow2(n - 1);
      var k := 8 * n - 8;
      assert Pow2(k + 2) == 4 * Pow2(k);
      assert Pow2(k + 4) == 4 * Pow2(k + 2);
      assert Pow2(k + 6) == 4 * Pow2(k + 4);
      assert Pow2(k + 8) == 4 * Pow2(k + 6);
    }
  }
}
