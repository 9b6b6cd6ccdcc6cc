/** The variable-length integer of the wire format: seven bits per byte, low group first, and a
    set high bit says that another byte follows. */
module VarInts {
  import opened Options
  import opened Words

  /** The bytes the writer emits. The contract fixes their number by magnitude. */
  function Encode(v: u32): (s: seq<u8>)
    ensures |s| == EncodedLength(v)
    decreases v
  {
    if v < 0x80 then [v]
    else [v % 0x80 + 0x80] + Encode(v / 0x80)
  }

  function EncodedLength(v: u32): (n: nat)
    ensures 1 <= n <= 5
  {
    if v < 0x80 then 1
    else if v < 0x4000 then 2
    else if v < 0x20_0000 then 3
    else if v < 0x1000_0000 then 4
    else 5
  }

  /** The reader gives up at bit position 35, after five bytes. */
  const MAX_GROUPS: nat := 5

  /** What reading finds: the payload bits, the bytes taken, and whether the last byte that may be
      read still asked for another. */
  datatype Parsed = Parsed(bits: nat, len: nat, overrun: bool)

  /** Reads at most k groups from the front of s; None if s ends first. */
  function Parse(s: seq<u8>, k: nat): (r: Option<Parsed>)
    requires k >= 1
    ensures r.Some? ==> 1 <= r.value.len <= k && r.value.len <= |s|
    ensures r.Some? && r.value.overrun ==> r.value.len == k
    ensures |s| >= k ==> r.Some?
  {
    if s == [] then None
    else if s[0] < 0x80 then Some(Parsed(s[0], 1, false))
    else if k == 1 then Some(Parsed(s[0] - 0x80, 1, true))
    else
      match Parse(s[1..], k - 1)
      case None => None
      case Some(p) => Some(Parsed(s[0] - 0x80 + 0x80 * p.bits, p.len + 1, p.overrun))
  }

  /** The seven low bits of the first n bytes, each group 128 times the weight of the one before. */
  function GroupSum(s: seq<u8>, n: nat): nat
    requires n <= |s|
  {
    if n == 0 then 0 else GroupSum(s, n - 1) + s[n - 1] % 0x80 * Pow2(7 * (n - 1))
  }

  lemma {:induction false} GroupSumFirst(s: seq<u8>, n: nat)
    requires n < |s|
    ensures GroupSum(s, n + 1) == s[0] % 0x80 + 0x80 * GroupSum(s[1..], n)
  {
    if n > 0 {
      GroupSumFirst(s, n - 1);
      SevenMore(7 * (n - 1));
      assert s[n] == s[1..][n - 1];
      TimesGroup(s[n] % 0x80, Pow2(7 * (n - 1)));
    }
  }

  lemma TimesGroup(group: nat, p: nat)
    ensures group * (0x80 * p) == 0x80 * (group * p)
  {
  }

  lemma SevenMore(n: nat)
    ensures Pow2(n + 7) == 0x80 * Pow2(n)
  {
    assert Pow2(n + 2) == 4 * Pow2(n);
    assert Pow2(n + 4) == 4 * Pow2(n + 2);
    assert Pow2(n + 6) == 4 * Pow2(n + 4);
  }

  /** What reading finds in any bytes: it stops at the first without the high bit, or after k. */
  lemma {:induction false} ParsedGroups(s: seq<u8>, k: nat)
    requires k >= 1 && Parse(s, k).Some?
    ensures var p := Parse(s, k).value;
            && p.bits == GroupSum(s, p.len)
            && (forall i :: 0 <= i < p.len - 1 ==> s[i] >= 0x80)
            && (p.overrun <==> s[p.len - 1] >= 0x80)
    decreases k
  {
    var p := Parse(s, k).value;
    GroupSumFirst(s, p.len - 1);
    if s[0] >= 0x80 && k > 1 {
      ParsedGroups(s[1..], k - 1);
      assert forall i :: 1 <= i < p.len ==> s[i] == s[1..][i - 1];
    }
  }

  /** On any five bytes: the reader takes up to the first without the high bit and ORs the groups, as
      far as they are below bit 32, into the destination; five with the high bit reset it to zero. */
  lemma ReadsAnyBytes(s: seq<u8>, before: u32)
    requires |s| >= MAX_GROUPS
    ensures Parse(s, MAX_GROUPS).Some?
    ensures var p := Parse(s, MAX_GROUPS).value;
            if forall i :: 0 <= i < 5 ==> s[i] >= 0x80 then p.len == 5 && Received(before, p) == 0
            else
              && s[p.len - 1] < 0x80 && (forall i :: 0 <= i < p.len - 1 ==> s[i] >= 0x80)
              && Received(before, p) == BitOr(before, GroupSum(s, p.len) % 0x1_0000_0000)
  {
    hide Parse, BitOr, GroupSum;
    ParsedGroups(s, MAX_GROUPS);
  }

  /** The i-th byte written holds the i-th group, and the high bit unless it is the last. */
  lemma {:induction false} EncodedByte(v: u32, i: nat)
    requires i < |Encode(v)|
    ensures Encode(v)[i] == v / Pow2(7 * i) % 0x80 + if i < |Encode(v)| - 1 then 0x80 else 0
    decreases i
  {
    if i > 0 {
      EncodedByte(v / 0x80, i - 1);
      SevenMore(7 * (i - 1));
      DivDiv(v, 0x80, Pow2(7 * (i - 1)), Pow2(7 * i));
    }
  }

  /** What a destination that held `before` is left with: the bits are ORed in, and five
      continuation bytes reset it to zero. */
  function Received(before: u32, p: Parsed): u32 {
    BitOrIsWord(before, Wrap32(p.bits));
    if p.overrun then 0 else BitOr(before, Wrap32(p.bits))
  }

  lemma {:induction false} ParseEncode(v: u32, rest: seq<u8>, k: nat)
    requires EncodedLength(v) <= k
    ensures Parse(Encode(v) + rest, k) == Some(Parsed(v, EncodedLength(v), false))
    decreases v
  {
    if v >= 0x80 {
      assert (Encode(v) + rest)[1..] == Encode(v / 0x80) + rest;
      ParseEncode(v / 0x80, rest, k - 1);
    }
  }

  /** Round trip for all 32-bit patterns, negative ones included: exactly the written bytes are
      read back, and the value arrives whole in every destination that holds no foreign bit. */
  lemma RoundTrip(v: u32, rest: seq<u8>, before: u32)
    ensures Parse(Encode(v) + rest, MAX_GROUPS) == Some(Parsed(v, |Encode(v)|, false))
    ensures Received(0, Parsed(v, |Encode(v)|, false)) == v
    ensures Received(before, Parsed(v, |Encode(v)|, false)) == v <==> BitOr(before, v) == v
  {
    ParseEncode(v, rest, MAX_GROUPS);
  }

  lemma {:induction false} ParseIsNoShorter(s: seq<u8>, k: nat, v: u32)
    requires k >= 1 && Parse(s, k).Some?
    requires v <= Parse(s, k).value.bits
    ensures EncodedLength(v) <= Parse(s, k).value.len
    decreases k
  {
    if s[0] >= 0x80 && k > 1 {
      ParseIsNoShorter(s[1..], k - 1, v / 0x80);
    }
  }

  /** The writer's bytes are the shortest from which the reader takes the value it reads. */
  lemma EncodeIsShortest(s: seq<u8>)
    requires Parse(s, MAX_GROUPS).Some?
    ensures |Encode(Received(0, Parse(s, MAX_GROUPS).value))| <= Parse(s, MAX_GROUPS).value.len
  {
    var p := Parse(s, MAX_GROUPS).value;
    ParseIsNoShorter(s, MAX_GROUPS, Wrap32(p.bits));
  }

  /** Encodings that begin the same bytes are the same encoding. */
  lemma EncodeIsPrefixFree(a: u32, b: u32, x: seq<u8>, y: seq<u8>)
    requires Encode(a) + x == Encode(b) + y
    ensures a == b && x == y
  {
    ParseEncode(a, x, MAX_GROUPS);
    ParseEncode(b, y, MAX_GROUPS);
    assert x == (Encode(a) + x)[|Encode(a)|..];
    assert y == (Encode(b) + y)[|Encode(b)|..];
  }

  /** The value that the sizing loop holds after n turns without an exit. */
  function Shifted(v: u32, n: nat): u32
    decreases n
  {
    if n == 0 then v else Shifted(SignedShiftRight7(v), n - 1)
  }

  /** A signed shift keeps the sign, so from a negative value the loop never comes to its exit. */
  lemma {:induction false} NegativeNeverEnds(v: u32, n: nat)
    requires IsNegative(v)
    ensures IsNegative(Shifted(v, n)) && Shifted(v, n) >= 0x80
    decreases n
  {
    if n > 0 {
      NegativeNeverEnds(SignedShiftRight7(v), n - 1);
    }
  }

  lemma {:induction false} OthersEnd(v: u32)
    requires !IsNegative(v)
    ensures Shifted(v, EncodedLength(v) - 1) < 0x80
    ensures forall n :: 0 <= n < EncodedLength(v) - 1 ==> Shifted(v, n) >= 0x80
    decreases v
  {
    if v >= 0x80 {
      var w := SignedShiftRight7(v);
      assert EncodedLength(w) == EncodedLength(v) - 1;
      OthersEnd(w);
      forall n | 0 <= n < EncodedLength(v) - 1
        ensures Shifted(v, n) >= 0x80
      {
        assert n > 0 ==> Shifted(v, n) == Shifted(w, n - 1);
      }
    }
  }

  /** The sizing loop ends if and only if the value is not negative. */
  lemma EndsIffNotNegative(v: u32)
    ensures (exists n: nat :: Shifted(v, n) < 0x80) <==> !IsNegative(v)
  {
    if IsNegative(v) {
      forall n: nat
        ensures Shifted(v, n) >= 0x80
      {
        NegativeNeverEnds(v, n);
      }
    } else {
      OthersEnd(v);
    }
  }

  /** The weight of the next group when i have been read. */
  function Weight(i: nat): (w: nat)
    requires i <= MAX_GROUPS
    ensures w == Pow2(7 * i)
  {
    Pow2Values();
    if i == 0 then 1 else if i == 1 then 0x80 else if i == 2 then 0x4000
    else if i == 3 then 0x20_0000 else if i == 4 then 0x1000_0000 else 0x8_0000_0000
  }

  /** A shifted group keeps to the bits from its weight up; of the fifth, only four bits fit. */
  lemma ShiftedGroup(low: nat, group: nat, i: nat) returns (high: nat)
    requires i < MAX_GROUPS && low < Weight(i) && group < 0x80
    ensures low + group * Weight(i) < Weight(i + 1)
    ensures ShiftLeft(group, 7 * i) == high * Weight(i)
    ensures Wrap32(low + group * Weight(i)) == low + high * Weight(i)
    ensures i < 4 ==> high == group
  {
    if i < 4 {
      high := group;
    } else {
      high := group % 16;
      assert group * 0x1000_0000 == group / 16 * TWO32 + high * 0x1000_0000;
    }
  }

  /** One turn of the reading loop: ORing the shifted group in adds it to the bits so far. */
  lemma GatherGroup(before: u32, low: nat, group: nat, i: nat)
    requires i < MAX_GROUPS && low < Weight(i) && group < 0x80
    ensures low + group * Weight(i) < Weight(i + 1)
    ensures BitOr(BitOr(before, low), ShiftLeft(group, 7 * i))
         == BitOr(before, Wrap32(low + group * Weight(i)))
    ensures i < 4 ==> Wrap32(low + group * Weight(i)) == low + group * Weight(i)
  {
    var high := ShiftedGroup(low, group, i);
    var w := Weight(i);
    BitOrAssociates(before, low, high * w);
    BitOrDisjoint(low, high, 7 * i);
    hide BitOr, Weight, ShiftLeft, Pow2, Wrap32;
  }

  /** The reading loop's invariant: `low` was gathered from i groups, and reading on from s completes
      it to what reading from the start finds. */
  ghost predicate Gathered(whole: Parsed, low: nat, i: nat, s: seq<u8>) {
    && i < MAX_GROUPS && low < Weight(i)
    && Parse(s, MAX_GROUPS - i).Some?
    && var p := Parse(s, MAX_GROUPS - i).value;
       whole == Parsed(low + Weight(i) * p.bits, i + p.len, p.overrun)
  }

  lemma GatherStart(before: u32, s: seq<u8>)
    requires Parse(s, MAX_GROUPS).Some?
    ensures Gathered(Parse(s, MAX_GROUPS).value, 0, 0, s) && BitOr(before, 0) == before
  {
  }

  lemma GatherMore(whole: Parsed, low: nat, i: nat, s: seq<u8>)
    requires Gathered(whole, low, i, s)
    ensures s[0] < 0x80 ==> whole == Parsed(low + s[0] % 0x80 * Weight(i), i + 1, false)
    ensures s[0] >= 0x80 && i == 4 ==> whole.overrun && whole.len == 5
    ensures s[0] >= 0x80 && i < 4 ==> Gathered(whole, low + s[0] % 0x80 * Weight(i), i + 1, s[1..])
  {
    if s[0] >= 0x80 && i < 4 {
      var bits, group, w := Parse(s[1..], 4 - i).value.bits, s[0] % 0x80, Weight(i);
      assert Weight(i + 1) == 0x80 * w;
      Regroup(w, group, bits);
      hide Weight;
    }
  }

  lemma Regroup(w: nat, group: nat, bits: nat)
    requires group < 0x80
    ensures w * (group + 0x80 * bits) == group * w + (0x80 * w) * bits
    ensures group * w <= 0x7F * w
  {
  }

  /** One turn of the reading loop on a destination that held `before`. */
  lemma GatherTurn(before: u32, whole: Parsed, low: nat, i: nat, s: seq<u8>)
    requires Gathered(whole, low, i, s)
    ensures i < MAX_GROUPS && s != [] && BitOr(before, low) < TWO32
    ensures var value := BitOr(BitOr(before, low), ShiftLeft(s[0] % 0x80, 7 * i));
            && value < TWO32
            && (s[0] < 0x80 ==> value == Received(before, whole) && whole.len == i + 1)
            && (s[0] >= 0x80 && i == 4 ==> Received(before, whole) == 0 && whole.len == 5)
            && (s[0] >= 0x80 && i < 4 ==>
                  && Gathered(whole, low + s[0] % 0x80 * Weight(i), i + 1, s[1..])
                  && value == BitOr(before, low + s[0] % 0x80 * Weight(i)))
  {
    var group := s[0] % 0x80;
    GatherMore(whole, low, i, s);
    GatherGroup(before, low, group, i);
    assert low < TWO32;
    BitOrIsWord(before, low);
    BitOrIsWord(BitOr(before, low), ShiftLeft(group, 7 * i));
    hide Parse, Weight, BitOr, ShiftLeft, Pow2, Gathered;
  }
}
