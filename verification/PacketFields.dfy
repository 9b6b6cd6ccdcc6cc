/** Packet fields and what each of the three visitors makes of them: the bytes written, the bytes
    counted and the value read back. */
module PacketFields {
  import opened Options
  import opened Words
  import opened VarInts

  /** The 16 bytes a UUID object stores. */
  type UuidBytes = s: seq<u8> | |s| == 16 witness [0, 0, 0, 0, 0, 0, 0, 0, 0, 0, 0, 0, 0, 0, 0, 0]

  /** One line of a packet's serialisation: its kind, its value, and for a string its limit. */
  datatype Field =
    | Short(short: u16)
    | VarInt(value: u32)
    | ULong(word: u64)
    | U8(byte: u8)
    | Uuid(data: UuidBytes)
    | Str(text: seq<u8>, max: u32)

  /** A packet: length prefix, id and fields. */
  datatype Message = Message(size: u32, id: u32, fields: seq<Field>)

  // ---- Bytes of integers on a little-endian host ----

  function StoreLE(v: nat, n: nat): (s: seq<u8>)
    ensures |s| == n
  {
    if n == 0 then [] else [v % 0x100] + StoreLE(v / 0x100, n - 1)
  }

  function LoadLE(s: seq<u8>): nat {
    if s == [] then 0 else s[0] + 0x100 * LoadLE(s[1..])
  }

  /** The byte at address i holds the bits from 8 * i up. */
  lemma {:induction false} StoredByte(v: nat, n: nat, i: nat)
    requires i < n
    ensures StoreLE(v, n)[i] == v / Pow2(8 * i) % 0x100
    decreases i
  {
    if i > 0 {
      StoredByte(v / 0x100, n - 1, i - 1);
      Pow2Byte(8 * (i - 1));
      DivDiv(v, 0x100, Pow2(8 * (i - 1)), Pow2(8 * i));
    }
  }

  lemma {:induction false} StoreLoad(s: seq<u8>)
    ensures StoreLE(LoadLE(s), |s|) == s
  {
    hide LoadLE;
    LoadFirst(s);
    if s != [] {
      StoreLoad(s[1..]);
    }
  }

  lemma LoadFirst(s: seq<u8>)
    ensures s == [] ==> LoadLE(s) == 0
    ensures s != [] ==> LoadLE(s) % 0x100 == s[0] && LoadLE(s) / 0x100 == LoadLE(s[1..])
  {
    if s != [] {
      LowByte(s[0], LoadLE(s[1..]));
    }
  }

  lemma LowByte(b: u8, w: nat)
    ensures (b + 0x100 * w) % 0x100 == b && (b + 0x100 * w) / 0x100 == w
  {
  }

  lemma {:induction false} LoadStore(v: nat, n: nat)
    requires v < Pow2(8 * n)
    ensures LoadLE(StoreLE(v, n)) == v
  {
    if n > 0 {
      Pow2Byte(8 * (n - 1));
      LoadStore(v / 0x100, n - 1);
      assert StoreLE(v, n)[1..] == StoreLE(v / 0x100, n - 1);
    }
  }

  lemma Pow2Byte(n: nat)
    ensures Pow2(n + 8) == 0x100 * Pow2(n)
  {
    assert Pow2(n + 2) == 4 * Pow2(n);
    assert Pow2(n + 4) == 4 * Pow2(n + 2);
    assert Pow2(n + 6) == 4 * Pow2(n + 4);
  }

  lemma {:induction false} LoadIsBounded(s: seq<u8>)
    ensures LoadLE(s) < Pow2(8 * |s|)
  {
    if s != [] {
      LoadIsBounded(s[1..]);
      Pow2Byte(8 * (|s| - 1));
    }
  }

  function Load16(s: seq<u8>): u16
    requires |s| == 2
  {
    LoadIsBounded(s);
    assert Pow2(16) == 0x1_0000 by { Pow2Values(); Pow2Byte(8); Pow2Byte(0); }
    LoadLE(s)
  }

  function Load64(s: seq<u8>): u64
    requires |s| == 8
  {
    LoadIsBounded(s);
    Pow2Values();
    assert Pow2(64) == 0x1_0000_0000_0000_0000 by { Pow2Of64(); }
    LoadLE(s)
  }

  lemma Pow2Of64()
    ensures Pow2(64) == 0x1_0000_0000_0000_0000
  {
    Pow2Values();
    Pow2Byte(32);
    Pow2Byte(40);
    Pow2Byte(48);
    Pow2Byte(56);
  }

  function Swap16(v: u16): u16 {
    v / 0x100 + v % 0x100 * 0x100
  }

  lemma SwapTwice(v: u16)
    ensures Swap16(Swap16(v)) == v
  {
    var low, high := v % 0x100, v / 0x100;
    var w := high + low * 0x100;
    assert w % 0x100 == high && w / 0x100 == low;
  }

  // ---- Writing ----

  predicate WithinLimit(f: Field) {
    f.Str? ==> |f.text| <= f.max
  }

  predicate AllWithinLimit(fs: seq<Field>) {
    forall f :: f in fs ==> WithinLimit(f)
  }

  /** The bytes the writer appends. A string over its limit is dropped without a trace. */
  function Wire(f: Field): seq<u8> {
    match f
    case Short(v) => StoreLE(Swap16(v), 2)
    case VarInt(v) => Encode(v)
    case ULong(v) => StoreLE(v, 8)
    case U8(b) => [b]
    case Uuid(data) => data
    case Str(text, max) => if |text| > max then [] else Encode(Wrap32(|text|)) + text
  }

  function WireAll(fs: seq<Field>): seq<u8> {
    if fs == [] then [] else Wire(fs[0]) + WireAll(fs[1..])
  }

  function Body(m: Message): seq<u8> {
    Encode(m.id) + WireAll(m.fields)
  }

  function Frame(m: Message): seq<u8> {
    Encode(m.size) + Body(m)
  }

  // ---- Counting ----

  /** The size calculator's three members. */
  datatype Sizing = Sizing(current: u32, lengthSize: u32, success: bool)

  function Add(t: Sizing, n: nat): Sizing {
    t.(current := Wrap32(t.current + n))
  }

  function Count(t: Sizing, f: Field): Sizing {
    if !t.success && !f.Uuid? then t
    else match f
      case Short(_) => Add(t, 2)
      case VarInt(v) => Add(t, EncodedLength(v))
      case ULong(_) => Add(t, 8)
      case U8(_) => Add(t, 1)
      case Uuid(_) => Add(t, 16)
      case Str(text, max) =>
        var prefixed := Add(t, EncodedLength(Wrap32(|text|)));
        if |text| > max then prefixed.(success := false) else Add(prefixed, |text|)
  }

  function CountAll(t: Sizing, fs: seq<Field>): Sizing
    decreases |fs|
  {
    if fs == [] then t else CountAll(Count(t, fs[0]), fs[1..])
  }

  /** The closing visit: the size so far is itself sized, as the length prefix. */
  function CountLength(t: Sizing): Sizing {
    if !t.success then t
    else Add(t, EncodedLength(t.current)).(lengthSize := EncodedLength(t.current))
  }

  function CountMessage(id: u32, fs: seq<Field>): Sizing {
    CountLength(CountAll(Count(Sizing(0, 0, true), VarInt(id)), fs))
  }

  lemma CountFirst(id: u32)
    ensures Count(Sizing(0, 0, true), VarInt(id)) == Sizing(EncodedLength(id), 0, true)
  {
  }

  function PayloadSize(t: Sizing): u32 {
    Wrap32(t.current + TWO32 - t.lengthSize)
  }

  /** The sizing loop ends: no negative value, no string of a length that is negative as `int`. */
  predicate Countable(f: Field) {
    && (f.VarInt? ==> !IsNegative(f.value))
    && (f.Str? ==> |f.text| < 0x8000_0000)
  }

  /** The sizing loop ends on every field; after a failure it is not entered any more. */
  predicate CountEnds(t: Sizing, fs: seq<Field>)
    decreases |fs|
  {
    fs != [] ==> (t.success ==> Countable(fs[0])) && CountEnds(Count(t, fs[0]), fs[1..])
  }

  /** The same for a whole packet, with the closing visit. */
  predicate SizingEnds(id: u32, fs: seq<Field>) {
    var t := Count(Sizing(0, 0, true), VarInt(id));
    && !IsNegative(id) && CountEnds(t, fs)
    && var u := CountAll(t, fs);
       u.success ==> !IsNegative(u.current)
  }

  lemma AddTwice(t: Sizing, m: nat, n: nat)
    ensures Add(Add(t, m), n) == Add(t, m + n)
  {
  }

  lemma CountOne(t: Sizing, f: Field)
    requires t.success && WithinLimit(f)
    ensures Count(t, f) == Add(t, |Wire(f)|)
  {
    if f.Str? {
      AddTwice(t, EncodedLength(Wrap32(|f.text|)), |f.text|);
    }
  }

  /** With every string within its limit the count is the number of bytes written. */
  lemma {:induction false} CountIsWire(t: Sizing, fs: seq<Field>)
    requires t.success && AllWithinLimit(fs)
    ensures CountAll(t, fs) == Add(t, |WireAll(fs)|)
    decreases |fs|
  {
    if fs != [] {
      CountOne(t, fs[0]);
      CountIsWire(Count(t, fs[0]), fs[1..]);
      AddTwice(t, |Wire(fs[0])|, |WireAll(fs[1..])|);
    }
  }

  /** Failure is sticky, and it is exactly an over-long string that causes it. */
  lemma {:induction false} SuccessIsWithinLimits(t: Sizing, fs: seq<Field>)
    ensures CountAll(t, fs).success <==> t.success && AllWithinLimit(fs)
    ensures CountAll(t, fs).lengthSize == t.lengthSize
    decreases |fs|
  {
    if fs != [] {
      SuccessIsWithinLimits(Count(t, fs[0]), fs[1..]);
      assert fs == [fs[0]] + fs[1..];
      assert Count(t, fs[0]).success <==> t.success && WithinLimit(fs[0]);
    }
  }

  // ---- Reading ----

  /** Same kind of field, same limit. */
  predicate SameShape(f: Field, g: Field) {
    && (f.Short? ==> g.Short?)
    && (f.VarInt? ==> g.VarInt?)
    && (f.ULong? ==> g.ULong?)
    && (f.U8? ==> g.U8?)
    && (f.Uuid? ==> g.Uuid?)
    && (f.Str? ==> g.Str? && f.max == g.max)
  }

  /** The reader's visit of a field that holds `d`, at the front of s: the new value and the bytes
      taken. None where it would read past s, or build a string of negative length. */
  function Read(d: Field, s: seq<u8>): (r: Option<(Field, nat)>)
    ensures r.Some? ==> r.value.1 <= |s| && SameShape(d, r.value.0)
  {
    match d
    case Short(_) => if |s| < 2 then None else Some((Short(Swap16(Load16(s[..2]))), 2))
    case VarInt(v) =>
      (match Parse(s, MAX_GROUPS)
       case None => None
       case Some(p) => Some((VarInt(Received(v, p)), p.len)))
    case ULong(_) => if |s| < 8 then None else Some((ULong(Load64(s[..8])), 8))
    case U8(_) => if s == [] then None else Some((U8(s[0]), 1))
    case Uuid(_) =>
      if |s| < 16 then None
      else Some((Uuid(StoreLE(Load64(s[..8]), 8) + StoreLE(Load64(s[8..16]), 8)), 16))
    case Str(text, max) =>
      if |text| >= max then Some((d, 0))
      else
        match Parse(s, MAX_GROUPS)
        case None => None
        case Some(p) =>
          var length := Received(0, p);
          if IsNegative(length) || p.len + length > |s| then None
          else Some((Str(s[p.len..p.len + length], max), p.len + length))
  }

  function ReadAll(ds: seq<Field>, s: seq<u8>): (r: Option<(seq<Field>, nat)>)
    ensures r.Some? ==> r.value.1 <= |s| && |r.value.0| == |ds|
  {
    if ds == [] then Some(([], 0))
    else
      var first := Read(ds[0], s);
      if first.None? then None
      else
        var others := ReadAll(ds[1..], s[first.value.1..]);
        if others.None? then None
        else Some(([first.value.0] + others.value.0, first.value.1 + others.value.1))
  }

  lemma {:induction false} ReadKeepsShapes(ds: seq<Field>, s: seq<u8>)
    requires ReadAll(ds, s).Some?
    ensures forall i :: 0 <= i < |ds| ==> SameShape(ds[i], ReadAll(ds, s).value.0[i])
    decreases |ds|
  {
    if ds != [] {
      ReadKeepsShapes(ds[1..], s[Read(ds[0], s).value.1..]);
    }
  }

  /** The reader's visit of a packet: size, id, then the fields. */
  function ReadMessage(d: Message, s: seq<u8>): (r: Option<(Message, nat)>)
    ensures r.Some? ==> r.value.1 <= |s|
  {
    var size := Parse(s, MAX_GROUPS);
    if size.None? then None
    else
      var afterSize := s[size.value.len..];
      var id := Parse(afterSize, MAX_GROUPS);
      if id.None? then None
      else
        var fields := ReadAll(d.fields, afterSize[id.value.len..]);
        if fields.None? then None
        else Some((Message(Received(d.size, size.value), Received(d.id, id.value), fields.value.0),
                   size.value.len + id.value.len + fields.value.1))
  }

  lemma ReadMessageIs(d: Message, s: seq<u8>, p: Parsed, q: Parsed, r: Option<(seq<Field>, nat)>)
    requires Parse(s, MAX_GROUPS) == Some(p)
    requires Parse(s[p.len..], MAX_GROUPS) == Some(q)
    requires ReadAll(d.fields, s[p.len..][q.len..]) == r
    ensures ReadMessage(d, s) == (
              if r.None? then None
              else Some((Message(Received(d.size, p), Received(d.id, q), r.value.0), p.len + q.len + r.value.1)))
  {
    hide Parse, ReadAll, Received;
  }
}
