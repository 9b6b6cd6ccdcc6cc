/** The three passes over one packet agree: sizing is exact, and reading restores what was written. */
module PacketCodec {
  import opened Options
  import opened Sequences
  import opened Words
  import opened VarInts
  import opened PacketFields

  // ---- Reading undoes writing ----

  /** The reader's destination d lets f through: it holds no bit that f lacks, and for a string its
      old contents are still below the limit. */
  predicate CanReceive(d: Field, f: Field) {
    && SameShape(d, f)
    && (d.VarInt? ==> BitOr(d.value, f.value) == f.value)
    && (d.Str? ==> |d.text| < d.max)
  }

  /** What the sender must respect for its strings to be written at all and read as such. */
  predicate Sendable(f: Field) {
    WithinLimit(f) && (f.Str? ==> |f.text| < 0x8000_0000)
  }

  lemma ReadUuid(data: UuidBytes, d: UuidBytes, rest: seq<u8>)
    ensures Read(Uuid(d), data + rest) == Some((Uuid(data), 16))
  {
    var s := data + rest;
    assert s[..8] == data[..8] && s[8..16] == data[8..16];
    StoreLoad(data[..8]);
    StoreLoad(data[8..16]);
    assert data == data[..8] + data[8..16];
  }

  lemma SwapLoads(v: u16)
    ensures Swap16(Load16(StoreLE(Swap16(v), 2))) == v
  {
    assert Pow2(16) == 0x1_0000 by { Pow2Values(); Pow2Byte(8); Pow2Byte(0); }
    LoadStore(Swap16(v), 2);
    SwapTwice(v);
    hide Swap16, StoreLE, LoadLE;
  }

  lemma ReadShort(v: u16, d: u16, rest: seq<u8>)
    ensures Read(Short(d), StoreLE(Swap16(v), 2) + rest) == Some((Short(v), 2))
  {
    SwapLoads(v);
    hide Parse, LoadLE, Swap16, StoreLE;
    var bytes := StoreLE(Swap16(v), 2);
    assert (bytes + rest)[..2] == bytes;
  }

  /** A short goes out highest byte first, and comes in so. */
  lemma ShortOnTheWire(v: u16, d: u16, a: u8, b: u8, rest: seq<u8>)
    ensures Wire(Short(v)) == [v / 0x100, v % 0x100]
    ensures Read(Short(d), [a, b] + rest) == Some((Short(0x100 * a + b), 2))
  {
    BigEndian(v);
    var w := 0x100 * a + b;
    BigEndian(w);
    assert w / 0x100 == a && w % 0x100 == b;
    ReadShort(w, d, rest);
  }

  lemma BigEndian(v: u16)
    ensures StoreLE(Swap16(v), 2) == [v / 0x100, v % 0x100]
  {
    var low, high := v % 0x100, v / 0x100;
    var w := high + low * 0x100;
    assert w % 0x100 == high && w / 0x100 == low;
    assert StoreLE(w, 2) == [high] + StoreLE(low, 1);
    assert StoreLE(low, 1) == [low] + StoreLE(0, 0);
  }

  /** A 64-bit word goes out as it lies in memory, lowest byte first, and comes in so. */
  lemma ULongOnTheWire(v: u64, d: u64, i: nat, bytes: seq<u8>, rest: seq<u8>)
    requires i < 8 && |bytes| == 8
    ensures |Wire(ULong(v))| == 8 && Wire(ULong(v))[i] == v / Pow2(8 * i) % 0x100
    ensures var r := Read(ULong(d), bytes + rest);
            && r.Some? && r.value.1 == 8 && r.value.0.ULong?
            && bytes[i] == r.value.0.word / Pow2(8 * i) % 0x100
  {
    hide StoreLE, LoadLE, Pow2;
    StoredByte(v, 8, i);
    assert (bytes + rest)[..8] == bytes;
    var w := Load64(bytes);
    StoreLoad(bytes);
    StoredByte(w, 8, i);
  }

  lemma ReadULong(v: u64, d: u64, rest: seq<u8>)
    ensures Read(ULong(d), StoreLE(v, 8) + rest) == Some((ULong(v), 8))
  {
    assert (StoreLE(v, 8) + rest)[..8] == StoreLE(v, 8);
    Pow2Of64();
    LoadStore(v, 8);
  }

  /** The reader's limit is no limit for what arrives, only for what was there before. */
  lemma ReadStr(text: seq<u8>, limit: u32, d: seq<u8>, max: u32, rest: seq<u8>)
    requires |text| <= limit && |text| < 0x8000_0000
    ensures Read(Str(d, max), Wire(Str(text, limit)) + rest)
         == if |d| < max then Some((Str(text, max), |Wire(Str(text, limit))|)) else Some((Str(d, max), 0))
  {
    var prefix := Encode(|text|);
    assert Wire(Str(text, limit)) + rest == prefix + (text + rest);
    RoundTrip(|text|, text + rest, 0);
    assert (prefix + (text + rest))[|prefix|..|prefix| + |text|] == text;
  }

  /** Field by field, whatever follows on the wire: the value arrives and exactly its bytes are
      taken if and only if the destination can receive it. */
  lemma ReadUndoesWire(d: Field, f: Field, rest: seq<u8>)
    requires SameShape(d, f) && Sendable(f)
    ensures Read(d, Wire(f) + rest) == Some((f, |Wire(f)|)) <==> CanReceive(d, f)
  {
    match f
    case Short(v) => ReadShort(v, d.short, rest);
    case VarInt(v) => RoundTrip(v, rest, d.value);
    case ULong(v) => ReadULong(v, d.word, rest);
    case U8(b) => assert ([b] + rest)[0] == b;
    case Uuid(data) => ReadUuid(data, d.data, rest);
    case Str(text, max) => ReadStr(text, max, d.text, max, rest);
  }

  /** A reading that starts with fs, n bytes of them, and goes on with r. */
  function Behind(fs: seq<Field>, n: nat, r: Option<(seq<Field>, nat)>): Option<(seq<Field>, nat)> {
    if r.None? then None else Some((fs + r.value.0, n + r.value.1))
  }

  lemma BehindTwice(f: Field, fs: seq<Field>, m: nat, n: nat, r: Option<(seq<Field>, nat)>)
    ensures Behind([f], m, Behind(fs, n, r)) == Behind([f] + fs, m + n, r)
    ensures Behind([], 0, r) == r
  {
    if r.Some? {
      assert [f] + (fs + r.value.0) == [f] + fs + r.value.0 && [] + r.value.0 == r.value.0;
    }
  }

  lemma ReadAllStep(ds: seq<Field>, s: seq<u8>, f: Field, n: nat)
    requires ds != [] && n <= |s| && Read(ds[0], s) == Some((f, n))
    ensures ReadAll(ds, s) == Behind([f], n, ReadAll(ds[1..], s[n..]))
  {
    hide Read;
  }

  /** From what was written for fs and whatever follows, the fields ds take exactly fs, and further
      fields es read on from there. */
  lemma {:induction false} ReadPastWireAll(ds: seq<Field>, fs: seq<Field>, es: seq<Field>, rest: seq<u8>)
    requires |ds| == |fs|
    requires forall i :: 0 <= i < |fs| ==> Sendable(fs[i]) && CanReceive(ds[i], fs[i])
    ensures ReadAll(ds + es, WireAll(fs) + rest) == Behind(fs, |WireAll(fs)|, ReadAll(es, rest))
    decreases |fs|
  {
    hide Read, Wire, SameShape, ReadAll, Behind;
    if fs == [] {
      assert ds + es == es && WireAll(fs) + rest == rest;
      BehindTwice(Short(0), [], 0, 0, ReadAll(es, rest));
    } else {
      var head, tail := Wire(fs[0]), WireAll(fs[1..]) + rest;
      ReadUndoesWire(ds[0], fs[0], tail);
      ReadPastWireAll(ds[1..], fs[1..], es, rest);
      DropPrefix(head, tail);
      Associate(head, WireAll(fs[1..]), rest);
      assert (ds + es)[1..] == ds[1..] + es;
      ReadAllStep(ds + es, head + tail, fs[0], |head|);
      BehindTwice(fs[0], fs[1..], |head|, |WireAll(fs[1..])|, ReadAll(es, rest));
      assert [fs[0]] + fs[1..] == fs;
    }
  }

  lemma ReadAllUndoesWireAll(ds: seq<Field>, fs: seq<Field>, rest: seq<u8>)
    requires |ds| == |fs|
    requires forall i :: 0 <= i < |fs| ==> Sendable(fs[i]) && CanReceive(ds[i], fs[i])
    ensures ReadAll(ds, WireAll(fs) + rest) == Some((fs, |WireAll(fs)|))
  {
    hide Read, Wire, WireAll, SameShape, CanReceive, Sendable;
    ReadPastWireAll(ds, fs, [], rest);
    assert ds + [] == ds && fs + [] == fs;
  }

  /** A packet object as its constructor leaves it: its own id, or any without a bit that the id to be
      read lacks, and everything else able to receive. */
  predicate IsFresh(d: Message, m: Message) {
    && d.size == 0
    && BitOr(d.id, m.id) == m.id
    && |d.fields| == |m.fields|
    && forall i :: 0 <= i < |d.fields| ==> CanReceive(d.fields[i], m.fields[i])
  }

  lemma FrameInPieces(m: Message, rest: seq<u8>)
    ensures Frame(m) + rest == Encode(m.size) + (Encode(m.id) + (WireAll(m.fields) + rest))
    ensures |Frame(m)| == |Encode(m.size)| + |Encode(m.id)| + |WireAll(m.fields)|
  {
    hide Encode, WireAll;
  }

  lemma ReadInPieces(d: Message, x: seq<u8>, y: seq<u8>, z: seq<u8>, p: Parsed, q: Parsed,
                     r: Option<(seq<Field>, nat)>)
    requires Parse(x + (y + z), MAX_GROUPS) == Some(p) && p.len == |x|
    requires Parse(y + z, MAX_GROUPS) == Some(q) && q.len == |y|
    requires ReadAll(d.fields, z) == r
    ensures ReadMessage(d, x + (y + z)) == (
              if r.None? then None
              else Some((Message(Received(d.size, p), Received(d.id, q), r.value.0), |x| + |y| + r.value.1)))
  {
    hide *;
    DropPrefix(x, y + z);
    DropPrefix(y, z);
    ReadMessageIs(d, x + (y + z), p, q, r);
  }

  /** Behind size and id, a new packet whose id has no bit that the frame's lacks reads its fields from
      the frame's. */
  lemma ReadFrame(d: Message, m: Message, rest: seq<u8>)
    requires d.size == 0 && BitOr(d.id, m.id) == m.id
    ensures var r := ReadAll(d.fields, WireAll(m.fields) + rest);
            ReadMessage(d, Frame(m) + rest) == (
              if r.None? then None
              else Some((Message(m.size, m.id, r.value.0), |Encode(m.size)| + |Encode(m.id)| + r.value.1)))
  {
    hide Parse, ReadMessage, ReadAll, WireAll, Encode, EncodedLength, Frame, BitOr, Wrap32;
    var x, y, z := Encode(m.size), Encode(m.id), WireAll(m.fields) + rest;
    RoundTrip(m.size, y + z, 0);
    RoundTrip(m.id, z, d.id);
    FrameInPieces(m, rest);
    hide Received;
    ReadInPieces(d, x, y, z, Parsed(m.size, |x|, false), Parsed(m.id, |y|, false), ReadAll(d.fields, z));
  }

  /** Reading a written frame into a fresh packet of the same type restores every member and stops
      at the end of the frame, whatever follows. */
  lemma FrameRoundTrip(d: Message, m: Message, rest: seq<u8>)
    requires IsFresh(d, m) && forall f :: f in m.fields ==> Sendable(f)
    ensures ReadMessage(d, Frame(m) + rest) == Some((m, |Frame(m)|))
  {
    hide ReadMessage, ReadAll, WireAll, Encode, Frame, CanReceive, Sendable, Received, BitOr;
    ReadFrame(d, m, rest);
    ReadAllUndoesWireAll(d.fields, m.fields, rest);
    FrameInPieces(m, rest);
  }

  // ---- Sizing ----

  function Payload(id: u32, fs: seq<Field>): seq<u8> {
    Encode(id) + WireAll(fs)
  }

  /** What the writer writes for a packet whose size member was set by the count. */
  function Written(id: u32, fs: seq<Field>): seq<u8> {
    Frame(Message(PayloadSize(CountMessage(id, fs)), id, fs))
  }

  /** All stores of the writer are inside a buffer of the size counted. */
  predicate Fits(id: u32, fs: seq<Field>) {
    |Written(id, fs)| <= CountMessage(id, fs).current
  }

  function Zeros(n: nat): (s: seq<u8>)
    ensures |s| == n && forall i :: 0 <= i < n ==> s[i] == 0
  {
    seq(n, i => 0)
  }

  /** The buffer, zero-filled at first, after the writer is through. */
  function Buffer(id: u32, fs: seq<Field>): (s: seq<u8>)
    requires Fits(id, fs)
    ensures |s| == CountMessage(id, fs).current
  {
    Written(id, fs) + Zeros(CountMessage(id, fs).current - |Written(id, fs)|)
  }

  /** Full size as the calculator reports it is a length prefix and as many bytes as it announces. */
  predicate Framed(t: Sizing) {
    t.current == |Encode(PayloadSize(t))| + PayloadSize(t)
  }

  // ---- Within the limits ----

  lemma CountWithin(id: u32, fs: seq<Field>)
    requires AllWithinLimit(fs)
    ensures CountAll(Sizing(EncodedLength(id), 0, true), fs) == Sizing(Wrap32(|Payload(id, fs)|), 0, true)
  {
    CountIsWire(Sizing(EncodedLength(id), 0, true), fs);
    hide CountAll, WireAll, Encode, AllWithinLimit, EncodedLength;
  }

  lemma CountLengthIsExact(n: u32)
    requires !IsNegative(n)
    ensures CountLength(Sizing(n, 0, true)) == Sizing(EncodedLength(n) + n, EncodedLength(n), true)
    ensures PayloadSize(Sizing(EncodedLength(n) + n, EncodedLength(n), true)) == n
  {
    assert 1 <= EncodedLength(n) <= 5;
    hide EncodedLength;
  }

  lemma SizingWithin(id: u32, fs: seq<Field>)
    requires SizingEnds(id, fs) && AllWithinLimit(fs)
    ensures var t, n := CountMessage(id, fs), Wrap32(|Payload(id, fs)|);
            !IsNegative(n) && t == Sizing(EncodedLength(n) + n, EncodedLength(n), true) && PayloadSize(t) == n
  {
    hide Count, Wrap32, CountAll, CountEnds, PayloadSize, EncodedLength, AllWithinLimit, Payload;
    CountFirst(id);
    CountWithin(id, fs);
    CountLengthIsExact(Wrap32(|Payload(id, fs)|));
  }

  lemma WrittenLength(id: u32, fs: seq<Field>)
    ensures |Written(id, fs)| == EncodedLength(PayloadSize(CountMessage(id, fs))) + |Payload(id, fs)|
  {
    hide CountMessage, PayloadSize, WireAll, EncodedLength;
  }

  // ---- Over a limit ----

  function Uuids(fs: seq<Field>): nat {
    if fs == [] then 0 else (if fs[0].Uuid? then 1 else 0) + Uuids(fs[1..])
  }

  /** After a failure only UUIDs are counted. */
  lemma {:induction false} CountFailed(t: Sizing, fs: seq<Field>)
    requires !t.success
    ensures CountAll(t, fs) == Add(t, 16 * Uuids(fs))
    decreases |fs|
  {
    if fs != [] {
      CountFailed(Count(t, fs[0]), fs[1..]);
      AddTwice(t, if fs[0].Uuid? then 16 else 0, 16 * Uuids(fs[1..]));
    }
  }

  lemma {:induction false} CountSplit(t: Sizing, fs: seq<Field>, k: nat)
    requires k < |fs|
    ensures CountAll(t, fs) == CountAll(Count(CountAll(t, fs[..k]), fs[k]), fs[k + 1..])
    ensures CountEnds(t, fs) && CountAll(t, fs[..k]).success ==> Countable(fs[k])
    decreases k
  {
    hide Count, Countable;
    if k > 0 {
      assert fs[..k][1..] == fs[1..][..k - 1] && fs[1..][k - 1 + 1..] == fs[k + 1..];
      CountSplit(Count(t, fs[0]), fs[1..], k - 1);
    }
  }

  lemma {:induction false} WireSplit(fs: seq<Field>, k: nat)
    requires k < |fs|
    ensures WireAll(fs) == WireAll(fs[..k]) + Wire(fs[k]) + WireAll(fs[k + 1..])
    decreases k
  {
    hide Wire;
    if k > 0 {
      assert fs[..k][1..] == fs[1..][..k - 1] && fs[1..][k - 1 + 1..] == fs[k + 1..];
      WireSplit(fs[1..], k - 1);
    }
  }

  function FirstOverlong(fs: seq<Field>): (k: nat)
    requires !AllWithinLimit(fs)
    ensures k < |fs| && AllWithinLimit(fs[..k]) && fs[k].Str? && !WithinLimit(fs[k])
  {
    if !WithinLimit(fs[0]) then 0
    else
      assert fs == [fs[0]] + fs[1..];
      var k := 1 + FirstOverlong(fs[1..]);
      assert fs[..k] == [fs[0]] + fs[1..][..k - 1];
      k
  }

  /** What is counted from an over-long string on: its prefix, and the UUIDs after it. */
  function CountedFrom(f: Field, post: seq<Field>): nat
    requires f.Str?
  {
    EncodedLength(Wrap32(|f.text|)) + 16 * Uuids(post)
  }

  /** Counting up to the over-long string, then that, then the rest. */
  lemma CountOver(t: Sizing, f: Field, post: seq<Field>)
    requires t.success && !WithinLimit(f)
    ensures CountAll(Count(t, f), post) == Add(t, CountedFrom(f, post)).(success := false)
  {
    CountFailed(Count(t, f), post);
    hide CountAll, EncodedLength, Uuids;
    AddTwice(t, EncodedLength(Wrap32(|f.text|)), 16 * Uuids(post));
  }

  lemma UnsizedPayload(n: u32)
    ensures PayloadSize(Sizing(n, 0, false)) == n
    ensures CountLength(Sizing(n, 0, false)) == Sizing(n, 0, false)
  {
  }

  lemma SizingOver(id: u32, fs: seq<Field>)
    requires !AllWithinLimit(fs)
    ensures var k := FirstOverlong(fs);
            var n := Wrap32(|Payload(id, fs[..k])| + CountedFrom(fs[k], fs[k + 1..]));
            CountMessage(id, fs) == Sizing(n, 0, false) && PayloadSize(CountMessage(id, fs)) == n
  {
    hide Count, CountAll, CountEnds, CountLength, PayloadSize, Payload, AllWithinLimit, EncodedLength, CountedFrom,
         FirstOverlong, WithinLimit;
    var k, t := FirstOverlong(fs), Sizing(EncodedLength(id), 0, true);
    CountFirst(id);
    CountSplit(t, fs, k);
    CountWithin(id, fs[..k]);
    CountOver(CountAll(t, fs[..k]), fs[k], fs[k + 1..]);
    var n := |Payload(id, fs[..k])| + CountedFrom(fs[k], fs[k + 1..]);
    AddTwice(Sizing(0, 0, true), |Payload(id, fs[..k])|, CountedFrom(fs[k], fs[k + 1..]));
    UnsizedPayload(Wrap32(n));
  }

  lemma {:induction false} UuidsAreWritten(fs: seq<Field>)
    ensures |WireAll(fs)| >= 16 * Uuids(fs)
  {
    if fs != [] {
      UuidsAreWritten(fs[1..]);
      assert fs[0].Uuid? ==> |Wire(fs[0])| == 16;
      hide Wire;
    }
  }

  // ---- Exactly when it works ----

  /** The calculator visits the length last, the writer first. Full size is a length prefix and the
      bytes it announces if and only if no string is over its limit; then the writer fills a buffer
      of that size exactly, as long as the payload's length is a 32-bit number. */
  lemma SizingIsExact(id: u32, fs: seq<Field>)
    requires SizingEnds(id, fs)
    ensures var t := CountMessage(id, fs);
            && (t.success <==> AllWithinLimit(fs))
            && (Framed(t) <==> AllWithinLimit(fs))
            && (t.success && Fits(id, fs) ==>
                  && PayloadSize(t) == |Payload(id, fs)| < 0x8000_0000
                  && Buffer(id, fs) == Written(id, fs) == Frame(Message(|Payload(id, fs)|, id, fs)))
  {
    hide CountMessage, AllWithinLimit, SizingEnds, PayloadSize, Payload, Encode, Frame;
    WrittenLength(id, fs);
    if AllWithinLimit(fs) {
      SizingWithin(id, fs);
    } else {
      SizingOver(id, fs);
    }
  }

  /** Exactly when every store of the writer is inside the buffer: with every string within its
      limit, always, up to 32 bits; otherwise, when what is written for the fields after the first
      over-long string, and the packet's own size, is no more than what was counted from there on. */
  lemma StoresStayInside(id: u32, fs: seq<Field>)
    requires SizingEnds(id, fs)
    ensures Fits(id, fs) <==>
            if AllWithinLimit(fs) then |Payload(id, fs)| < TWO32
            else
              var k := FirstOverlong(fs);
              var before, counted := |Payload(id, fs[..k])|, CountedFrom(fs[k], fs[k + 1..]);
              before + counted < TWO32 && EncodedLength(before + counted) + |WireAll(fs[k + 1..])| <= counted
  {
    hide CountMessage, AllWithinLimit, SizingEnds, PayloadSize, Encode, Frame, FirstOverlong, CountedFrom, WireAll,
         Wire;
    WrittenLength(id, fs);
    if AllWithinLimit(fs) {
      SizingWithin(id, fs);
    } else {
      var k := FirstOverlong(fs);
      SizingOver(id, fs);
      WireSplit(fs, k);
      UuidsAreWritten(fs[k + 1..]);
      NothingForOverlong(fs[k]);
      CountedFromBounds(fs[k], fs[k + 1..]);
    }
  }

  lemma NothingForOverlong(f: Field)
    requires !WithinLimit(f)
    ensures Wire(f) == []
  {
  }

  lemma CountedFromBounds(f: Field, post: seq<Field>)
    requires f.Str?
    ensures 16 * Uuids(post) < CountedFrom(f, post) <= 5 + 16 * Uuids(post)
  {
  }
}
