/** The packet object and its serialisation: the SERIALIZE_* description expanded for a visitor that
    wants the length first (writer, reader) and for one that wants it last (size calculator). */
module Packets {
  import opened Options
  import opened Sequences
  import opened Words
  import opened VarInts
  import opened PacketFields
  import opened PacketCodec
  import opened PacketVisitors

  /** A serialised packet on its way: its bytes, its id, its size. */
  datatype PacketPayload = PacketPayload(data: seq<u8>, packetId: u32, size: nat)

  // ---- One line of the description, for each visitor ----

  method SizeField(sizer: PacketSizeCalc, f: Field)
    requires !sizer.m_isEnd && (sizer.m_success ==> Countable(f))
    modifies sizer
    ensures !sizer.m_isEnd && sizer.State() == Count(old(sizer.State()), f)
  {
    match f
    case Short(v) => sizer.OnShort(v);
    case VarInt(v) => sizer.OnVarInt(v);
    case ULong(v) => sizer.OnULong(v);
    case U8(b) => sizer.OnUInt8(b);
    case Uuid(data) => sizer.OnUUID(data);
    case Str(text, max) => sizer.OnString(text, max);
  }

  method WriteField(writer: PacketWriter, f: Field)
    requires writer.Valid() && writer.Fits(|Wire(f)|)
    modifies writer, writer.m_data
    ensures writer.Valid() && writer.Written() == old(writer.Written()) + Wire(f)
  {
    match f
    case Short(v) => writer.OnShort(v);
    case VarInt(v) => writer.OnVarInt(v);
    case ULong(v) => writer.OnULong(v);
    case U8(b) => writer.OnUInt8(b);
    case Uuid(data) => writer.OnUUID(data);
    case Str(text, max) => writer.OnString(text, max);
  }

  method ReadField(reader: PacketReader, d: Field) returns (f: Field)
    requires reader.Valid() && Read(d, reader.Ahead()).Some?
    modifies reader
    ensures reader.Took(d, f)
  {
    match d
    case Short(v) => var w := reader.OnShort(v); f := Short(w);
    case VarInt(v) => var w := reader.OnVarInt(v); f := VarInt(w);
    case ULong(v) => var w := reader.OnULong(v); f := ULong(w);
    case U8(b) => var w := reader.OnUInt8(b); f := U8(w);
    case Uuid(data) => var w := reader.OnUUID(data); f := Uuid(w);
    case Str(text, max) => var w := reader.OnString(text, max); f := Str(w, max);
  }

  // ---- The lines of a description, in order ----

  method SizeFields(sizer: PacketSizeCalc, fs: seq<Field>)
    requires !sizer.m_isEnd && CountEnds(sizer.State(), fs)
    modifies sizer
    ensures !sizer.m_isEnd && sizer.State() == CountAll(old(sizer.State()), fs)
    decreases |fs|
  {
    if fs != [] {
      SizeField(sizer, fs[0]);
      SizeFields(sizer, fs[1..]);
    }
  }

  method WriteFields(writer: PacketWriter, fs: seq<Field>)
    requires writer.Valid() && writer.Fits(|WireAll(fs)|)
    modifies writer, writer.m_data
    ensures writer.Valid() && writer.Written() == old(writer.Written()) + WireAll(fs)
    decreases |fs|
  {
    if fs != [] {
      Associate(writer.Written(), Wire(fs[0]), WireAll(fs[1..]));
      hide Wire;
      WriteField(writer, fs[0]);
      WriteFields(writer, fs[1..]);
    }
  }

  method ReadFields(reader: PacketReader, ds: seq<Field>) returns (fs: seq<Field>)
    requires reader.Valid() && ReadAll(ds, reader.Ahead()).Some?
    modifies reader
    ensures reader.Valid() && reader.m_current >= old(reader.m_current)
    ensures ReadAll(ds, old(reader.Ahead())) == Some((fs, reader.m_current - old(reader.m_current)))
    decreases |ds|
  {
    fs := [];
    if ds != [] {
      hide Read;
      var f := ReadField(reader, ds[0]);
      fs := ReadFields(reader, ds[1..]);
      fs := [f] + fs;
    }
  }

  // ---- The packet ----

  class Packet {
    var m_packetId: u32
    var m_packetSize: u32
    var m_fields: seq<Field>

    ghost function Value(): Message reads this {
      Message(m_packetSize, m_packetId, m_fields)
    }

    constructor (id: u32, fields: seq<Field>)
      ensures Value() == Message(0, id, fields)
    {
      m_packetId, m_packetSize, m_fields := id, 0, fields;
    }

    /** Serialize with the size calculator. */
    method SizePass(sizer: PacketSizeCalc)
      requires sizer.State() == Sizing(0, 0, true) && !sizer.m_isEnd
      requires SizingEnds(m_packetId, m_fields)
      modifies sizer
      ensures sizer.State() == CountMessage(m_packetId, m_fields)
    {
      sizer.OnVarInt(m_packetId);
      SizeFields(sizer, m_fields);
      sizer.m_isEnd := true;
      sizer.OnVarInt(m_packetSize);
    }

    /** Serialize with the writer. */
    method WritePass(writer: PacketWriter)
      requires writer.Valid() && writer.Fits(|Frame(Value())|)
      modifies writer, writer.m_data
      ensures writer.Valid() && writer.Written() == old(writer.Written()) + Frame(Value())
    {
      ghost var start, x, y, z := writer.Written(), Encode(m_packetSize), Encode(m_packetId), WireAll(m_fields);
      Associate(start, x, y + z);
      Associate(start + x, y, z);
      assert Frame(Value()) == x + (y + z);
      assert Wire(VarInt(m_packetSize)) == x && Wire(VarInt(m_packetId)) == y;
      hide Wire, WireAll, Encode, Frame;
      writer.OnVarInt(m_packetSize);
      writer.OnVarInt(m_packetId);
      WriteFields(writer, m_fields);
    }

    /** Serialize with the reader: every member is overwritten in place. */
    method ReadPass(reader: PacketReader)
      requires reader.Valid() && ReadMessage(Value(), reader.Ahead()).Some?
      modifies this, reader
      ensures reader.Valid() && reader.m_current >= old(reader.m_current)
      ensures ReadMessage(old(Value()), old(reader.Ahead()))
           == Some((Value(), reader.m_current - old(reader.m_current)))
    {
      hide Read, ReadAll, Parse, Received;
      m_packetSize := reader.OnVarInt(m_packetSize);
      m_packetId := reader.OnVarInt(m_packetId);
      m_fields := ReadFields(reader, m_fields);
    }
  }

  /** Sizes the packet, stores its size in it, and writes it into a buffer of the size counted, if no
      store leaves the buffer; whether the count failed is not looked at. With every string within its
      limit the bytes are the frame; otherwise zeros may be left behind it. */
  method SerializePacket(packet: Packet) returns (payload: PacketPayload)
    requires SizingEnds(packet.m_packetId, packet.m_fields) && Fits(packet.m_packetId, packet.m_fields)
    modifies packet`m_packetSize
    ensures packet.m_packetSize == PayloadSize(CountMessage(packet.m_packetId, packet.m_fields))
    ensures var bytes := Buffer(packet.m_packetId, packet.m_fields);
            && payload == PacketPayload(bytes, packet.m_packetId, |bytes|)
            && Frame(packet.Value()) <= bytes
            && (AllWithinLimit(packet.m_fields) ==> bytes == Frame(packet.Value()))
  {
    hide CountMessage, SizingEnds, PayloadSize, Frame, AllWithinLimit;
    var sizer := new PacketSizeCalc();
    packet.SizePass(sizer);
    SizingIsExact(packet.m_packetId, packet.m_fields);
    packet.m_packetSize := sizer.GetPayloadSize();
    var writer := new PacketWriter(sizer.m_currentSize);
    packet.WritePass(writer);
    ghost var bytes := Buffer(packet.m_packetId, packet.m_fields);
    assert writer.Written() == Frame(packet.Value());
    assert writer.m_data[..] == writer.Written() + writer.m_data[writer.m_size..];
    assert writer.m_data[writer.m_size..] == Zeros(writer.m_data.Length - writer.m_size);
    payload := PacketPayload(writer.m_data[..], packet.m_packetId, sizer.m_currentSize);
  }

  /** Serialise a packet and read the bytes, whatever follows them, into a fresh one of its type. */
  method SerializeThenRead(packet: Packet, dest: Packet, rest: seq<u8>)
    requires packet != dest && IsFresh(dest.Value(), packet.Value())
    requires SizingEnds(packet.m_packetId, packet.m_fields) && Fits(packet.m_packetId, packet.m_fields)
    requires AllWithinLimit(packet.m_fields)
    modifies packet`m_packetSize, dest
    ensures dest.Value() == packet.Value()
    ensures packet.m_packetId == old(packet.m_packetId) && packet.m_fields == old(packet.m_fields)
  {
    SendableFields(packet.m_packetId, packet.m_fields);
    var payload := SerializePacket(packet);
    FrameRoundTrip(dest.Value(), packet.Value(), rest);
    var reader := new PacketReader(payload.data + rest, 0);
    assert reader.Ahead() == payload.data + rest;
    hide *;
    dest.ReadPass(reader);
  }

  lemma {:induction false} CountedAreSendable(t: Sizing, fs: seq<Field>)
    requires t.success && CountEnds(t, fs) && AllWithinLimit(fs)
    ensures forall f :: f in fs ==> Sendable(f)
    decreases |fs|
  {
    if fs != [] {
      assert fs == [fs[0]] + fs[1..];
      assert Count(t, fs[0]).success <==> WithinLimit(fs[0]);
      CountedAreSendable(Count(t, fs[0]), fs[1..]);
    }
  }

  /** Strings within their limits whose lengths could be sized can be read back. */
  lemma SendableFields(id: u32, fs: seq<Field>)
    requires SizingEnds(id, fs) && AllWithinLimit(fs)
    ensures forall f :: f in fs ==> Sendable(f)
  {
    hide CountEnds, AllWithinLimit, Sendable, CountAll;
    CountedAreSendable(Count(Sizing(0, 0, true), VarInt(id)), fs);
  }
}
