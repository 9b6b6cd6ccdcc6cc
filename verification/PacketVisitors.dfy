/** The three visitors as the program runs them, each proved against its part of PacketFields, and
    the packet whose one serialisation drives all three. */
module PacketVisitors {
  import opened Options
  import opened Sequences
  import opened Words
  import opened VarInts
  import opened PacketFields
  import opened PacketCodec

  class PacketSizeCalc {
    var m_currentSize: u32
    var m_packetLengthSize: u32
    var m_success: bool
    var m_isEnd: bool

    ghost function State(): Sizing reads this {
      Sizing(m_currentSize, m_packetLengthSize, m_success)
    }

    constructor ()
      ensures State() == Sizing(0, 0, true) && !m_isEnd
    {
      m_currentSize, m_packetLengthSize, m_success, m_isEnd := 0, 0, true, false;
    }

    method GetPayloadSize() returns (n: u32)
      ensures n == PayloadSize(State())
    {
      n := Wrap32(m_currentSize + TWO32 - m_packetLengthSize);
    }

    /** Sizes a value, or after the last field the size itself. The loop ends only when the value
        sized is not negative. */
    method OnVarInt(value: u32)
      requires m_success ==> !IsNegative(if m_isEnd then m_currentSize else value)
      modifies this
      ensures m_isEnd == old(m_isEnd)
      ensures State() == if m_isEnd then CountLength(old(State())) else Count(old(State()), VarInt(value))
    {
      if !m_success {
        return;
      }
      var size := 0;
      var finalValue := value;
      if m_isEnd {
        finalValue := m_currentSize;
      }
      ghost var start := finalValue;
      while true
        invariant !IsNegative(finalValue)
        invariant size + EncodedLength(finalValue) == EncodedLength(start)
        decreases finalValue
      {
        size := size + 1;
        if finalValue < 0x80 {
          m_currentSize := Wrap32(m_currentSize + size);
          if m_isEnd {
            m_packetLengthSize := size;
          }
          return;
        }
        finalValue := SignedShiftRight7(finalValue);
      }
    }

    method OnShort(value: u16)
      modifies this
      ensures m_isEnd == old(m_isEnd) && State() == Count(old(State()), Short(value))
    {
      if !m_success {
        return;
      }
      m_currentSize := Wrap32(m_currentSize + 2);
    }

    method OnULong(value: u64)
      modifies this
      ensures m_isEnd == old(m_isEnd) && State() == Count(old(State()), ULong(value))
    {
      if !m_success {
        return;
      }
      m_currentSize := Wrap32(m_currentSize + 8);
    }

    method OnString(text: seq<u8>, max: u32)
      requires !m_isEnd && (m_success ==> |text| < 0x8000_0000)
      modifies this
      ensures !m_isEnd && State() == Count(old(State()), Str(text, max))
    {
      if !m_success {
        return;
      }
      OnVarInt(|text|);
      if |text| > max {
        m_success := false;
        return;
      }
      m_currentSize := Wrap32(m_currentSize + |text|);
    }

    method OnUInt8(value: u8)
      modifies this
      ensures m_isEnd == old(m_isEnd) && State() == Count(old(State()), U8(value))
    {
      if !m_success {
        return;
      }
      m_currentSize := Wrap32(m_currentSize + 1);
    }

    /** The one visit that counts even after a failure. */
    method OnUUID(data: UuidBytes)
      modifies this
      ensures m_isEnd == old(m_isEnd) && State() == Count(old(State()), Uuid(data))
    {
      m_currentSize := Wrap32(m_currentSize + 16);
    }
  }

  /** A UUID goes out as the two words loaded from its bytes. */
  lemma TwoWords(data: UuidBytes, before: seq<u8>)
    ensures before + Wire(Uuid(data)) == before + Wire(ULong(Load64(data[..8]))) + Wire(ULong(Load64(data[8..])))
  {
    StoreLoad(data[..8]);
    StoreLoad(data[8..]);
    assert data == data[..8] + data[8..];
  }

  lemma StrIs(text: seq<u8>, max: u32)
    ensures Wire(Str(text, max)) == if |text| > max then [] else Encode(Wrap32(|text|)) + text
    ensures Wire(VarInt(Wrap32(|text|))) == Encode(Wrap32(|text|))
  {
  }

  class PacketWriter {
    const m_data: array<u8>
    var m_size: nat

    /** What is not written yet is still zero. */
    ghost predicate Valid() reads this, m_data {
      m_size <= m_data.Length && forall i :: m_size <= i < m_data.Length ==> m_data[i] == 0
    }

    /** The bytes written so far. */
    ghost function Written(): seq<u8>
      requires Valid()
      reads this, m_data
    {
      m_data[..m_size]
    }

    ghost predicate Fits(n: nat) reads this {
      m_size + n <= m_data.Length
    }

    constructor (size: u32)
      ensures Valid() && fresh(m_data) && m_data.Length == size && m_size == 0 && Written() == []
    {
      m_data := new u8[size](_ => 0);
      m_size := 0;
    }

    /** memcpy to the end of what is written. */
    method Append(bytes: seq<u8>)
      requires Valid() && Fits(|bytes|)
      modifies this, m_data
      ensures Valid() && m_size == old(m_size) + |bytes|
      ensures Written() == old(Written()) + bytes
    {
      forall i | 0 <= i < |bytes| {
        m_data[m_size + i] := bytes[i];
      }
      m_size := m_size + |bytes|;
    }

    method OnShort(value: u16)
      requires Valid() && Fits(|Wire(Short(value))|)
      modifies this, m_data
      ensures Valid() && Written() == old(Written()) + Wire(Short(value))
    {
      Append(StoreLE(Swap16(value), 2));
    }

    method OnVarInt(value: u32)
      requires Valid() && Fits(|Encode(value)|)
      modifies this, m_data
      ensures Valid() && Written() == old(Written()) + Wire(VarInt(value))
    {
      var valueCopy := value;
      while true
        invariant Valid() && Fits(|Encode(valueCopy)|)
        invariant Written() + Encode(valueCopy) == old(Written()) + Encode(value)
        decreases valueCopy
      {
        ghost var before := Written();
        var position := m_size;
        m_size := m_size + 1;
        if valueCopy < 0x80 {
          m_data[position] := valueCopy;
          assert Written() == before + [valueCopy];
          return;
        }
        m_data[position] := valueCopy % 0x80 + 0x80;
        assert Written() == before + [valueCopy % 0x80 + 0x80];
        valueCopy := valueCopy / 0x80;
      }
    }

    method OnULong(value: u64)
      requires Valid() && Fits(8)
      modifies this, m_data
      ensures Valid() && m_size == old(m_size) + 8
      ensures Written() == old(Written()) + Wire(ULong(value))
    {
      Append(StoreLE(value, 8));
    }

    method OnString(text: seq<u8>, max: u32)
      requires Valid() && Fits(|Wire(Str(text, max))|)
      modifies this, m_data
      ensures Valid() && Written() == old(Written()) + Wire(Str(text, max))
    {
      hide Wire, Encode, Wrap32;
      StrIs(text, max);
      if |text| > max {
        return;
      }
      Associate(Written(), Encode(Wrap32(|text|)), text);
      OnVarInt(Wrap32(|text|));
      Append(text);
    }

    method OnUInt8(value: u8)
      requires Valid() && Fits(1)
      modifies this, m_data
      ensures Valid() && Written() == old(Written()) + Wire(U8(value))
    {
      m_data[m_size] := value;
      m_size := m_size + 1;
    }

    /** Two 64-bit words are loaded from the object's bytes and stored again. */
    method OnUUID(data: UuidBytes)
      requires Valid() && Fits(16)
      modifies this, m_data
      ensures Valid() && Written() == old(Written()) + Wire(Uuid(data))
    {
      ghost var before := Written();
      var y, x := Load64(data[..8]), Load64(data[8..]);
      TwoWords(data, before);
      hide Wire, Load64;
      OnULong(y);
      OnULong(x);
    }
  }

  lemma ReadVarInt(before: u32, s: seq<u8>)
    requires Parse(s, MAX_GROUPS).Some?
    ensures var p := Parse(s, MAX_GROUPS).value;
            Read(VarInt(before), s) == Some((VarInt(Received(before, p)), p.len))
  {
  }

  class PacketReader {
    const memory: seq<u8>
    var m_current: nat

    ghost predicate Valid() reads this {
      m_current <= |memory|
    }

    /** What lies ahead of the cursor. */
    ghost function Ahead(): seq<u8>
      requires Valid()
      reads this
    {
      memory[m_current..]
    }

    /** The reader visited a field holding d and left f in it. */
    twostate predicate Took(d: Field, f: Field)
      requires old(Valid())
      reads this
    {
      && Valid() && m_current >= old(m_current)
      && Read(d, old(Ahead())) == Some((f, m_current - old(m_current)))
      && Ahead() == old(Ahead())[m_current - old(m_current)..]
    }

    constructor (memory: seq<u8>, start: nat)
      requires start <= |memory|
      ensures Valid() && this.memory == memory && m_current == start
    {
      this.memory := memory;
      m_current := start;
    }

    method OnShort(before: u16) returns (value: u16)
      requires Valid() && Read(Short(before), Ahead()).Some?
      modifies this
      ensures Took(Short(before), Short(value))
    {
      assert memory[m_current..][..2] == memory[m_current..m_current + 2];
      value := Swap16(Load16(memory[m_current..m_current + 2]));
      m_current := m_current + 2;
    }

    method OnVarInt(before: u32) returns (value: u32)
      requires Valid() && Parse(Ahead(), MAX_GROUPS).Some?
      modifies this
      ensures Took(VarInt(before), VarInt(value))
      ensures var p := Parse(old(Ahead()), MAX_GROUPS).value;
              value == Received(before, p) && m_current == old(m_current) + p.len
    {
      hide Parse, Weight, BitOr, ShiftLeft, Pow2, Read, Received, Gathered;
      value := before;
      var position := 0;
      ghost var start, whole := m_current, Parse(Ahead(), MAX_GROUPS).value;
      ghost var low: nat, i: nat := 0, 0;
      GatherStart(before, Ahead());
      ReadVarInt(before, Ahead());
      while true
        invariant Valid() && position == 7 * i && m_current == start + i
        invariant Gathered(whole, low, i, Ahead()) && value == BitOr(before, low)
        decreases MAX_GROUPS - i
      {
        ghost var ahead := Ahead();
        GatherTurn(before, whole, low, i, ahead);
        var byte := memory[m_current];
        m_current := m_current + 1;
        assert byte == ahead[0] && Ahead() == ahead[1..];
        value := BitOr(value, ShiftLeft(byte % 0x80, position));
        if byte < 0x80 {
          break;
        }
        position := position + 7;
        if position >= 32 {
          value := 0;
          break;
        }
        low := low + byte % 0x80 * Weight(i);
        i := i + 1;
      }
      assert m_current == start + whole.len;
    }

    method OnULong(before: u64) returns (value: u64)
      requires Valid() && |Ahead()| >= 8
      modifies this
      ensures Took(ULong(before), ULong(value))
    {
      assert memory[m_current..][..8] == memory[m_current..m_current + 8];
      value := Load64(memory[m_current..m_current + 8]);
      m_current := m_current + 8;
    }

    /** It is the old contents that are held against the limit. */
    method OnString(before: seq<u8>, max: u32) returns (value: seq<u8>)
      requires Valid() && Read(Str(before, max), Ahead()).Some?
      modifies this
      ensures Took(Str(before, max), Str(value, max))
    {
      value := before;
      if |before| >= max {
        return;
      }
      ghost var ahead := Ahead();
      var length := OnVarInt(0);
      value := memory[m_current..m_current + length];
      assert value == ahead[m_current - old(m_current)..m_current - old(m_current) + length];
      m_current := m_current + length;
    }

    method OnUInt8(before: u8) returns (value: u8)
      requires Valid() && Ahead() != []
      modifies this
      ensures Took(U8(before), U8(value))
    {
      value := memory[m_current];
      m_current := m_current + 1;
    }

    /** The word read first goes to the low lane. */
    method OnUUID(before: UuidBytes) returns (data: UuidBytes)
      requires Valid() && |Ahead()| >= 16
      modifies this
      ensures Took(Uuid(before), Uuid(data))
    {
      ghost var ahead := Ahead();
      assert ahead[8..][..8] == ahead[8..16];
      var y := OnULong(0);
      var x := OnULong(0);
      data := StoreLE(y, 8) + StoreLE(x, 8);
    }
  }
}
