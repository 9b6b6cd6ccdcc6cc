/** A UUID between its text and the wire. */
module UuidWire {
  import opened Options
  import opened PacketFields
  import opened PacketCodec
  import opened Simd
  import opened UuidText
  import opened Words

  /** The bytes a UUID object stores for a vector. */
  function DataOf(x: Vec128): (data: UuidBytes)
    ensures forall i :: 0 <= i < 16 ==> data[i] == x[i] as int
  {
    seq(16, i requires 0 <= i < 16 => x[i] as int)
  }

  /** The sixteen bytes that go out for a canonical text are its hex digits, two by two and in order,
      and the reader rebuilds an equal UUID from them, whatever follows. */
  lemma TextOnTheWire(t: seq<bv8>, d: UuidBytes, rest: seq<u8>)
    requires IsCanonical(t)
    ensures |t| == 36
    ensures var wire, h := Wire(Uuid(DataOf(TextToM128(t)))), Undashed(t);
            && |wire| == 16
            && (forall j :: 0 <= j < 16 ==>
                  wire[j] == Pair(DigitValue(h[2 * j]), DigitValue(h[2 * j + 1])) as int)
            && Read(Uuid(d), wire + rest) == Some((Uuid(DataOf(TextToM128(t))), 16))
  {
    hide TextToM128, Undashed, Unhex, LowerCase, IsHexDigit, IsLower, Dashed, IsCanonical, Read, DigitValue,
         Pair;
    CanonicalHasLength(t);
    CanonicalIsDashed(t);
    AllLower(Undashed(t));
    ParsingIsPlain(t);
    ReadUuid(DataOf(TextToM128(t)), d, rest);
  }
}
