/** What the server and a client make of each other's packets, and what the server can serialise. */
module LoginExchange {
  import opened Options
  import opened Sequences
  import opened Words
  import opened VarInts
  import opened PacketFields
  import opened PacketCodec
  import opened PacketVisitors
  import opened Packets
  import opened Framing
  import opened ClientConnection
  import UuidText
  import Simd
  import opened UuidWire
  import opened LoginSession

  // ---- What the session can serialise ----

  const HALF: int := 0x8000_0000

  lemma CountLast(t: Sizing, f: Field)
    ensures CountAll(t, [f]) == Count(t, f)
    ensures CountEnds(t, [f]) <==> (t.success ==> Countable(f))
  {
    hide Count, Countable;
    assert [f][1..] == [];
    assert CountAll(Count(t, f), []) == Count(t, f);
    assert CountEnds(Count(t, f), []);
  }

  lemma OneField(id: u32, a: Field)
    ensures AllWithinLimit([a]) <==> WithinLimit(a)
    ensures Payload(id, [a]) == Encode(id) + Wire(a)
    ensures CountAll(Sizing(EncodedLength(id), 0, true), [a]) == Count(Sizing(EncodedLength(id), 0, true), a)
    ensures CountEnds(Sizing(EncodedLength(id), 0, true), [a]) <==> Countable(a)
  {
    hide Wire, WithinLimit, Countable, Count, Encode;
    CountLast(Sizing(EncodedLength(id), 0, true), a);
    assert [a][1..] == [];
    assert WireAll([a]) == Wire(a) + [];
    assert a in [a];
  }

  lemma TwoFields(id: u32, a: Field, b: Field)
    ensures AllWithinLimit([a, b]) <==> WithinLimit(a) && WithinLimit(b)
    ensures Payload(id, [a, b]) == Encode(id) + Wire(a) + Wire(b)
    ensures var t := Count(Sizing(EncodedLength(id), 0, true), a);
            && CountAll(Sizing(EncodedLength(id), 0, true), [a, b]) == Count(t, b)
            && (CountEnds(Sizing(EncodedLength(id), 0, true), [a, b])
                <==> Countable(a) && (t.success ==> Countable(b)))
  {
    hide Wire, WithinLimit, Countable, Count, Encode;
    var fs, s := [a, b], Sizing(EncodedLength(id), 0, true);
    assert fs[1..] == [b] && [b][1..] == [];
    CountLast(Count(s, a), b);
    assert WireAll([b]) == Wire(b) + [];
    assert a in fs && b in fs;
  }

  lemma ThreeFields(id: u32, a: Field, b: Field, c: Field)
    ensures AllWithinLimit([a, b, c]) <==> WithinLimit(a) && WithinLimit(b) && WithinLimit(c)
    ensures Payload(id, [a, b, c]) == Encode(id) + Wire(a) + Wire(b) + Wire(c)
    ensures var t := Count(Sizing(EncodedLength(id), 0, true), a);
            var u := Count(t, b);
            && CountAll(Sizing(EncodedLength(id), 0, true), [a, b, c]) == Count(u, c)
            && (CountEnds(Sizing(EncodedLength(id), 0, true), [a, b, c])
                <==> Countable(a) && (t.success ==> Countable(b)) && (u.success ==> Countable(c)))
  {
    hide Wire, WithinLimit, Countable, Count, Encode;
    var fs, s := [a, b, c], Sizing(EncodedLength(id), 0, true);
    assert fs[1..] == [b, c] && [b, c][1..] == [c] && [c][1..] == [];
    CountLast(Count(Count(s, a), b), c);
    assert CountAll(Count(s, a), [b, c]) == CountAll(Count(Count(s, a), b), [c]);
    assert CountEnds(Count(s, a), [b, c])
      <==> (Count(s, a).success ==> Countable(b)) && CountEnds(Count(Count(s, a), b), [c]);
    assert WireAll([c]) == Wire(c) + [];
    assert WireAll([b, c]) == Wire(b) + WireAll([c]);
    assert a in fs && b in fs && c in fs;
  }

  lemma SerializesWithin(id: u32, fs: seq<Field>)
    requires !IsNegative(id) && AllWithinLimit(fs) && CountEnds(Sizing(EncodedLength(id), 0, true), fs)
    requires |Payload(id, fs)| < HALF
    ensures CanSerialize(id, fs)
  {
    hide Count, CountAll, CountEnds, Payload, EncodedLength, PayloadSize, AllWithinLimit;
    CountFirst(id);
    CountWithin(id, fs);
    StoresStayInside(id, fs);
  }

  lemma SerializesOver(id: u32, fs: seq<Field>, n: u32)
    requires !IsNegative(id) && CountAll(Sizing(EncodedLength(id), 0, true), fs) == Sizing(n, 0, false)
    ensures CountMessage(id, fs) == Sizing(n, 0, false) && PayloadSize(Sizing(n, 0, false)) == n
    ensures Written(id, fs) == Frame(Message(n, id, fs)) && |Written(id, fs)| == EncodedLength(n) + |Payload(id, fs)|
    ensures CanSerialize(id, fs) <==>
              CountEnds(Sizing(EncodedLength(id), 0, true), fs) && EncodedLength(n) + |Payload(id, fs)| <= n
  {
    hide Count, CountAll, CountEnds, Payload, EncodedLength, PayloadSize, Frame;
    CountFirst(id);
    UnsizedPayload(n);
    WrittenLength(id, fs);
  }

  lemma StrWire(text: seq<u8>, max: u32)
    requires |text| <= max <= MAX_STRING_LENGTH
    ensures |Wire(Str(text, max))| == EncodedLength(|text|) + |text|
  {
  }

  /** A LoginSuccess can be serialised exactly for names of at most 16 bytes, and for those of 128
      and more. In between, the writer leaves its buffer by one byte. */
  lemma LoginSuccessFits(id: UuidBytes, username: seq<u8>)
    ensures var fields := LoginSuccessFields(id, username);
            && (AllWithinLimit(fields) <==> |username| <= 16)
            && (CanSerialize(LOGIN_SUCCESS_ID, fields) <==> |username| <= 16 || 128 <= |username| < HALF)
            && (16 < |username| < HALF ==>
                  && CountMessage(LOGIN_SUCCESS_ID, fields).current == 17 + EncodedLength(|username|)
                  && |Written(LOGIN_SUCCESS_ID, fields)| == 19)
  {
    hide CountAll, CountEnds, AllWithinLimit, SizingEnds, Fits, Payload, CountMessage, Written, CanSerialize,
         PayloadSize;
    var fields := LoginSuccessFields(id, username);
    ThreeFields(LOGIN_SUCCESS_ID, Uuid(id), Str(username, 16), VarInt(0));
    if |username| <= 16 {
      StrWire(username, 16);
      SerializesWithin(LOGIN_SUCCESS_ID, fields);
    } else {
      SerializesOver(LOGIN_SUCCESS_ID, fields, 17 + EncodedLength(Wrap32(|username|)));
    }
  }

  /** A StatusResponse can be serialised with every body, over its limit as well. */
  lemma StatusResponseFits(body: seq<u8>)
    ensures CanSerialize(STATUS_RESPONSE_ID, StatusResponseFields(body)) <==> |body| < HALF
  {
    hide CountAll, CountEnds, AllWithinLimit, SizingEnds, Fits, Payload, CountMessage, Written, CanSerialize,
         PayloadSize;
    var fields := StatusResponseFields(body);
    OneField(STATUS_RESPONSE_ID, Str(body, MAX_STRING_LENGTH));
    if |body| <= MAX_STRING_LENGTH {
      StrWire(body, MAX_STRING_LENGTH);
      SerializesWithin(STATUS_RESPONSE_ID, fields);
    } else {
      SerializesOver(STATUS_RESPONSE_ID, fields, 1 + EncodedLength(Wrap32(|body|)));
    }
  }

  /** The calculator's way through an EncryptionRequest: where it fails, what it then has counted. */
  lemma RequestCount(publicKey: seq<u8>, token: seq<u8>)
    ensures var fields, t := EncryptionRequestFields(publicKey, token), Sizing(1, 0, true);
            && (AllWithinLimit(fields) <==> |publicKey| <= MAX_STRING_LENGTH && |token| <= MAX_STRING_LENGTH)
            && |Payload(ENCRYPTION_REQUEST_ID, fields)| == 2 + StrSize(publicKey) + StrSize(token)
            && (|publicKey| > MAX_STRING_LENGTH ==>
                  CountAll(t, fields) == Sizing(2 + EncodedLength(Wrap32(|publicKey|)), 0, false))
            && (|publicKey| <= MAX_STRING_LENGTH < |token| ==>
                  CountAll(t, fields) == Sizing(2 + StrSize(publicKey) + EncodedLength(Wrap32(|token|)), 0, false))
            && (CountEnds(t, fields) <==> |publicKey| < HALF && (|publicKey| <= MAX_STRING_LENGTH ==> |token| < HALF))
  {
    hide CountAll, CountEnds, AllWithinLimit, Payload, Wire, EncodedLength, Count;
    ThreeFields(ENCRYPTION_REQUEST_ID, Str([], 20), Str(publicKey, MAX_STRING_LENGTH), Str(token, MAX_STRING_LENGTH));
    StrWire([], 20);
    StrsWire(publicKey);
    StrsWire(token);
    OneByte();
    var t, u := Sizing(1, 0, true), Sizing(2, 0, true);
    CountStr(t, [], 20);
    CountStr(u, publicKey, MAX_STRING_LENGTH);
    if |publicKey| <= MAX_STRING_LENGTH {
      CountStr(Count(u, Str(publicKey, MAX_STRING_LENGTH)), token, MAX_STRING_LENGTH);
    } else {
      CountNoStr(Count(u, Str(publicKey, MAX_STRING_LENGTH)), token, MAX_STRING_LENGTH);
    }
  }

  lemma OneByte()
    ensures EncodedLength(0) == EncodedLength(1) == 1 && |Encode(1)| == 1
  {
  }

  lemma CountStr(t: Sizing, text: seq<u8>, max: u32)
    requires t.success && t.current + max + 5 < TWO32
    ensures Count(t, Str(text, max))
         == if |text| <= max then t.(current := t.current + EncodedLength(|text|) + |text|)
            else t.(current := t.current + EncodedLength(Wrap32(|text|)), success := false)
  {
    hide EncodedLength;
  }

  lemma CountNoStr(t: Sizing, text: seq<u8>, max: u32)
    requires !t.success
    ensures Count(t, Str(text, max)) == t
  {
  }

  /** An EncryptionRequest can be serialised with every token, if the key is within its limit; with a
      longer key, only if next to nothing is written after it. */
  lemma EncryptionRequestFits(publicKey: seq<u8>, token: seq<u8>)
    ensures var fields := EncryptionRequestFields(publicKey, token);
            && (AllWithinLimit(fields) <==> |publicKey| <= MAX_STRING_LENGTH && |token| <= MAX_STRING_LENGTH)
            && (CanSerialize(ENCRYPTION_REQUEST_ID, fields) <==>
                if |publicKey| <= MAX_STRING_LENGTH then |token| < HALF
                else |publicKey| < HALF && (|token| > MAX_STRING_LENGTH || |token| + 2 <= EncodedLength(|publicKey|)))
  {
    hide CountAll, CountEnds, AllWithinLimit, SizingEnds, Fits, Payload, CountMessage, Written, CanSerialize,
         PayloadSize, EncryptionRequestFields;
    var fields := EncryptionRequestFields(publicKey, token);
    RequestCount(publicKey, token);
    OneByte();
    if |publicKey| > MAX_STRING_LENGTH {
      SerializesOver(ENCRYPTION_REQUEST_ID, fields, 2 + EncodedLength(Wrap32(|publicKey|)));
    } else if |token| > MAX_STRING_LENGTH {
      SerializesOver(ENCRYPTION_REQUEST_ID, fields, 2 + StrSize(publicKey) + EncodedLength(Wrap32(|token|)));
    } else {
      SerializesWithin(ENCRYPTION_REQUEST_ID, fields);
    }
  }

  /** The bytes written for a string with the general limit. */
  function StrSize(text: seq<u8>): nat {
    if |text| <= MAX_STRING_LENGTH then EncodedLength(|text|) + |text| else 0
  }

  lemma StrsWire(text: seq<u8>)
    ensures |Wire(Str(text, MAX_STRING_LENGTH))| == StrSize(text)
  {
  }

  // ---- Client and server understand each other ----

  /** A new packet of the same type reads its fields from what was written for them, and from the
      zeros behind if the count was larger. */
  lemma ReadSerialized(id: u32, blank: seq<Field>, fields: seq<Field>, rest: seq<u8>)
    requires CanSerialize(id, fields)
    ensures var t := CountMessage(id, fields);
            var r := ReadAll(blank, WireAll(fields) + (Zeros(t.current - |Written(id, fields)|) + rest));
            ReadMessage(Message(0, id, blank), Serialized(id, fields).data + rest) == (
              if r.None? then None
              else Some((Message(PayloadSize(t), id, r.value.0), |Encode(PayloadSize(t))| + |Encode(id)| + r.value.1)))
  {
    hide SizingEnds, CountMessage, Frame, ReadMessage, ReadAll, WireAll, Encode, Zeros, PayloadSize, BitOr;
    var t := CountMessage(id, fields);
    var m, zeros := Message(PayloadSize(t), id, fields), Zeros(t.current - |Written(id, fields)|);
    Associate(Frame(m), zeros, rest);
    BitOrSelf(id);
    ReadFrame(Message(0, id, blank), m, zeros + rest);
  }

  /** What one side serialises, with no string over its limit, the other reads into a fresh packet of
      the same type. */
  lemma ReadFreshUndoesSerialized(id: u32, blank: seq<Field>, fields: seq<Field>)
    requires CanSerialize(id, fields) && AllWithinLimit(fields) && |blank| == |fields|
    requires forall i :: 0 <= i < |fields| ==> CanReceive(blank[i], fields[i])
    ensures |Payload(id, fields)| < TWO32
    ensures ReadFresh(id, blank, Serialized(id, fields).data) == Some(fields)
    ensures forall rest, own: u32 :: BitOr(own, id) == id ==>
              ReadMessage(Message(0, own, blank), Serialized(id, fields).data + rest)
              == Some((Message(|Payload(id, fields)|, id, fields), Serialized(id, fields).size))
  {
    hide ReadMessage, Frame, Payload, CanReceive, AllWithinLimit, SizingEnds, Fits, Framed, CountMessage, PayloadSize,
         Written, Sendable, BitOr;
    SizingIsExact(id, fields);
    var m := Message(|Payload(id, fields)|, id, fields);
    SendableFields(id, fields);
    forall rest, own: u32 | BitOr(own, id) == id
      ensures ReadMessage(Message(0, own, blank), Frame(m) + rest) == Some((m, |Frame(m)|))
    {
      FrameRoundTrip(Message(0, own, blank), m, rest);
    }
    BitOrSelf(id);
    assert Frame(m) + [] == Frame(m);
  }

  /** A name or token that was dropped: a reader takes the zeros behind the frame for it. */
  lemma ReadZeros(k: nat, max: u32)
    requires max > 0
    ensures ReadAll([Str([], max)], Zeros(k)) == if k == 0 then None else Some(([Str([], max)], 1))
    ensures ReadAll([Str([], max), VarInt(0)], Zeros(k))
         == if k < 2 then None else Some(([Str([], max), VarInt(0)], 2))
  {
    var s, f := Zeros(k), Str([], max);
    assert [f][1..] == [] && [VarInt(0)][1..] == [] && [f, VarInt(0)][1..] == [VarInt(0)];
    if k > 0 {
      ZerosRead(k, max);
      ReadAllStep([f], s, f, 1);
      ReadAllStep([f, VarInt(0)], s, f, 1);
      assert [f] + [] == [f] && [f] + [VarInt(0)] == [f, VarInt(0)];
      if k > 1 {
        ZerosRead(k - 1, max);
        ReadAllStep([VarInt(0)], Zeros(k - 1), VarInt(0), 1);
        assert [VarInt(0)] + [] == [VarInt(0)];
      }
    }
  }

  lemma ZerosRead(k: nat, max: u32)
    requires k > 0 && max > 0
    ensures Read(Str([], max), Zeros(k)) == Some((Str([], max), 1))
    ensures Read(VarInt(0), Zeros(k)) == Some((VarInt(0), 1))
    ensures Zeros(k)[1..] == Zeros(k - 1)
  {
    assert Parse(Zeros(k), MAX_GROUPS) == Some(Parsed(0, 1, false)) && Zeros(k)[1..1] == [];
  }

  lemma ReadFreshIs(id: u32, blank: seq<Field>, data: seq<u8>, r: Option<(Message, nat)>)
    requires ReadMessage(Message(0, id, blank), data) == r
    ensures ReadFresh(id, blank, data) == if r.None? then None else Some(r.value.0.fields)
  {
    hide ReadMessage;
  }

  /** With a name of 128 bytes or more the packet holds the UUID and the count, and no name: a client
      reads past its end, or, where a zero was left behind, an empty name. */
  lemma LongNameIsDropped(id: UuidBytes, username: seq<u8>)
    requires 128 <= |username| < HALF
    ensures CanSerialize(LOGIN_SUCCESS_ID, LoginSuccessFields(id, username))
    ensures ReadFresh(LOGIN_SUCCESS_ID, LoginSuccessFields(NO_UUID, []),
                      Serialized(LOGIN_SUCCESS_ID, LoginSuccessFields(id, username)).data)
         == if |username| < 0x4000 then None else Some(LoginSuccessFields(id, []))
  {
    hide CanSerialize, Serialized, CountMessage, Written, ReadAll, ReadMessage, ReadFresh, AllWithinLimit,
         WireAll, Zeros, PayloadSize;
    var fields, blank := LoginSuccessFields(id, username), LoginSuccessFields(NO_UUID, []);
    LoginSuccessFits(id, username);
    var pad := EncodedLength(|username|) - 2;
    ReadSerialized(LOGIN_SUCCESS_ID, blank, fields, []);
    DroppedName(id, username, pad);
    ReadPastWireAll([Uuid(NO_UUID)], [Uuid(id)], [Str([], 16), VarInt(0)], Zeros(pad + 1));
    ReadZeros(pad + 1, 16);
    assert blank == [Uuid(NO_UUID)] + [Str([], 16), VarInt(0)];
    assert [Uuid(id)] + [Str([], 16), VarInt(0)] == LoginSuccessFields(id, []);
    var data := Serialized(LOGIN_SUCCESS_ID, fields).data;
    assert data + [] == data && Zeros(pad) + [] == Zeros(pad);
    ReadFreshIs(LOGIN_SUCCESS_ID, blank, data, ReadMessage(Message(0, LOGIN_SUCCESS_ID, blank), data));
  }

  lemma DroppedName(id: UuidBytes, username: seq<u8>, pad: nat)
    requires |username| > 16
    ensures WireAll(LoginSuccessFields(id, username)) + Zeros(pad) == WireAll([Uuid(id)]) + Zeros(pad + 1)
  {
    var fs := LoginSuccessFields(id, username);
    assert fs[1..] == [Str(username, 16), VarInt(0)] && fs[1..][1..] == [VarInt(0)] && fs[1..][1..][1..] == [];
    assert WireAll([VarInt(0)]) == [0];
    assert WireAll(fs[1..]) == [0];
    assert [Uuid(id)][1..] == [];
    assert WireAll(fs) == id + [0] && WireAll([Uuid(id)]) == id;
    assert [0] + Zeros(pad) == Zeros(pad + 1);
  }

  /** With a token over its limit the request holds the key and no token: a client reads past its end,
      or, where a zero was left behind, an empty token. */
  lemma LongTokenIsDropped(publicKey: seq<u8>, token: seq<u8>)
    requires |publicKey| <= MAX_STRING_LENGTH < |token| < HALF
    ensures CanSerialize(ENCRYPTION_REQUEST_ID, EncryptionRequestFields(publicKey, token))
    ensures var counted := 2 + StrSize(publicKey) + EncodedLength(|token|);
            var data := Serialized(ENCRYPTION_REQUEST_ID, EncryptionRequestFields(publicKey, token)).data;
            ReadFresh(ENCRYPTION_REQUEST_ID, EncryptionRequestFields([], []), data) == (
              if EncodedLength(counted) < EncodedLength(|token|) then Some(EncryptionRequestFields(publicKey, []))
              else None)
  {
    hide CanSerialize, Serialized, CountMessage, Written, CountAll, CountEnds, ReadAll, ReadMessage, ReadFresh,
         AllWithinLimit, WireAll, Wire, Zeros, PayloadSize, Payload;
    var fields, blank := EncryptionRequestFields(publicKey, token), EncryptionRequestFields([], []);
    var counted := 2 + StrSize(publicKey) + EncodedLength(|token|);
    RequestSize(publicKey, token);
    var pad := EncodedLength(|token|) - EncodedLength(counted);
    ReadSerialized(ENCRYPTION_REQUEST_ID, blank, fields, []);
    DroppedToken(publicKey, token);
    var es := [Str([], MAX_STRING_LENGTH)];
    var ds, fs := [Str([], 20), Str([], MAX_STRING_LENGTH)], [Str([], 20), Str(publicKey, MAX_STRING_LENGTH)];
    ReadPastWireAll(ds, fs, es, Zeros(pad));
    ReadZeros(pad, MAX_STRING_LENGTH);
    assert blank == ds + es && fs + es == EncryptionRequestFields(publicKey, []);
    var data := Serialized(ENCRYPTION_REQUEST_ID, fields).data;
    assert data + [] == data && Zeros(pad) + [] == Zeros(pad);
    ReadFreshIs(ENCRYPTION_REQUEST_ID, blank, data, ReadMessage(Message(0, ENCRYPTION_REQUEST_ID, blank), data));
  }

  lemma RequestSize(publicKey: seq<u8>, token: seq<u8>)
    requires |publicKey| <= MAX_STRING_LENGTH < |token| < HALF
    ensures CanSerialize(ENCRYPTION_REQUEST_ID, EncryptionRequestFields(publicKey, token))
    ensures var fields := EncryptionRequestFields(publicKey, token);
            var counted := 2 + StrSize(publicKey) + EncodedLength(|token|);
            && CountMessage(ENCRYPTION_REQUEST_ID, fields).current == counted
            && |Written(ENCRYPTION_REQUEST_ID, fields)|
               == counted - EncodedLength(|token|) + EncodedLength(counted) <= counted
  {
    hide CountAll, CountEnds, AllWithinLimit, SizingEnds, Fits, Payload, CountMessage, Written, CanSerialize,
         PayloadSize, EncryptionRequestFields;
    EncryptionRequestFits(publicKey, token);
    RequestCount(publicKey, token);
    OneByte();
    SerializesOver(ENCRYPTION_REQUEST_ID, EncryptionRequestFields(publicKey, token),
                   2 + StrSize(publicKey) + EncodedLength(|token|));
  }

  lemma DroppedToken(publicKey: seq<u8>, token: seq<u8>)
    requires |token| > MAX_STRING_LENGTH
    ensures WireAll(EncryptionRequestFields(publicKey, token))
         == WireAll([Str([], 20), Str(publicKey, MAX_STRING_LENGTH)])
  {
    var a, b, c := Str([], 20), Str(publicKey, MAX_STRING_LENGTH), Str(token, MAX_STRING_LENGTH);
    assert [a, b, c][1..] == [b, c] && [b, c][1..] == [c] && [c][1..] == [] && [a, b][1..] == [b] && [b][1..] == [];
    assert Wire(c) == [];
    hide Wire;
    assert WireAll([c]) == [];
    assert WireAll([b, c]) == WireAll([b]);
  }

  /** The token is never reset, so from the 512th login on it is over its limit: the request for it is
      still queued, up to lengths that are negative as `int`, but no client can read the token from it. */
  lemma TokenRunsOut(server: Server, s: Session, drawn: seq<u8>)
    requires Inv(server, s) && server.online && |drawn| == TOKEN_LENGTH && |server.publicKey| <= MAX_STRING_LENGTH
    ensures var token := s.verifyToken + drawn;
            var fields := EncryptionRequestFields(server.publicKey, token);
            && (CanSerialize(ENCRYPTION_REQUEST_ID, fields) <==> TOKEN_LENGTH * (s.starts + 1) < HALF)
            && (CanSerialize(ENCRYPTION_REQUEST_ID, fields) ==>
                  var read := ReadFresh(ENCRYPTION_REQUEST_ID, EncryptionRequestFields([], []),
                                        Serialized(ENCRYPTION_REQUEST_ID, fields).data);
                  && (read == Some(fields) <==> s.starts < 511)
                  && (s.starts >= 511 ==> read.None? || read == Some(EncryptionRequestFields(server.publicKey, []))))
  {
    hide CanSerialize, Serialized, ReadFresh, Successes, SentSuccesses, IsToken, AllWithinLimit;
    var token := s.verifyToken + drawn;
    var fields := EncryptionRequestFields(server.publicKey, token);
    EncryptionRequestFits(server.publicKey, token);
    if s.starts < 511 {
      ReadFreshUndoesSerialized(ENCRYPTION_REQUEST_ID, EncryptionRequestFields([], []), fields);
    } else if |token| < HALF {
      LongTokenIsDropped(server.publicKey, token);
      assert fields[2].text != EncryptionRequestFields(server.publicKey, [])[2].text;
    }
  }

  lemma SubmaskOfZero(v: u32)
    ensures BitOr(0, v) == v
  {
  }

  function HelloFields(version: u32, address: seq<u8>, port: u16, next: u8): seq<Field> {
    [VarInt(version), Str(address, 32), Short(port), U8(next)]
  }

  /** A client's handshake moves a new session to the state it asks for, if it speaks the version. */
  lemma HandshakeReceived(server: Server, s: Session, version: u32, address: seq<u8>, port: u16, next: u8,
                          drawn: seq<u8>)
    requires s.state.Handshake? && |address| <= 32
    requires CanSerialize(0, HelloFields(version, address, port, next))
    ensures var p := Serialized(0, HelloFields(version, address, port, next));
            OnPacket(server, s, p, drawn) == Some(
              if version == 772 && next == 1 then (s.(state := Status), true)
              else if version == 772 && next == 2 then (s.(state := Login), true)
              else (s, false))
  {
    hide CanSerialize, Serialized, ReadFresh, BitOr;
    SubmaskOfZero(version);
    ReadFreshUndoesSerialized(HANDSHAKE_ID, HandshakeFields(), HelloFields(version, address, port, next));
  }

  /** The reader of LoginStart takes names of any length, whatever limit the client has, and whatever
      follows. */
  lemma AnyNameArrives(size: u32, name: seq<u8>, limit: u32, uuid: UuidBytes, rest: seq<u8>)
    requires |name| <= limit && |name| < HALF
    ensures ReadFresh(LOGIN_START_ID, LoginStartFields(),
                      Frame(Message(size, LOGIN_START_ID, [Str(name, limit), Uuid(uuid)])) + rest)
         == Some([Str(name, 16), Uuid(uuid)])
  {
    hide ReadMessage, ReadAll, Read, Frame, Wire, WireAll, ReadFresh;
    var blank, fields := LoginStartFields(), [Str(name, limit), Uuid(uuid)];
    var m := Message(size, LOGIN_START_ID, fields);
    ReadFrame(Message(0, LOGIN_START_ID, blank), m, rest);
    NameAndUuid(name, limit, uuid, rest);
    ReadFreshIs(LOGIN_START_ID, blank, Frame(m) + rest,
                ReadMessage(Message(0, LOGIN_START_ID, blank), Frame(m) + rest));
  }

  lemma NameAndUuid(name: seq<u8>, limit: u32, uuid: UuidBytes, rest: seq<u8>)
    requires |name| <= limit && |name| < HALF
    ensures ReadAll(LoginStartFields(), WireAll([Str(name, limit), Uuid(uuid)]) + rest)
         == Some(([Str(name, 16), Uuid(uuid)], |WireAll([Str(name, limit), Uuid(uuid)])|))
  {
    hide ReadAll, Read, Wire;
    var blank, fields := LoginStartFields(), [Str(name, limit), Uuid(uuid)];
    var x := Wire(Str(name, limit));
    var y := WireAll([Uuid(uuid)]);
    assert fields[1..] == [Uuid(uuid)] && blank[1..] == [Uuid(NO_UUID)];
    ReadStr(name, limit, [], 16, y + rest);
    Associate(x, y, rest);
    DropPrefix(x, y + rest);
    ReadAllStep(blank, x + (y + rest), Str(name, 16), |x|);
    ReadAllUndoesWireAll([Uuid(NO_UUID)], [Uuid(uuid)], rest);
    assert [Str(name, 16)] + [Uuid(uuid)] == [Str(name, 16), Uuid(uuid)];
  }

  /** A client's LoginStart, with a name of any length: name and UUID are left in the session. Online,
      the request for the longer token is queued. Offline, it is the LoginSuccess, unless the name is
      one that makes the writer leave its buffer. */
  lemma LoginStartReceived(server: Server, s: Session, p: PacketPayload, size: u32, name: seq<u8>, limit: u32,
                           uuid: UuidBytes, rest: seq<u8>, drawn: seq<u8>)
    requires s.state.Login? && |name| <= limit && |name| < HALF
    requires p.packetId == 0
    requires p.data == Frame(Message(size, 0, [Str(name, limit), Uuid(uuid)])) + rest
    ensures var t := s.(username := name, uuid := uuid, starts := s.starts + 1);
            var token := s.verifyToken + drawn;
            var request := [Str([], 20), Str(server.publicKey, 32767), Str(token, 32767)];
            var success := [Uuid(uuid), Str(name, 16), VarInt(0)];
            if server.online then
              |server.publicKey| <= 32767 && |token| < HALF ==>
                && CanSerialize(1, request)
                && OnPacket(server, s, p, drawn)
                   == Some((t.(verifyToken := token, queue := s.queue + [Serialized(1, request)]), true))
            else if 17 <= |name| <= 127 then OnPacket(server, s, p, drawn) == None
            else
              && CanSerialize(2, success)
              && OnPacket(server, s, p, drawn)
                 == Some((t.(queue := s.queue + [Serialized(2, success)],
                             due := s.due + [name], made := s.made + [Made(uuid, name)]), true))
  {
    hide ReadFresh, CanSerialize, Serialized, Frame, AllWithinLimit;
    AnyNameArrives(size, name, limit, uuid, rest);
    EncryptionRequestFits(server.publicKey, s.verifyToken + drawn);
    LoginSuccessFits(uuid, name);
  }

  function ResponseFields(secret: seq<u8>, token: seq<u8>): seq<Field> {
    [Str(secret, 32767), Str(token, 32767)]
  }

  /** A client's EncryptionResponse is accepted exactly when its token, deciphered, is the whole token
      of the session; then the secret, deciphered, is the key and the name is to be authenticated. */
  lemma EncryptionResponseReceived(server: Server, s: Session, secret: seq<u8>, token: seq<u8>, drawn: seq<u8>)
    requires s.state.Login? && |secret| <= 32767 && |token| <= 32767
    ensures CanSerialize(1, ResponseFields(secret, token))
    ensures var p := Serialized(1, ResponseFields(secret, token));
            OnPacket(server, s, p, drawn) == Some(
              if server.decrypt(token) == s.verifyToken then
                (s.(encrypted := true, key := Some(server.decrypt(secret)), pending := s.pending + [s.username],
                    accepted := s.accepted + 1, due := s.due + [s.username]), true)
              else (s, false))
  {
    hide ReadFresh, CountAll, CountEnds, AllWithinLimit, Payload, CanSerialize, Buffer, Wire;
    TwoFields(ENCRYPTION_RESPONSE_ID, Str(secret, MAX_STRING_LENGTH), Str(token, MAX_STRING_LENGTH));
    StrWire(secret, MAX_STRING_LENGTH);
    StrWire(token, MAX_STRING_LENGTH);
    SerializesWithin(ENCRYPTION_RESPONSE_ID, ResponseFields(secret, token));
    ReadFreshUndoesSerialized(ENCRYPTION_RESPONSE_ID, EncryptionResponseFields(), ResponseFields(secret, token));
  }

  /** In state Status a packet of id 0 is a status request. It is accepted and one packet of id 0 is
      queued, from whose bytes a client reads the status, as it was given; or nothing, if that is over
      its limit. */
  lemma StatusAnswered(server: Server, s: Session, p: PacketPayload, drawn: seq<u8>)
    requires s.state.Status? && p.packetId == 0
    ensures OnPacket(server, s, p, drawn).Some? <==> |server.statusBody| < HALF
    ensures OnPacket(server, s, p, drawn).Some? ==>
              var body, (t, ok) := server.statusBody, OnPacket(server, s, p, drawn).value;
              && ok && |t.queue| == |s.queue| + 1 && t == s.(queue := t.queue) && s.queue <= t.queue
              && var r := t.queue[|s.queue|];
                 && r.packetId == 0 && r.size == |r.data|
                 && ReadFresh(0, [Str([], 32767)], r.data)
                    == Some([Str(if |body| <= 32767 then body else [], 32767)])
  {
    hide CanSerialize, Buffer, ReadFresh, AllWithinLimit, CanReceive;
    var body, fields := server.statusBody, StatusResponseFields(server.statusBody);
    StatusResponseFits(body);
    if |body| <= MAX_STRING_LENGTH {
      StatusReceives(body);
      ReadFreshUndoesSerialized(STATUS_RESPONSE_ID, StatusResponseFields([]), fields);
    } else if |body| < HALF {
      LongBodyIsDropped(body);
    }
  }

  lemma StatusReceives(body: seq<u8>)
    ensures CanReceive(Str([], MAX_STRING_LENGTH), Str(body, MAX_STRING_LENGTH))
    ensures AllWithinLimit(StatusResponseFields(body)) <==> |body| <= MAX_STRING_LENGTH
  {
    OneField(0, Str(body, MAX_STRING_LENGTH));
  }

  lemma LongBodyIsDropped(body: seq<u8>)
    requires MAX_STRING_LENGTH < |body| < HALF
    ensures CanSerialize(STATUS_RESPONSE_ID, StatusResponseFields(body))
    ensures ReadFresh(STATUS_RESPONSE_ID, StatusResponseFields([]),
                      Serialized(STATUS_RESPONSE_ID, StatusResponseFields(body)).data) == Some(StatusResponseFields([]))
  {
    hide CanSerialize, Serialized, CountMessage, Written, CountAll, CountEnds, ReadAll, ReadMessage, ReadFresh,
         AllWithinLimit, WireAll, Zeros, PayloadSize, Payload;
    var fields, blank := StatusResponseFields(body), StatusResponseFields([]);
    var counted := 1 + EncodedLength(|body|);
    StatusResponseFits(body);
    OneField(STATUS_RESPONSE_ID, Str(body, MAX_STRING_LENGTH));
    SerializesOver(STATUS_RESPONSE_ID, fields, counted);
    var pad := counted - 2;
    ReadSerialized(STATUS_RESPONSE_ID, blank, fields, []);
    NothingWritten(body);
    ReadZeros(pad, MAX_STRING_LENGTH);
    var data := Serialized(STATUS_RESPONSE_ID, fields).data;
    assert data + [] == data && Zeros(pad) + [] == Zeros(pad) && [] + Zeros(pad) == Zeros(pad);
    ReadFreshIs(STATUS_RESPONSE_ID, blank, data, ReadMessage(Message(0, STATUS_RESPONSE_ID, blank), data));
  }

  lemma NothingWritten(body: seq<u8>)
    requires |body| > MAX_STRING_LENGTH
    ensures WireAll(StatusResponseFields(body)) == []
  {
    assert StatusResponseFields(body)[1..] == [];
  }

  /** The packets that carry nothing to read. In state Status, id 1 is a ping: it goes back with two
      added to its size. In state Login, id 3 says that the client goes on to Configuration. There and
      in Play every packet is accepted and forgotten, as are packets of other ids in these states. */
  lemma OtherPackets(server: Server, s: Session, p: PacketPayload, drawn: seq<u8>)
    ensures s.state.Status? && p.packetId == 1 ==>
              var reply := PacketPayload(p.data, 1, p.size + 2);
              OnPacket(server, s, p, drawn) == Some((s.(queue := s.queue + [reply]), true))
    ensures s.state.Login? && p.packetId == 3 ==>
              OnPacket(server, s, p, drawn) == Some((s.(state := Configuration), true))
    ensures s.state.Configuration? || s.state.Play? ==> OnPacket(server, s, p, drawn) == Some((s, true))
    ensures s.state.Status? && p.packetId > 1 ==> OnPacket(server, s, p, drawn) == Some((s, true))
    ensures s.state.Login? && p.packetId !in {0, 1, 3} ==> OnPacket(server, s, p, drawn) == Some((s, true))
  {
    hide ReadFresh, CanSerialize, Serialized;
  }

  /** A reply puts a LoginSuccess in the queue unless the name that asked is one that makes the writer
      leave its buffer. With a name of at most 16 bytes it reads back, in a fresh packet and whatever
      follows it, as that name and a UUID whose text is the id with its dashes; with one of 128 or
      more it does not read back at all, or without the name. */
  lemma ReplyReadsBack(s: Session, k: nat, id: Simd.Vec256, rest: seq<u8>)
    requires k < |s.pending| && forall i :: 0 <= i < 32 ==> UuidText.IsLower(id[i])
    ensures var name := s.pending[k];
            OnReply(s, k, id).Some? <==> |name| <= 16 || 128 <= |name| < HALF
    ensures OnReply(s, k, id).Some? ==>
              var t, name := OnReply(s, k, id).value, s.pending[k];
              var x := UuidText.TextToM128(UuidText.Dashed(id));
              var blank, fields := [Uuid(NO_UUID), Str([], 16), VarInt(0)], [Uuid(DataOf(x)), Str(name, 16), VarInt(0)];
              && UuidText.Print(x) == UuidText.Dashed(id)
              && CanSerialize(2, fields) && t.queue == s.queue + [Serialized(2, fields)]
              && var p := Serialized(2, fields);
                 && p.packetId == 2
                 && (|name| <= 16 ==>
                       && |Payload(2, fields)| < TWO32
                       && ReadMessage(Message(0, 0, blank), p.data + rest)
                          == Some((Message(|Payload(2, fields)|, 2, fields), p.size)))
                 && (|name| > 16 ==>
                       ReadFresh(2, blank, p.data)
                       == if |name| < 0x4000 then None else Some([Uuid(DataOf(x)), Str([], 16), VarInt(0)]))
  {
    hide UuidText.IsLower, UuidText.TextToM128, UuidText.Dashed, UuidText.Print, DataOf, ReadMessage, ReadFresh,
         CanSerialize, Buffer, AllWithinLimit, Payload;
    var x, name := UuidText.TextToM128(UuidText.Dashed(id)), s.pending[k];
    UuidText.SlimRoundTrip(id);
    LoginSuccessFits(DataOf(x), name);
    if |name| <= 16 {
      SubmaskOfZero(2);
      ReplyReceives(DataOf(x), name);
      ReadFreshUndoesSerialized(LOGIN_SUCCESS_ID, LoginSuccessFields(NO_UUID, []), LoginSuccessFields(DataOf(x), name));
    } else if 128 <= |name| < HALF {
      LongNameIsDropped(DataOf(x), name);
    }
  }

  lemma ReplyReceives(id: UuidBytes, name: seq<u8>)
    ensures var blank, fields := LoginSuccessFields(NO_UUID, []), LoginSuccessFields(id, name);
            |blank| == |fields| && forall i :: 0 <= i < |fields| ==> CanReceive(blank[i], fields[i])
  {
  }

  /** A whole online login, for any client that deciphers rightly: the run is possible, the request
      goes out in clear, the LoginSuccess enciphered, and nothing is left outstanding. */
  lemma OnlineLogin(server: Server, name: seq<u8>, uuid: UuidBytes, drawn: seq<u8>, secret: seq<u8>, token: seq<u8>,
                    id: Simd.Vec256, address: seq<u8>, port: u16, other: seq<u8>)
    requires server.online && |server.publicKey| <= MAX_STRING_LENGTH
    requires |name| <= 16 && |drawn| == |other| == TOKEN_LENGTH && IsToken(drawn) && IsToken(other)
    requires |secret| <= MAX_STRING_LENGTH && |token| <= MAX_STRING_LENGTH && server.decrypt(token) == drawn
    requires |address| <= 32
    requires CanSerialize(HANDSHAKE_ID, HelloFields(PROTOCOL_VERSION, address, port, 2))
    requires CanSerialize(LOGIN_START_ID, [Str(name, 16), Uuid(uuid)])
    requires CanSerialize(ENCRYPTION_RESPONSE_ID, ResponseFields(secret, token))
    ensures CanSerialize(ENCRYPTION_REQUEST_ID, EncryptionRequestFields(server.publicKey, drawn))
    ensures var x := UuidText.TextToM128(UuidText.Dashed(id));
            && CanSerialize(LOGIN_SUCCESS_ID, LoginSuccessFields(DataOf(x), name))
            && var r := Run(server, Start(), [
                 Packet(Serialized(HANDSHAKE_ID, HelloFields(PROTOCOL_VERSION, address, port, 2)), other),
                 Packet(Serialized(LOGIN_START_ID, [Str(name, 16), Uuid(uuid)]), drawn),
                 Send(1),
                 Packet(Serialized(ENCRYPTION_RESPONSE_ID, ResponseFields(secret, token)), other),
                 Reply(0, id),
                 Send(1)]);
               && r.Some? && r.value.key == Some(server.decrypt(secret))
               && r.value.queue == [] && r.value.pending == []
               && r.value.sent == [
                    Sent(Serialized(ENCRYPTION_REQUEST_ID, EncryptionRequestFields(server.publicKey, drawn)), false),
                    Sent(Serialized(LOGIN_SUCCESS_ID, LoginSuccessFields(DataOf(x), name)), true)]
  {
    hide CanSerialize, Serialized, OnPacket, Step, IsToken, Run, UuidText.TextToM128, UuidText.Dashed, DataOf;
    var fields := LoginSuccessFields(DataOf(UuidText.TextToM128(UuidText.Dashed(id))), name);
    LoginSuccessFits(DataOf(UuidText.TextToM128(UuidText.Dashed(id))), name);
    EncryptionRequestFits(server.publicKey, drawn);
    var e0 := Packet(Serialized(HANDSHAKE_ID, HelloFields(PROTOCOL_VERSION, address, port, 2)), other);
    var e1 := Packet(Serialized(LOGIN_START_ID, [Str(name, 16), Uuid(uuid)]), drawn);
    var e3 := Packet(Serialized(ENCRYPTION_RESPONSE_ID, ResponseFields(secret, token)), other);
    var s0 := Start();
    HandshakeReceived(server, s0, PROTOCOL_VERSION, address, port, 2, other);
    var s1 := s0.(state := Login);
    assert [] + drawn == drawn;
    StartIsFrame(name, uuid);
    LoginStartReceived(server, s1, e1.payload, |Payload(LOGIN_START_ID, [Str(name, 16), Uuid(uuid)])|,
                       name, 16, uuid, [], drawn);
    var request := Serialized(ENCRYPTION_REQUEST_ID, EncryptionRequestFields(server.publicKey, drawn));
    var s2 := s1.(username := name, uuid := uuid, starts := 1, verifyToken := drawn, queue := [request]);
    var s3 := s2.(queue := [], sent := [Sent(request, false)]);
    EncryptionResponseReceived(server, s3, secret, token, other);
    var s4 := s3.(encrypted := true, key := Some(server.decrypt(secret)), pending := [name], accepted := 1,
                    due := [name]);
    var success := Serialized(LOGIN_SUCCESS_ID, fields);
    var s5 := s4.(pending := [], queue := [success], made := [Made(ReplyId(id), name)]);
    var s6 := s5.(queue := [], sent := [Sent(request, false), Sent(success, true)]);
    assert [] + [request] == [request] && [] + [name] == [name];
    assert [] + [Sent(request, false)] == [Sent(request, false)];
    assert [] + [Made(ReplyId(id), name)] == [Made(ReplyId(id), name)];
    TakesPacket(server, s0, e0, s1);
    TakesPacket(server, s1, e1, s2);
    SendsOne(server, s2, request);
    TakesPacket(server, s3, e3, s4);
    RepliesToOne(server, s4, name, id);
    SendsOne(server, s5, success);
    assert [Sent(request, false)] + [Sent(success, true)] == [Sent(request, false), Sent(success, true)];
    RunOfSix(server, [e0, e1, Send(1), e3, Reply(0, id), Send(1)], s0, s1, s2, s3, s4, s5, s6);
  }

  lemma StartIsFrame(name: seq<u8>, uuid: UuidBytes)
    requires |name| <= 16 && CanSerialize(LOGIN_START_ID, [Str(name, 16), Uuid(uuid)])
    ensures var fields := [Str(name, 16), Uuid(uuid)];
            && |Payload(LOGIN_START_ID, fields)| < TWO32
            && Serialized(LOGIN_START_ID, fields).packetId == LOGIN_START_ID
            && Serialized(LOGIN_START_ID, fields).data
               == Frame(Message(|Payload(LOGIN_START_ID, fields)|, LOGIN_START_ID, fields)) + []
  {
    hide SizingEnds, Fits, Payload, Frame, Written, AllWithinLimit, CountMessage, PayloadSize, CountAll, CountEnds;
    var fields := [Str(name, 16), Uuid(uuid)];
    TwoFields(LOGIN_START_ID, Str(name, 16), Uuid(uuid));
    SizingIsExact(LOGIN_START_ID, fields);
  }

  lemma TakesPacket(server: Server, s: Session, e: Event, t: Session)
    requires e.Packet? && |e.drawn| == TOKEN_LENGTH && IsToken(e.drawn)
    requires OnPacket(server, s, e.payload, e.drawn) == Some((t, true))
    ensures Step(server, s, e) == Some(t)
  {
    hide OnPacket, IsToken;
  }

  lemma SendsOne(server: Server, s: Session, p: PacketPayload)
    requires s.queue == [p]
    ensures Step(server, s, Send(1)) == Some(s.(queue := [], sent := s.sent + [Sent(p, s.encrypted)]))
  {
    assert [p][1..] == [] && [p][..1] == [p];
    assert SentAll([p], s.encrypted) == [Sent(p, s.encrypted)];
  }

  lemma RepliesToOne(server: Server, s: Session, name: seq<u8>, id: Simd.Vec256)
    requires s.pending == [name] && s.queue == []
    requires CanSerialize(LOGIN_SUCCESS_ID, ReplyFields(id, name))
    ensures Step(server, s, Reply(0, id))
         == Some(s.(pending := [], queue := [Serialized(LOGIN_SUCCESS_ID, ReplyFields(id, name))],
                 made := s.made + [Made(ReplyId(id), name)]))
  {
    hide CanSerialize, Serialized, UuidText.TextToM128, UuidText.Dashed, DataOf, LoginSuccessFields;
    var made := Serialized(LOGIN_SUCCESS_ID, ReplyFields(id, name));
    assert [name][..0] + [name][1..] == [] && [] + [made] == [made];
  }

  lemma RunOfSix(server: Server, es: seq<Event>, s0: Session, s1: Session, s2: Session, s3: Session, s4: Session,
                 s5: Session, s6: Session)
    requires |es| == 6
    requires Step(server, s0, es[0]) == Some(s1) && Step(server, s1, es[1]) == Some(s2)
    requires Step(server, s2, es[2]) == Some(s3) && Step(server, s3, es[3]) == Some(s4)
    requires Step(server, s4, es[4]) == Some(s5) && Step(server, s5, es[5]) == Some(s6)
    ensures Run(server, s0, es) == Some(s6)
  {
    hide Step;
    assert es[1..][1..] == es[2..] && es[2..][1..] == es[3..] && es[3..][1..] == es[4..] && es[4..][1..] == es[5..];
    assert Run(server, s5, es[5..]) == Some(s6);
    assert Run(server, s4, es[4..]) == Some(s6);
    assert Run(server, s3, es[3..]) == Some(s6);
    assert Run(server, s2, es[2..]) == Some(s6);
    assert Run(server, s1, es[1..]) == Some(s6);
  }
}
