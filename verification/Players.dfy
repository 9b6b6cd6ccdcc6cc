/** The player as the program runs it, each method proved against its step of the session. */
module Players {
  import opened Options
  import opened Sequences
  import opened Words
  import opened VarInts
  import opened PacketFields
  import opened PacketCodec
  import opened PacketVisitors
  import opened Packets
  import opened Framing
  import opened ClientConnection
  import UuidText
  import Simd
  import opened UuidWire
  import opened LoginSession

  /** Requests waiting for the authentication server, each with the name it was made for. */
  class RequestQueue {
    var pending: seq<seq<u8>>

    constructor ()
      ensures pending == []
    {
      pending := [];
    }
  }

  class MCPlayer {
    const server: Server
    const m_pConnection: ClientConnection
    const curl: RequestQueue
    var m_state: ClientState
    var m_username: seq<u8>
    var m_uuid: UuidBytes
    var m_verifyToken: seq<u8>
    ghost var starts: nat
    ghost var accepted: nat
    ghost var due: seq<seq<u8>>
    ghost var made: seq<Made>

    ghost function State(): Session
      reads this, m_pConnection, curl
    {
      Session(m_state, m_username, m_uuid, m_verifyToken,
              m_pConnection.m_encryptionEnabled, m_pConnection.m_secret,
              m_pConnection.m_queuedSends, m_pConnection.sent, curl.pending,
              starts, accepted, due, made)
    }

    constructor (server: Server, connection: ClientConnection, curl: RequestQueue)
      requires !connection.m_encryptionEnabled && connection.m_secret == None
      requires connection.m_queuedSends == [] && connection.sent == [] && curl.pending == []
      ensures this.server == server && m_pConnection == connection && this.curl == curl
      ensures State() == Start()
    {
      this.server, m_pConnection, this.curl := server, connection, curl;
      m_state, m_username, m_uuid, m_verifyToken := Handshake, [], NO_UUID, [];
      starts, accepted, due, made := 0, 0, [], [];
    }

    /** Dispatch on the client state; the answer says whether the connection goes on. */
    method ProcessPacket(payload: PacketPayload, drawn: seq<u8>) returns (result: bool)
      requires |drawn| == TOKEN_LENGTH
      requires OnPacket(server, State(), payload, drawn).Some?
      modifies this, curl, m_pConnection`m_queuedSends, m_pConnection`m_encryptionEnabled, m_pConnection`m_secret
      ensures OnPacket(server, old(State()), payload, drawn) == Some((State(), result))
    {
      match m_state
      case Handshake => result := HandleHandshake(payload);
      case Login => result := HandleLogin(payload, drawn);
      case Status => result := HandleStatus(payload);
      case Configuration => result := true;
      case Play => result := true;
    }

    method HandleHandshake(payload: PacketPayload) returns (result: bool)
      requires OnHandshake(State(), payload).Some?
      modifies this
      ensures OnHandshake(old(State()), payload) == Some((State(), result))
    {
      hide ReadFresh;
      var fields := Receive(HANDSHAKE_ID, HandshakeFields(), payload);
      if fields[0].value != PROTOCOL_VERSION {
        return false;
      }
      if fields[3].byte == 1 {
        m_state := Status;
      } else if fields[3].byte == 2 {
        m_state := Login;
      } else {
        return false;
      }
      return true;
    }

    /** A fresh packet read from the payload. */
    method Receive(id: u32, fields: seq<Field>, payload: PacketPayload) returns (read: seq<Field>)
      requires ReadFresh(id, fields, payload.data).Some?
      ensures |read| == |fields| && ReadFresh(id, fields, payload.data) == Some(read)
      ensures forall i :: 0 <= i < |fields| ==> SameShape(fields[i], read[i])
    {
      var packet := new Packet(id, fields);
      var reader := new PacketReader(payload.data, 0);
      assert reader.Ahead() == payload.data;
      packet.ReadPass(reader);
      read := packet.m_fields;
    }

    /** A packet serialised and queued. */
    method Say(id: u32, fields: seq<Field>)
      requires CanSerialize(id, fields)
      modifies m_pConnection`m_queuedSends
      ensures m_pConnection.m_queuedSends == old(m_pConnection.m_queuedSends) + [Serialized(id, fields)]
    {
      var packet := new Packet(id, fields);
      var payload := SerializePacket(packet);
      m_pConnection.QueuePacket(payload);
    }

    method HandleLogin(payload: PacketPayload, drawn: seq<u8>) returns (result: bool)
      requires |drawn| == TOKEN_LENGTH
      requires OnLogin(server, State(), payload, drawn).Some?
      modifies this, curl, m_pConnection`m_queuedSends, m_pConnection`m_encryptionEnabled, m_pConnection`m_secret
      ensures OnLogin(server, old(State()), payload, drawn) == Some((State(), result))
    {
      hide OnLoginStart, OnEncryptionResponse;
      if payload.packetId == LOGIN_START_ID {
        result := HandleLoginStart(payload, drawn);
        return;
      }
      if payload.packetId == ENCRYPTION_RESPONSE_ID {
        result := HandleEncryptionResponse(payload);
        return;
      }
      if payload.packetId == LOGIN_ACK_ID {
        m_state := Configuration;
      }
      return true;
    }

    method HandleLoginStart(payload: PacketPayload, drawn: seq<u8>) returns (result: bool)
      requires |drawn| == TOKEN_LENGTH
      requires OnLoginStart(server, State(), payload, drawn).Some?
      modifies this, m_pConnection`m_queuedSends
      ensures OnLoginStart(server, old(State()), payload, drawn) == Some((State(), result))
    {
      hide ReadFresh, CanSerialize, Serialized, LoginSuccessFields, EncryptionRequestFields;
      var fields := Receive(LOGIN_START_ID, LoginStartFields(), payload);
      m_username := fields[0].text;
      m_uuid := fields[1].data;
      starts := starts + 1;
      if server.online {
        SendEncryptionRequest(drawn);
        return true;
      }
      due, made := due + [m_username], made + [Made(m_uuid, m_username)];
      Say(LOGIN_SUCCESS_ID, LoginSuccessFields(m_uuid, m_username));
      return true;
    }

    method HandleEncryptionResponse(payload: PacketPayload) returns (result: bool)
      requires OnEncryptionResponse(server, State(), payload).Some?
      modifies this, curl, m_pConnection`m_queuedSends, m_pConnection`m_encryptionEnabled, m_pConnection`m_secret
      ensures OnEncryptionResponse(server, old(State()), payload) == Some((State(), result))
    {
      hide ReadFresh;
      var fields := Receive(ENCRYPTION_RESPONSE_ID, EncryptionResponseFields(), payload);
      var sharedSecret, token := server.decrypt(fields[0].text), server.decrypt(fields[1].text);
      if token != m_verifyToken {
        return false;
      }
      m_pConnection.EnableEncryption();
      m_pConnection.SetAESKey(sharedSecret);
      curl.pending := curl.pending + [m_username];
      accepted := accepted + 1;
      due := due + [m_username];
      return true;
    }

    method HandleStatus(payload: PacketPayload) returns (result: bool)
      requires OnStatus(server, State(), payload).Some?
      modifies m_pConnection`m_queuedSends
      ensures OnStatus(server, old(State()), payload) == Some((State(), result))
    {
      hide CanSerialize, Serialized;
      if payload.packetId == 0 {
        Say(STATUS_RESPONSE_ID, StatusResponseFields(server.statusBody));
      }
      if payload.packetId == 1 {
        m_pConnection.QueuePacket(payload.(size := payload.size + 2));
      }
      return true;
    }

    /** Appends the characters drawn to the token, one by one, and queues the request for it. */
    method SendEncryptionRequest(drawn: seq<u8>)
      requires |drawn| == TOKEN_LENGTH
      requires CanSerialize(ENCRYPTION_REQUEST_ID, EncryptionRequestFields(server.publicKey, m_verifyToken + drawn))
      modifies this`m_verifyToken, m_pConnection`m_queuedSends
      ensures m_verifyToken == old(m_verifyToken) + drawn
      ensures m_pConnection.m_queuedSends == old(m_pConnection.m_queuedSends)
           + [Serialized(ENCRYPTION_REQUEST_ID, EncryptionRequestFields(server.publicKey, m_verifyToken))]
    {
      hide CanSerialize, Serialized;
      for i := 0 to TOKEN_LENGTH
        invariant m_verifyToken == old(m_verifyToken) + drawn[..i]
        invariant m_pConnection.m_queuedSends == old(m_pConnection.m_queuedSends)
      {
        assert drawn[..i + 1] == drawn[..i] + [drawn[i]];
        m_verifyToken := m_verifyToken + [drawn[i]];
      }
      assert drawn[..TOKEN_LENGTH] == drawn;
      Say(ENCRYPTION_REQUEST_ID, EncryptionRequestFields(server.publicKey, m_verifyToken));
    }

    /** The callback of the k-th request outstanding. */
    method OnAuthenticated(k: nat, id: Simd.Vec256)
      requires k < |curl.pending| && OnReply(State(), k, id).Some?
      modifies this`made, m_pConnection`m_queuedSends, curl
      ensures OnReply(old(State()), k, id) == Some(State())
    {
      hide CanSerialize, Serialized, UuidText.TextToM128, UuidText.Dashed;
      var full := UuidText.ConvertSlimToFullUUID(id);
      var username := curl.pending[k];
      curl.pending := curl.pending[..k] + curl.pending[k + 1..];
      made := made + [Made(DataOf(UuidText.TextToM128(full)), username)];
      Say(LOGIN_SUCCESS_ID, LoginSuccessFields(DataOf(UuidText.TextToM128(full)), username));
    }

    /** The connection's drain of its queue, seen as a step of the session. */
    method Drain(link: Answers, after: seq<seq<u8>>) returns (success: bool)
      requires m_pConnection.Valid() && Reach(m_pConnection.m_queuedSends, after)
      modifies m_pConnection
      ensures exists n: nat :: n <= |old(State()).queue| && State() == OnSend(old(State()), n)
      ensures success ==> State() == OnSend(old(State()), |old(State()).queue|)
    {
      var wire;
      success, wire := m_pConnection.SendQueuedPackets(link, after);
      assert State() == OnSend(old(State()), |wire|);
    }

    /** One chunk received, decrypted at once if encryption is on at that time: every frame goes to
        the player itself, until it refuses one, which stops the socket. */
    method NetworkTick(buffer: seq<u8>, totalSize: nat, beyond: seq<u8>, draws: seq<seq<u8>>)
      returns (frames: seq<PacketPayload>, answers: Answers)
      requires m_pConnection.Valid() && totalSize <= |buffer| && totalSize <= |draws| && AllTokens(draws)
      requires Tick(server, State(), m_pConnection.Plain(buffer, totalSize, beyond), 0, totalSize, draws).Some?
      modifies this, m_pConnection, curl
      ensures Tick(server, old(State()), old(m_pConnection.Plain(buffer, totalSize, beyond)), 0, totalSize, draws)
           == Some(Ticked(State(), frames, answers))
      ensures m_pConnection.m_socketOpen
           == (old(m_pConnection.m_socketOpen) && (answers == [] || answers[|answers| - 1]))
      ensures forall ms :: old(m_pConnection.Carries(buffer, totalSize, ms)) && |ms| <= |draws| ==>
                var handed := Handed(server, old(State()), PayloadsOf(ms), draws[..|ms|]);
                handed.Some? ==>
                  && (State(), answers) == handed.value
                  && |answers| <= |ms| && frames == PayloadsOf(ms)[..|answers|]
    {
      hide *;
      var memory := m_pConnection.Plain(buffer, totalSize, beyond);
      forall ms | m_pConnection.Carries(buffer, totalSize, ms) && |ms| <= |draws|
                  && Handed(server, State(), PayloadsOf(ms), draws[..|ms|]).Some?
        ensures var (t, said) := Handed(server, State(), PayloadsOf(ms), draws[..|ms|]).value;
                && |said| <= |ms|
                && Tick(server, State(), memory, 0, totalSize, draws)
                   == Some(Ticked(t, PayloadsOf(ms)[..|said|], said))
      {
        m_pConnection.PlainStartsSo(buffer, totalSize, beyond, ms);
        m_pConnection.CarriesAll(buffer, totalSize, ms);
        TickAhead(server, State(), ms, memory, draws);
      }
      frames, answers := HandOnAll(memory, totalSize, draws);
    }

    /** The loop of the receiving callback, over what it takes for the chunk in clear. */
    method HandOnAll(memory: seq<u8>, totalSize: nat, draws: seq<seq<u8>>)
      returns (frames: seq<PacketPayload>, answers: Answers)
      requires totalSize <= |draws| && AllTokens(draws)
      requires Tick(server, State(), memory, 0, totalSize, draws).Some?
      modifies this, m_pConnection, curl
      ensures Tick(server, old(State()), memory, 0, totalSize, draws) == Some(Ticked(State(), frames, answers))
      ensures m_pConnection.m_socketOpen
           == (old(m_pConnection.m_socketOpen) && (answers == [] || answers[|answers| - 1]))
    {
      hide NextFrame, OnPacket, Tick, AllTokens, IsToken;
      ghost var whole := Tick(server, State(), memory, 0, totalSize, draws);
      var start, totalOffset := 0, 0;
      frames, answers := [], [];
      assert memory[0..] == memory && draws[0..] == draws;
      BeforeTick(whole.value);
      while totalOffset < totalSize
        invariant start == totalOffset <= |memory| && |frames| <= |draws|
        invariant totalOffset + |draws[|frames|..]| >= totalSize
        invariant AllTokens(draws[|frames|..])
        invariant Continues(whole, frames, answers,
                            Tick(server, State(), memory[start..], totalOffset, totalSize, draws[|frames|..]))
        invariant m_pConnection.m_socketOpen == old(m_pConnection.m_socketOpen)
        invariant answers != [] ==> answers[|answers| - 1]
      {
        var ahead, left := memory[start..], draws[|frames|..];
        TickTurn(server, State(), ahead, totalOffset, totalSize, left);
        var payload := ReadUnencryptedPacket(memory, start, totalSize);
        if payload.None? {
          AfterTick(whole.value, frames, answers, State());
          return;
        }
        var p := payload.value;
        TokenFirst(left);
        start := start + p.size;
        totalOffset := totalOffset + p.size;
        ghost var before := State();
        var result := ProcessPacket(p, left[0]);
        TickOn(whole, frames, answers, server, before, ahead, start - p.size, totalSize, left, p);
        frames, answers := frames + [p], answers + [result];
        if !result {
          m_pConnection.m_socketOpen := false;
          return;
        }
        DropDrop(memory, start - p.size, p.size);
        assert left[1..] == draws[|frames|..];
      }
      TickTurn(server, State(), memory[start..], totalOffset, totalSize, draws[|frames|..]);
      AfterTick(whole.value, frames, answers, State());
    }
  }

  lemma TickAhead(server: Server, s: Session, ms: seq<Message>, memory: seq<u8>, draws: seq<seq<u8>>)
    requires AllSized(ms) && Chunk(ms) <= memory && |Chunk(ms)| <= |draws| && |ms| <= |draws|
    requires Handed(server, s, PayloadsOf(ms), draws[..|ms|]).Some?
    ensures var (t, said) := Handed(server, s, PayloadsOf(ms), draws[..|ms|]).value;
            && |said| <= |ms|
            && Tick(server, s, memory, 0, |Chunk(ms)|, draws) == Some(Ticked(t, PayloadsOf(ms)[..|said|], said))
  {
    hide *;
    var rest := memory[|Chunk(ms)|..];
    assert memory == Chunk(ms) + rest;
    ChunkStarts(ms, rest);
    TickOfWholeFrames(server, s, ms, memory, 0, |Chunk(ms)|, draws);
  }

  /** The loop has handed over these frames and has `rest` before it. */
  ghost predicate Continues(whole: Option<Ticked>, frames: seq<PacketPayload>, answers: Answers, rest: Option<Ticked>) {
    && rest.Some?
    && whole == Some(Ticked(rest.value.session, frames + rest.value.frames, answers + rest.value.answers))
  }

  lemma BeforeTick(r: Ticked)
    ensures Continues(Some(r), [], [], Some(r))
  {
    assert [] + r.frames == r.frames && [] + r.answers == r.answers;
  }

  lemma AfterTick(r: Ticked, frames: seq<PacketPayload>, answers: Answers, s: Session)
    requires Continues(Some(r), frames, answers, Some(Ticked(s, [], [])))
    ensures r == Ticked(s, frames, answers)
  {
    assert frames + [] == frames && answers + [] == answers;
  }

  /** What the loop does next, and that it can. */
  lemma TickTurn(server: Server, s: Session, memory: seq<u8>, offset: nat, total: nat, draws: seq<seq<u8>>)
    requires offset + |draws| >= total && Tick(server, s, memory, offset, total, draws).Some?
    ensures offset >= total ==> Tick(server, s, memory, offset, total, draws) == Some(Ticked(s, [], []))
    ensures offset < total ==>
              var c := NextFrame(memory, total);
              && !c.Undefined?
              && (c.Oversized? ==> Tick(server, s, memory, offset, total, draws) == Some(Ticked(s, [], [])))
              && (c.Found? ==> OnPacket(server, s, c.payload, draws[0]).Some?)
  {
    hide NextFrame, OnPacket;
  }

  lemma TickOn(whole: Option<Ticked>, frames: seq<PacketPayload>, answers: Answers,
               server: Server, s: Session, memory: seq<u8>, offset: nat, total: nat, draws: seq<seq<u8>>,
               p: PacketPayload)
    requires offset < total && offset + |draws| >= total
    requires Continues(whole, frames, answers, Tick(server, s, memory, offset, total, draws))
    requires NextFrame(memory, total) == Found(p)
    requires OnPacket(server, s, p, draws[0]).Some?
    ensures var (t, ok) := OnPacket(server, s, p, draws[0]).value;
            && (!ok ==> whole == Some(Ticked(t, frames + [p], answers + [false])))
            && (ok ==> Continues(whole, frames + [p], answers + [true],
                                 Tick(server, t, memory[p.size..], offset + p.size, total, draws[1..])))
  {
    hide NextFrame, OnPacket;
    var (t, ok) := OnPacket(server, s, p, draws[0]).value;
    if ok {
      var rest := Tick(server, t, memory[p.size..], offset + p.size, total, draws[1..]).value;
      Associate(frames, [p], rest.frames);
      Associate(answers, [true], rest.answers);
    }
  }
}
