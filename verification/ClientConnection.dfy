/** The connection of a client: the receiving loop over one chunk, the queue of packets to send and
    the switch to encryption. */
module ClientConnection {
  import opened Options
  import opened Sequences
  import opened Words
  import opened VarInts
  import opened PacketFields
  import opened PacketCodec
  import opened PacketVisitors
  import opened Packets
  import opened Framing

  /** The cipher of the connection, a library matter: all that is used of it is that plain text is
      as long as cipher text. The first argument is the key. */
  datatype Cipher = Cipher(encrypt: (seq<u8>, seq<u8>) -> seq<u8>, decrypt: (seq<u8>, seq<u8>) -> seq<u8>)

  /** Whoever the frames are for; `answers` is what it is going to say. */
  class PacketHandler {
    var seen: seq<PacketPayload>
    var answers: Answers

    constructor (answers: Answers)
      ensures seen == [] && this.answers == answers
    {
      this.seen, this.answers := [], answers;
    }

    method ProcessPacket(payload: PacketPayload) returns (result: bool)
      modifies this
      ensures seen == old(seen) + [payload]
      ensures answers == Later(old(answers)) && result == !Refuses(old(answers))
    {
      seen := seen + [payload];
      result := !Refuses(answers);
      answers := Later(answers);
    }
  }

  /** One frame from the current position, or nothing if it claims more than the chunk's size. */
  method ReadUnencryptedPacket(memory: seq<u8>, start: nat, maxSize: nat)
    returns (payload: Option<PacketPayload>)
    requires start <= |memory| && !NextFrame(memory[start..], maxSize).Undefined?
    ensures NextFrame(memory[start..], maxSize)
         == (match payload case None => Oversized case Some(p) => Found(p))
  {
    hide Parse, Received, Read, Count, EncodedLength;
    var reader := new PacketReader(memory, start);
    var payloadSize := reader.OnVarInt(0);
    var sizer := new PacketSizeCalc();
    sizer.OnVarInt(payloadSize);
    CountFirst(payloadSize);
    var packetId := reader.OnVarInt(0);
    var finalPayloadSize := Wrap32(payloadSize + sizer.m_currentSize);
    if finalPayloadSize > maxSize {
      return None;
    }
    assert memory[start..][..finalPayloadSize] == memory[start..start + finalPayloadSize];
    return Some(PacketPayload(memory[start..start + finalPayloadSize], packetId, finalPayloadSize));
  }

  /** A packet handed to the socket, and whether it went through the cipher. */
  datatype Sent = Sent(payload: PacketPayload, encrypted: bool)

  function SentAll(ps: seq<PacketPayload>, encrypted: bool): (r: seq<Sent>)
    ensures |r| == |ps| && forall i :: 0 <= i < |ps| ==> r[i] == Sent(ps[i], encrypted)
  {
    seq(|ps|, i requires 0 <= i < |ps| => Sent(ps[i], encrypted))
  }

  lemma SentNone(ps: seq<PacketPayload>, encrypted: bool)
    ensures SentAll(ps[..0], encrypted) == []
  {
  }

  lemma SentOneMore(ps: seq<PacketPayload>, n: nat, encrypted: bool)
    requires n < |ps|
    ensures SentAll(ps[..n + 1], encrypted) == SentAll(ps[..n], encrypted) + [Sent(ps[n], encrypted)]
  {
  }

  /** There is memory for the size of every payload. */
  predicate Reach(ps: seq<PacketPayload>, after: seq<seq<u8>>) {
    |after| == |ps| && forall i :: 0 <= i < |ps| ==> ps[i].size <= |ps[i].data| + |after[i]|
  }

  class ClientConnection {
    const cipher: Cipher
    var m_encryptionEnabled: bool
    var m_secret: Option<seq<u8>>
    var m_queuedSends: seq<PacketPayload>
    var m_socketOpen: bool
    /** All that was ever handed to the socket. */
    ghost var sent: seq<Sent>

    /** There is a key to use once encryption is on. */
    ghost predicate Valid() reads this`m_encryptionEnabled, this`m_secret {
      m_encryptionEnabled ==> m_secret.Some?
    }

    constructor (cipher: Cipher)
      ensures Valid() && this.cipher == cipher
      ensures !m_encryptionEnabled && m_secret.None? && m_queuedSends == [] && m_socketOpen && sent == []
    {
      this.cipher := cipher;
      m_encryptionEnabled, m_secret, m_queuedSends, m_socketOpen, sent := false, None, [], true, [];
    }

    /** The memory the receiving loop walks: the receive buffer, or a fresh block holding the chunk
        decrypted, with whatever follows that block. */
    function Plain(buffer: seq<u8>, totalSize: nat, beyond: seq<u8>): seq<u8>
      requires Valid() && totalSize <= |buffer|
      reads this
    {
      if m_encryptionEnabled then cipher.decrypt(m_secret.value, buffer[..totalSize]) + beyond
      else buffer
    }

    /** The first n bytes received are these packets, enciphered if encryption is on. */
    ghost predicate Carries(buffer: seq<u8>, n: nat, ms: seq<Message>)
      requires Valid() && n <= |buffer|
      reads this
    {
      && AllSized(ms) && |Chunk(ms)| == n
      && Chunk(ms) == if m_encryptionEnabled then cipher.decrypt(m_secret.value, buffer[..n]) else buffer[..n]
    }

    lemma CarriesAll(buffer: seq<u8>, n: nat, ms: seq<Message>)
      requires Valid() && n <= |buffer| && Carries(buffer, n, ms)
      ensures AllSized(ms) && |Chunk(ms)| == n
    {
    }

    lemma PlainStartsSo(buffer: seq<u8>, n: nat, beyond: seq<u8>, ms: seq<Message>)
      requires Valid() && n <= |buffer| && Carries(buffer, n, ms)
      ensures Chunk(ms) <= Plain(buffer, n, beyond)
    {
      hide AllSized, Chunk;
    }

    /** One turn of the receiving loop: the next frame, if there is one, goes to the handler, whose
        refusal stops the socket. */
    method HandOn(memory: seq<u8>, start: nat, totalSize: nat, handler: PacketHandler)
      returns (n: nat, goOn: bool)
      requires start <= |memory| && !NextFrame(memory[start..], totalSize).Undefined?
      modifies handler, this`m_socketOpen
      ensures NextFrame(memory[start..], totalSize).Oversized? ==>
                && n == 0 && !goOn && m_socketOpen == old(m_socketOpen)
                && handler.seen == old(handler.seen) && handler.answers == old(handler.answers)
      ensures NextFrame(memory[start..], totalSize).Found? ==>
                var p := NextFrame(memory[start..], totalSize).payload;
                && n == p.size && goOn == !Refuses(old(handler.answers))
                && m_socketOpen == (old(m_socketOpen) && goOn)
                && handler.seen == old(handler.seen) + [p] && handler.answers == Later(old(handler.answers))
    {
      var payload := ReadUnencryptedPacket(memory, start, totalSize);
      hide *;
      if payload.None? {
        return 0, false;
      }
      n := payload.value.size;
      goOn := handler.ProcessPacket(payload.value);
      if !goOn {
        m_socketOpen := false;
      }
    }

    /** Keeps processing packets until the whole chunk is used up, a frame is too large for the
        chunk, or the handler refuses one. */
    method RecvPackets(buffer: seq<u8>, totalSize: nat, beyond: seq<u8>, handler: PacketHandler)
      returns (totalOffset: nat)
      requires Valid() && totalSize <= |buffer|
      requires Defined(Plain(buffer, totalSize, beyond), 0, totalSize, handler.answers)
      modifies handler, this`m_socketOpen
      ensures var r := Deliver(old(Plain(buffer, totalSize, beyond)), 0, totalSize, old(handler.answers));
              && handler.seen == old(handler.seen) + r.frames
              && totalOffset == r.taken
              && m_socketOpen == (old(m_socketOpen) && !r.stopped)
      ensures forall ms :: old(Carries(buffer, totalSize, ms)) ==>
                var r := Expected(ms, old(handler.answers));
                && handler.seen == old(handler.seen) + r.frames
                && totalOffset == r.taken
                && m_socketOpen == (old(m_socketOpen) && !r.stopped)
    {
      hide *;
      forall ms | Carries(buffer, totalSize, ms)
        ensures Deliver(Plain(buffer, totalSize, beyond), 0, totalSize, handler.answers)
             == Expected(ms, handler.answers)
      {
        PlainStartsSo(buffer, totalSize, beyond, ms);
        CarriesAll(buffer, totalSize, ms);
        WholeFramesAhead(ms, Plain(buffer, totalSize, beyond), handler.answers);
      }
      var memory := Plain(buffer, totalSize, beyond);
      ghost var whole := Deliver(memory, 0, totalSize, handler.answers);
      ghost var rest := whole;
      var start, goOn := 0, true;
      totalOffset := 0;
      assert memory[0..] == memory;
      while totalOffset < totalSize
        invariant start == totalOffset <= |memory|
        invariant Defined(memory[start..], totalOffset, totalSize, handler.answers)
        invariant rest == Deliver(memory[start..], totalOffset, totalSize, handler.answers)
        invariant handler.seen + rest.frames == old(handler.seen) + whole.frames
        invariant whole.taken == totalOffset + rest.taken && whole.stopped == rest.stopped
        invariant m_socketOpen == old(m_socketOpen) && goOn
      {
        Turn(memory[start..], totalOffset, totalSize, handler.answers);
        var n: nat;
        n, goOn := HandOn(memory, start, totalSize, handler);
        DropDrop(memory, start, n);
        start := start + n;
        totalOffset := totalOffset + n;
        if !goOn {
          break;
        }
        rest := Deliver(memory[start..], totalOffset, totalSize, handler.answers);
      }
      if goOn {
        Turn(memory[start..], totalOffset, totalSize, handler.answers);
      }
    }

    method QueuePacket(payload: PacketPayload)
      modifies this`m_queuedSends
      ensures m_queuedSends == old(m_queuedSends) + [payload]
    {
      m_queuedSends := m_queuedSends + [payload];
    }

    method EnableEncryption()
      modifies this`m_encryptionEnabled
      ensures m_encryptionEnabled
    {
      m_encryptionEnabled := true;
    }

    method SetAESKey(key: seq<u8>)
      modifies this`m_secret
      ensures m_secret == Some(key)
    {
      m_secret := Some(key);
    }

    /** The bytes that leave for a payload, as many as its size says; `after` is what lies in memory
        behind its own. */
    function OnWire(payload: PacketPayload, after: seq<u8>): (bytes: seq<u8>)
      requires Valid() && payload.size <= |payload.data| + |after|
      reads this`m_encryptionEnabled, this`m_secret
      ensures payload.size == |payload.data| ==>
                bytes == if m_encryptionEnabled then cipher.encrypt(m_secret.value, payload.data) else payload.data
    {
      TakePrefix(payload.data, after);
      var plain := (payload.data + after)[..payload.size];
      if m_encryptionEnabled then cipher.encrypt(m_secret.value, plain) else plain
    }

    /** The first payload of the queue is handed to the socket. */
    method SendFirst(after: seq<u8>) returns (bytes: seq<u8>)
      requires Valid() && m_queuedSends != [] && m_queuedSends[0].size <= |m_queuedSends[0].data| + |after|
      modifies this`m_queuedSends, this`sent
      ensures bytes == OnWire(old(m_queuedSends[0]), after)
      ensures m_queuedSends == old(m_queuedSends)[1..]
      ensures sent == old(sent) + [Sent(old(m_queuedSends[0]), m_encryptionEnabled)]
    {
      var payload := m_queuedSends[0];
      m_queuedSends := m_queuedSends[1..];
      bytes := OnWire(payload, after);
      sent := sent + [Sent(payload, m_encryptionEnabled)];
    }

    /** Drains the queue until the socket fails; `link` is what the socket answers, `after` what lies
        in memory behind each payload. What is taken off is a prefix of the queue, in order, and goes
        out enciphered exactly if encryption is on. */
    method SendQueuedPackets(link: Answers, after: seq<seq<u8>>) returns (success: bool, wire: seq<seq<u8>>)
      requires Valid() && Reach(m_queuedSends, after)
      modifies this`m_queuedSends, this`sent, this`m_socketOpen
      ensures |wire| <= |old(m_queuedSends)| && m_queuedSends == old(m_queuedSends)[|wire|..]
      ensures forall i :: 0 <= i < |wire| ==> wire[i] == OnWire(old(m_queuedSends)[i], after[i])
      ensures sent == old(sent) + SentAll(old(m_queuedSends)[..|wire|], m_encryptionEnabled)
      ensures success ==> m_queuedSends == [] && m_socketOpen == old(m_socketOpen)
      ensures !success ==> 0 < |wire| <= |link| && !link[|wire| - 1] && !m_socketOpen
      ensures forall i :: 0 <= i < |link| && i < (if success then |wire| else |wire| - 1) ==> link[i]
    {
      hide SentAll, OnWire, Valid;
      SentNone(m_queuedSends, m_encryptionEnabled);
      wire := [];
      var n := 0;
      while m_queuedSends != []
        invariant n == |wire| <= |old(m_queuedSends)| && m_queuedSends == old(m_queuedSends)[n..]
        invariant forall i :: 0 <= i < n ==> wire[i] == OnWire(old(m_queuedSends)[i], after[i])
        invariant sent == old(sent) + SentAll(old(m_queuedSends)[..n], m_encryptionEnabled)
        invariant forall i :: 0 <= i < n && i < |link| ==> link[i]
        invariant m_socketOpen == old(m_socketOpen)
        decreases |m_queuedSends|
      {
        DropDrop(old(m_queuedSends), n, 1);
        SentOneMore(old(m_queuedSends), n, m_encryptionEnabled);
        var bytes := SendFirst(after[n]);
        wire := wire + [bytes];
        n := n + 1;
        if n <= |link| && !link[n - 1] {
          m_socketOpen := false;
          return false, wire;
        }
      }
      return true, wire;
    }
  }

  /** A payload whose size claims more than its bytes takes the memory behind with it: a ping reply, two
      bytes of it. */
  lemma PingOnWire(connection: ClientConnection, p: PacketPayload, after: seq<u8>)
    requires connection.Valid() && p.size == |p.data| && |after| >= 2
    ensures var bytes, reply := p.data + after[..2], p.(size := p.size + 2);
            connection.OnWire(reply, after)
            == if connection.m_encryptionEnabled then connection.cipher.encrypt(connection.m_secret.value, bytes)
               else bytes
  {
    assert (p.data + after)[..|p.data| + 2] == p.data + after[..2];
  }
}
