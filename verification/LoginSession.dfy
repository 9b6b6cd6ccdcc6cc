/** One player's session as a state machine over its steps: a packet handed to the player, packets
    sent from the queue, and the reply to an authentication request. */
module LoginSession {
  import opened Options
  import opened Sequences
  import opened Words
  import opened VarInts
  import opened PacketFields
  import opened PacketCodec
  import opened PacketVisitors
  import opened Packets
  import opened Framing
  import opened ClientConnection
  import UuidText
  import Simd
  import opened UuidWire

  const PROTOCOL_VERSION: u32 := 772
  const MAX_STRING_LENGTH: u32 := 32767
  const TOKEN_LENGTH: nat := 64
  const CHARACTERS: string := "0123456789" + "ABCDEFGHIJKLMNOPQRSTUVWXYZ" + "abcdefghijklmnopqrstuvwxyz"

  datatype ClientState = Handshake | Status | Login | Configuration | Play

  /** What the session takes from the rest of the server. */
  datatype Server = Server(online: bool, publicKey: seq<u8>, decrypt: seq<u8> -> seq<u8>, statusBody: seq<u8>)

  /** A LoginSuccess made: for whom, with which UUID. */
  datatype Made = Made(id: UuidBytes, name: seq<u8>)

  /** The state of player, connection and request queue. The last members record: the LoginStart packets
      handled, the EncryptionResponse packets accepted, the names for which a LoginSuccess fell due, and
      those made. */
  datatype Session = Session(
    state: ClientState, username: seq<u8>, uuid: UuidBytes, verifyToken: seq<u8>,
    encrypted: bool, key: Option<seq<u8>>,
    queue: seq<PacketPayload>, sent: seq<Sent>, pending: seq<seq<u8>>,
    starts: nat, accepted: nat, due: seq<seq<u8>>, made: seq<Made>)

  const NO_UUID: UuidBytes := [0, 0, 0, 0, 0, 0, 0, 0, 0, 0, 0, 0, 0, 0, 0, 0]

  function Start(): Session {
    Session(Handshake, [], NO_UUID, [], false, None, [], [], [], 0, 0, [], [])
  }

  // ---- Packets ----

  const HANDSHAKE_ID: u32 := 0
  const LOGIN_START_ID: u32 := 0
  const STATUS_RESPONSE_ID: u32 := 0
  const ENCRYPTION_REQUEST_ID: u32 := 1
  const ENCRYPTION_RESPONSE_ID: u32 := 1
  const LOGIN_SUCCESS_ID: u32 := 2
  const LOGIN_ACK_ID: u32 := 3

  function HandshakeFields(): seq<Field> {
    [VarInt(0), Str([], 32), Short(0), U8(0)]
  }

  function LoginStartFields(): seq<Field> {
    [Str([], 16), Uuid(NO_UUID)]
  }

  function EncryptionResponseFields(): seq<Field> {
    [Str([], MAX_STRING_LENGTH), Str([], MAX_STRING_LENGTH)]
  }

  function EncryptionRequestFields(publicKey: seq<u8>, token: seq<u8>): seq<Field> {
    [Str([], 20), Str(publicKey, MAX_STRING_LENGTH), Str(token, MAX_STRING_LENGTH)]
  }

  /** The properties are not written; a zero count stands for them. */
  function LoginSuccessFields(id: UuidBytes, username: seq<u8>): seq<Field> {
    [Uuid(id), Str(username, 16), VarInt(0)]
  }

  function StatusResponseFields(body: seq<u8>): seq<Field> {
    [Str(body, MAX_STRING_LENGTH)]
  }

  /** The fields a fresh packet has after it was read from the payload's bytes. */
  function ReadFresh(id: u32, fields: seq<Field>, data: seq<u8>): (r: Option<seq<Field>>)
    ensures r.Some? ==> |r.value| == |fields| && forall i :: 0 <= i < |fields| ==> SameShape(fields[i], r.value[i])
  {
    var m := ReadMessage(Message(0, id, fields), data);
    if m.None? then None
    else
      ReadMessageKeepsShapes(Message(0, id, fields), data);
      Some(m.value.0.fields)
  }

  lemma ReadMessageKeepsShapes(d: Message, s: seq<u8>)
    requires ReadMessage(d, s).Some?
    ensures var fs := ReadMessage(d, s).value.0.fields;
            |fs| == |d.fields| && forall i :: 0 <= i < |fs| ==> SameShape(d.fields[i], fs[i])
  {
    hide Parse, Received, ReadAll, SameShape;
    var p := Parse(s, MAX_GROUPS).value;
    var q := Parse(s[p.len..], MAX_GROUPS).value;
    ReadKeepsShapes(d.fields, s[p.len..][q.len..]);
  }

  /** Sizing the packet ends and writing it stays inside the buffer. */
  predicate CanSerialize(id: u32, fields: seq<Field>) {
    SizingEnds(id, fields) && Fits(id, fields)
  }

  function Serialized(id: u32, fields: seq<Field>): PacketPayload
    requires CanSerialize(id, fields)
  {
    PacketPayload(Buffer(id, fields), id, |Buffer(id, fields)|)
  }

  // ---- Steps ----

  /** None where the program's behaviour is not defined: a read that leaves the payload, a packet
      whose sizing does not end, a store outside the buffer. Otherwise the new state and what the
      handler answers. */
  type Outcome = Option<(Session, bool)>

  function OnHandshake(s: Session, p: PacketPayload): Outcome {
    var fs := ReadFresh(HANDSHAKE_ID, HandshakeFields(), p.data);
    if fs.None? then None
    else if fs.value[0].value != PROTOCOL_VERSION then Some((s, false))
    else if fs.value[3].byte == 1 then Some((s.(state := Status), true))
    else if fs.value[3].byte == 2 then Some((s.(state := Login), true))
    else Some((s, false))
  }

  function Queued(s: Session, id: u32, fields: seq<Field>): Outcome {
    if CanSerialize(id, fields) then Some((s.(queue := s.queue + [Serialized(id, fields)]), true)) else None
  }

  function OnLoginStart(server: Server, s: Session, p: PacketPayload, drawn: seq<u8>): Outcome {
    var fs := ReadFresh(LOGIN_START_ID, LoginStartFields(), p.data);
    if fs.None? then None
    else
      var t := s.(username := fs.value[0].text, uuid := fs.value[1].data, starts := s.starts + 1);
      if server.online then
        var token := s.verifyToken + drawn;
        Queued(t.(verifyToken := token), ENCRYPTION_REQUEST_ID, EncryptionRequestFields(server.publicKey, token))
      else
        Queued(t.(due := t.due + [t.username], made := t.made + [Made(t.uuid, t.username)]),
               LOGIN_SUCCESS_ID, LoginSuccessFields(t.uuid, t.username))
  }

  function OnEncryptionResponse(server: Server, s: Session, p: PacketPayload): Outcome {
    var fs := ReadFresh(ENCRYPTION_RESPONSE_ID, EncryptionResponseFields(), p.data);
    if fs.None? then None
    else
      var secret, token := server.decrypt(fs.value[0].text), server.decrypt(fs.value[1].text);
      if token != s.verifyToken then Some((s, false))
      else Some((s.(encrypted := true, key := Some(secret), pending := s.pending + [s.username],
                    accepted := s.accepted + 1, due := s.due + [s.username]), true))
  }

  function OnLogin(server: Server, s: Session, p: PacketPayload, drawn: seq<u8>): Outcome {
    if p.packetId == LOGIN_START_ID then OnLoginStart(server, s, p, drawn)
    else if p.packetId == ENCRYPTION_RESPONSE_ID then OnEncryptionResponse(server, s, p)
    else if p.packetId == LOGIN_ACK_ID then Some((s.(state := Configuration), true))
    else Some((s, true))
  }

  function OnStatus(server: Server, s: Session, p: PacketPayload): Outcome {
    if p.packetId == 0 then Queued(s, STATUS_RESPONSE_ID, StatusResponseFields(server.statusBody))
    else if p.packetId == 1 then Some((s.(queue := s.queue + [p.(size := p.size + 2)]), true))
    else Some((s, true))
  }

  /** `drawn` is what the random generator yields should a verify token be made. */
  function OnPacket(server: Server, s: Session, p: PacketPayload, drawn: seq<u8>): Outcome {
    match s.state
    case Handshake => OnHandshake(s, p)
    case Login => OnLogin(server, s, p, drawn)
    case Status => OnStatus(server, s, p)
    case Configuration => Some((s, true))
    case Play => Some((s, true))
  }

  /** The first n packets of the queue go to the socket. */
  function OnSend(s: Session, n: nat): Session
    requires n <= |s.queue|
  {
    s.(queue := s.queue[n..], sent := s.sent + SentAll(s.queue[..n], s.encrypted))
  }

  /** The UUID for an id of 32 characters without dashes. */
  function ReplyId(id: Simd.Vec256): UuidBytes {
    DataOf(UuidText.TextToM128(UuidText.Dashed(id)))
  }

  /** What is said to a player whose name was answered with this id. */
  function ReplyFields(id: Simd.Vec256, name: seq<u8>): seq<Field> {
    LoginSuccessFields(ReplyId(id), name)
  }

  /** The k-th request outstanding is answered with this id, 32 characters without dashes. */
  function OnReply(s: Session, k: nat, id: Simd.Vec256): Option<Session>
    requires k < |s.pending|
  {
    var fields := ReplyFields(id, s.pending[k]);
    if CanSerialize(LOGIN_SUCCESS_ID, fields) then
      Some(s.(pending := s.pending[..k] + s.pending[k + 1..],
              queue := s.queue + [Serialized(LOGIN_SUCCESS_ID, fields)],
              made := s.made + [Made(ReplyId(id), s.pending[k])]))
    else None
  }

  datatype Event =
    | Packet(payload: PacketPayload, drawn: seq<u8>)
    | Send(n: nat)
    | Reply(k: nat, id: Simd.Vec256)

  predicate IsToken(t: seq<u8>) {
    forall i :: 0 <= i < |t| ==> t[i] as char in CHARACTERS
  }

  function Step(server: Server, s: Session, e: Event): Option<Session> {
    match e
    case Packet(p, drawn) =>
      if |drawn| != TOKEN_LENGTH || !IsToken(drawn) then None
      else
        var r := OnPacket(server, s, p, drawn);
        if r.None? then None else Some(r.value.0)
    case Send(n) => if n <= |s.queue| then Some(OnSend(s, n)) else None
    case Reply(k, id) => if k < |s.pending| then OnReply(s, k, id) else None
  }

  /** The state after a run, if every step of it is possible. */
  function Run(server: Server, s: Session, es: seq<Event>): Option<Session>
    decreases |es|
  {
    if es == [] then Some(s)
    else
      var next := Step(server, s, es[0]);
      if next.None? then None else Run(server, next.value, es[1..])
  }

  // ---- What every run keeps ----

  function Successes(ps: seq<PacketPayload>): nat {
    if ps == [] then 0 else (if ps[0].packetId == LOGIN_SUCCESS_ID then 1 else 0) + Successes(ps[1..])
  }

  function SentSuccesses(ss: seq<Sent>): nat {
    if ss == [] then 0 else (if ss[0].payload.packetId == LOGIN_SUCCESS_ID then 1 else 0) + SentSuccesses(ss[1..])
  }

  ghost predicate Inv(server: Server, s: Session) {
    // encryption is on exactly when there is a key
    && (s.encrypted <==> s.key.Some?)
    && (s.accepted > 0 ==> s.encrypted)
    // conservation: every accepted response, and offline every login, is one LoginSuccess, made or due
    && Successes(s.queue) + SentSuccesses(s.sent) + |s.pending|
       == s.accepted + (if server.online then 0 else s.starts)
    // the token grows by 64 characters with every online login
    && |s.verifyToken| == (if server.online then TOKEN_LENGTH * s.starts else 0)
    && IsToken(s.verifyToken)
    // online, no LoginSuccess ever left unencrypted
    && (server.online ==> forall i :: 0 <= i < |s.sent| ==>
          s.sent[i].payload.packetId == LOGIN_SUCCESS_ID ==> s.sent[i].encrypted)
  }

  lemma {:induction false} SuccessesSplit(ps: seq<PacketPayload>, qs: seq<PacketPayload>)
    ensures Successes(ps + qs) == Successes(ps) + Successes(qs)
    decreases |ps|
  {
    if ps == [] {
      assert ps + qs == qs;
    } else {
      assert (ps + qs)[1..] == ps[1..] + qs;
      SuccessesSplit(ps[1..], qs);
    }
  }

  lemma {:induction false} SentSplit(ss: seq<Sent>, ps: seq<PacketPayload>, encrypted: bool)
    ensures SentSuccesses(ss + SentAll(ps, encrypted)) == SentSuccesses(ss) + Successes(ps)
    decreases |ss|, |ps|
  {
    var all := SentAll(ps, encrypted);
    if ss != [] {
      assert (ss + all)[1..] == ss[1..] + all;
      SentSplit(ss[1..], ps, encrypted);
    } else if ps != [] {
      assert ss + all == all && all[1..] == SentAll(ps[1..], encrypted);
      assert [] + SentAll(ps[1..], encrypted) == SentAll(ps[1..], encrypted);
      SentSplit([], ps[1..], encrypted);
    }
  }

  lemma OneMore(ps: seq<PacketPayload>, p: PacketPayload)
    ensures Successes(ps + [p]) == Successes(ps) + (if p.packetId == LOGIN_SUCCESS_ID then 1 else 0)
  {
    SuccessesSplit(ps, [p]);
    assert [p][1..] == [];
  }

  lemma QueuedCounts(s: Session, id: u32, fields: seq<Field>)
    requires Queued(s, id, fields).Some?
    ensures var t := Queued(s, id, fields).value.0;
            t == s.(queue := t.queue)
            && Successes(t.queue) == Successes(s.queue) + (if id == LOGIN_SUCCESS_ID then 1 else 0)
  {
    OneMore(s.queue, Serialized(id, fields));
  }

  lemma LoginStartKeepsInv(server: Server, s: Session, p: PacketPayload, drawn: seq<u8>)
    requires Inv(server, s) && |drawn| == TOKEN_LENGTH && IsToken(drawn)
    requires OnLoginStart(server, s, p, drawn).Some?
    ensures Inv(server, OnLoginStart(server, s, p, drawn).value.0)
  {
    hide ReadFresh, Queued, Successes, SentSuccesses;
    var fs := ReadFresh(LOGIN_START_ID, LoginStartFields(), p.data).value;
    var t := s.(username := fs[0].text, uuid := fs[1].data, starts := s.starts + 1);
    if server.online {
      var token := s.verifyToken + drawn;
      QueuedCounts(t.(verifyToken := token), ENCRYPTION_REQUEST_ID, EncryptionRequestFields(server.publicKey, token));
    } else {
      QueuedCounts(t.(due := t.due + [t.username], made := t.made + [Made(t.uuid, t.username)]),
                   LOGIN_SUCCESS_ID, LoginSuccessFields(t.uuid, t.username));
    }
  }

  lemma PacketKeepsInv(server: Server, s: Session, p: PacketPayload, drawn: seq<u8>)
    requires Inv(server, s) && |drawn| == TOKEN_LENGTH && IsToken(drawn)
    requires OnPacket(server, s, p, drawn).Some?
    ensures Inv(server, OnPacket(server, s, p, drawn).value.0)
  {
    hide ReadFresh, Queued, Successes, SentSuccesses, OnLoginStart, IsToken;
    if s.state.Login? && p.packetId == LOGIN_START_ID {
      LoginStartKeepsInv(server, s, p, drawn);
    } else if s.state.Status? && p.packetId == 0 {
      QueuedCounts(s, STATUS_RESPONSE_ID, StatusResponseFields(server.statusBody));
    } else if s.state.Status? && p.packetId == 1 {
      OneMore(s.queue, p.(size := p.size + 2));
    }
  }

  lemma SendKeepsInv(server: Server, s: Session, n: nat)
    requires Inv(server, s) && n <= |s.queue|
    ensures Inv(server, OnSend(s, n))
  {
    hide Successes, SentSuccesses, IsToken;
    TakeDrop(s.queue, n);
    SuccessesSplit(s.queue[..n], s.queue[n..]);
    SentSplit(s.sent, s.queue[..n], s.encrypted);
    SuccessNeedsKey(server, s, n);
  }

  /** Online, a LoginSuccess in the queue means that a response was accepted, so encryption is on. */
  lemma SuccessNeedsKey(server: Server, s: Session, n: nat)
    requires Inv(server, s) && n <= |s.queue|
    ensures server.online ==> forall i :: 0 <= i < n ==> s.queue[i].packetId == LOGIN_SUCCESS_ID ==> s.encrypted
  {
    forall i | 0 <= i < n && s.queue[i].packetId == LOGIN_SUCCESS_ID
      ensures Successes(s.queue) > 0
    {
      CountedIfThere(s.queue, i);
    }
  }

  lemma {:induction false} CountedIfThere(ps: seq<PacketPayload>, i: nat)
    requires i < |ps| && ps[i].packetId == LOGIN_SUCCESS_ID
    ensures Successes(ps) > 0
    decreases i
  {
    if i > 0 {
      CountedIfThere(ps[1..], i - 1);
    }
  }

  lemma ReplyKeepsInv(server: Server, s: Session, k: nat, id: Simd.Vec256)
    requires Inv(server, s) && k < |s.pending| && OnReply(s, k, id).Some?
    ensures Inv(server, OnReply(s, k, id).value)
  {
    hide Successes, SentSuccesses, IsToken, CanSerialize, LoginSuccessFields, ReplyId;
    var fields := ReplyFields(id, s.pending[k]);
    OneMore(s.queue, Serialized(LOGIN_SUCCESS_ID, fields));
  }

  lemma StepKeepsInv(server: Server, s: Session, e: Event)
    requires Inv(server, s) && Step(server, s, e).Some?
    ensures Inv(server, Step(server, s, e).value)
  {
    hide Inv, OnPacket, OnSend, OnReply;
    match e
    case Packet(p, drawn) => PacketKeepsInv(server, s, p, drawn);
    case Send(n) => SendKeepsInv(server, s, n);
    case Reply(k, id) => ReplyKeepsInv(server, s, k, id);
  }

  lemma {:induction false} RunKeepsInv(server: Server, s: Session, es: seq<Event>)
    requires Inv(server, s) && Run(server, s, es).Some?
    ensures Inv(server, Run(server, s, es).value)
    decreases |es|
  {
    hide Inv, Step;
    if es != [] {
      StepKeepsInv(server, s, es[0]);
      RunKeepsInv(server, Step(server, s, es[0]).value, es[1..]);
    }
  }

  /** In every run from the start, and so at each of its steps: LoginSuccess packets made plus
      authentication requests outstanding are the EncryptionResponse packets accepted (and offline
      the logins); online, none of them was ever sent in clear; encryption is on exactly when there is
      a key; the token is 64 characters per online login. */
  lemma EveryRun(server: Server, es: seq<Event>)
    requires Run(server, Start(), es).Some?
    ensures Inv(server, Run(server, Start(), es).value)
  {
    RunKeepsInv(server, Start(), es);
  }

  // ---- Who gets an answer, and in which order packets leave ----

  function Payloads(ss: seq<Sent>): (ps: seq<PacketPayload>)
    ensures |ps| == |ss| && forall i :: 0 <= i < |ss| ==> ps[i] == ss[i].payload
  {
    seq(|ss|, i requires 0 <= i < |ss| => ss[i].payload)
  }

  /** All packets ever made for the client: those sent, then those still in the queue. */
  function Outgoing(s: Session): seq<PacketPayload> {
    Payloads(s.sent) + s.queue
  }

  /** The LoginSuccess packets among these, in order. */
  function OnlySuccesses(ps: seq<PacketPayload>): seq<PacketPayload> {
    if ps == [] then []
    else OnlySuccesses(ps[..|ps| - 1]) + if ps[|ps| - 1].packetId == 2 then [ps[|ps| - 1]] else []
  }

  function Names(made: seq<Made>): (names: seq<seq<u8>>)
    ensures |names| == |made| && forall i :: 0 <= i < |made| ==> names[i] == made[i].name
  {
    seq(|made|, i requires 0 <= i < |made| => made[i].name)
  }

  /** Each of these packets is the LoginSuccess made for its name and UUID. */
  predicate AreMade(ps: seq<PacketPayload>, made: seq<Made>) {
    && |ps| == |made|
    && forall i :: 0 <= i < |made| ==>
         var fields := LoginSuccessFields(made[i].id, made[i].name);
         CanSerialize(2, fields) && ps[i] == Serialized(2, fields)
  }

  ghost predicate AllAnswered(server: Server, s: Session) {
    // everyone for whom a LoginSuccess fell due has one, or is waiting for the reply, and nobody else
    && multiset(Names(s.made)) + multiset(s.pending) == multiset(s.due)
    && |s.due| == s.accepted + (if server.online then 0 else s.starts)
    // and these are the LoginSuccess packets that went out or are going to, in the order of the answers
    && AreMade(OnlySuccesses(Outgoing(s)), s.made)
  }

  lemma OneMoreOutgoing(s: Session, t: Session, p: PacketPayload)
    requires t.sent == s.sent && t.queue == s.queue + [p]
    ensures Outgoing(t) == Outgoing(s) + [p]
    ensures OnlySuccesses(Outgoing(t))
         == if p.packetId == 2 then OnlySuccesses(Outgoing(s)) + [p] else OnlySuccesses(Outgoing(s))
  {
    hide Payloads;
    assert Outgoing(t)[..|Outgoing(t)| - 1] == Outgoing(s);
  }

  lemma QueuedGoesOut(s: Session, id: u32, fields: seq<Field>)
    requires Queued(s, id, fields).Some?
    ensures var (t, ok) := Queued(s, id, fields).value;
            && ok && CanSerialize(id, fields) && t == s.(queue := s.queue + [Serialized(id, fields)])
            && Outgoing(t) == Outgoing(s) + [Serialized(id, fields)]
            && OnlySuccesses(Outgoing(t))
               == (if id == 2 then OnlySuccesses(Outgoing(s)) + [Serialized(id, fields)]
                   else OnlySuccesses(Outgoing(s)))
  {
    hide CanSerialize, Outgoing, OnlySuccesses;
    var t := Queued(s, id, fields).value.0;
    OneMoreOutgoing(s, t, Serialized(id, fields));
  }

  lemma OneMoreMade(ps: seq<PacketPayload>, made: seq<Made>, m: Made)
    requires AreMade(ps, made) && CanSerialize(2, LoginSuccessFields(m.id, m.name))
    ensures AreMade(ps + [Serialized(2, LoginSuccessFields(m.id, m.name))], made + [m])
    ensures multiset(Names(made + [m])) == multiset(Names(made)) + multiset{m.name}
  {
    hide CanSerialize, Serialized, LoginSuccessFields;
    assert Names(made + [m]) == Names(made) + [m.name];
  }

  lemma OneMoreName(names: seq<seq<u8>>, name: seq<u8>)
    ensures multiset(names + [name]) == multiset(names) + multiset{name}
  {
  }

  lemma OneNameLess(names: seq<seq<u8>>, k: nat)
    requires k < |names|
    ensures multiset(names) == multiset(names[..k] + names[k + 1..]) + multiset{names[k]}
  {
    assert names == names[..k] + ([names[k]] + names[k + 1..]);
  }

  /** A LoginSuccess made for someone who was waiting, or for whom it just fell due. */
  lemma SuccessKeepsAnswers(server: Server, s: Session, t: Session, m: Made)
    requires AllAnswered(server, s) && CanSerialize(2, LoginSuccessFields(m.id, m.name))
    requires t.sent == s.sent && t.queue == s.queue + [Serialized(2, LoginSuccessFields(m.id, m.name))]
    requires t.made == s.made + [m]
    requires multiset(t.due) + multiset(s.pending) == multiset(s.due) + multiset(t.pending) + multiset{m.name}
    requires |t.due| - |s.due| == t.accepted - s.accepted + (if server.online then 0 else t.starts - s.starts)
    ensures AllAnswered(server, t) && Outgoing(s) <= Outgoing(t)
  {
    hide CanSerialize, Buffer, LoginSuccessFields, AreMade, OnlySuccesses, Outgoing, Names;
    OneMoreOutgoing(s, t, Serialized(2, LoginSuccessFields(m.id, m.name)));
    OneMoreMade(OnlySuccesses(Outgoing(s)), s.made, m);
    Balance(multiset(Names(s.made)), multiset(s.pending), multiset(s.due), multiset(t.pending), multiset(t.due),
            multiset{m.name});
  }

  lemma Balance(made: multiset<seq<u8>>, before: multiset<seq<u8>>, due: multiset<seq<u8>>,
                after: multiset<seq<u8>>, due': multiset<seq<u8>>, more: multiset<seq<u8>>)
    requires made + before == due && due' + before == due + after + more
    ensures made + more + after == due'
  {
    forall x: seq<u8>
      ensures (made + more + after)[x] == due'[x]
    {
      assert (made + before)[x] == due[x] && (due' + before)[x] == (due + after + more)[x];
    }
  }

  lemma LoginStartKeepsAnswers(server: Server, s: Session, p: PacketPayload, drawn: seq<u8>)
    requires AllAnswered(server, s) && OnLoginStart(server, s, p, drawn).Some?
    ensures AllAnswered(server, OnLoginStart(server, s, p, drawn).value.0)
    ensures Outgoing(s) <= Outgoing(OnLoginStart(server, s, p, drawn).value.0)
  {
    hide ReadFresh, CanSerialize, Buffer, LoginSuccessFields, EncryptionRequestFields, AreMade, OnlySuccesses,
         Outgoing, Names;
    var fs := ReadFresh(LOGIN_START_ID, LoginStartFields(), p.data).value;
    var t := s.(username := fs[0].text, uuid := fs[1].data, starts := s.starts + 1);
    if server.online {
      var u := t.(verifyToken := s.verifyToken + drawn);
      SameOutgoing(s, u);
      QueuedGoesOut(u, ENCRYPTION_REQUEST_ID, EncryptionRequestFields(server.publicKey, u.verifyToken));
    } else {
      var m := Made(t.uuid, t.username);
      OneMoreName(s.due, m.name);
      SuccessKeepsAnswers(server, s, OnLoginStart(server, s, p, drawn).value.0, m);
    }
  }

  lemma SameOutgoing(s: Session, t: Session)
    requires t.sent == s.sent && t.queue == s.queue
    ensures Outgoing(t) == Outgoing(s)
  {
  }

  /** A packet that is answered with nothing. */
  lemma QuietKeepsAnswers(server: Server, s: Session, t: Session)
    requires AllAnswered(server, s) && t.sent == s.sent && t.queue == s.queue && t.made == s.made
    requires (t.due == s.due && t.pending == s.pending && t.accepted == s.accepted && t.starts == s.starts)
          || exists name :: t.due == s.due + [name] && t.pending == s.pending + [name]
                            && t.accepted == s.accepted + 1 && t.starts == s.starts
    ensures AllAnswered(server, t) && Outgoing(t) == Outgoing(s)
  {
    hide AreMade, OnlySuccesses, Outgoing, Names;
    SameOutgoing(s, t);
    if t.due != s.due {
      var name :| t.due == s.due + [name] && t.pending == s.pending + [name]
                  && t.accepted == s.accepted + 1 && t.starts == s.starts;
      OneMoreName(s.due, name);
      OneMoreName(s.pending, name);
    }
  }

  /** A packet that is answered with another, which is no LoginSuccess. */
  lemma OtherKeepsAnswers(server: Server, s: Session, t: Session, p: PacketPayload)
    requires AllAnswered(server, s) && t == s.(queue := s.queue + [p]) && p.packetId != 2
    ensures AllAnswered(server, t) && Outgoing(s) <= Outgoing(t)
  {
    hide AreMade, OnlySuccesses, Outgoing, Names;
    OneMoreOutgoing(s, t, p);
  }

  lemma PacketKeepsAnswers(server: Server, s: Session, p: PacketPayload, drawn: seq<u8>)
    requires AllAnswered(server, s) && OnPacket(server, s, p, drawn).Some?
    ensures AllAnswered(server, OnPacket(server, s, p, drawn).value.0)
    ensures Outgoing(s) <= Outgoing(OnPacket(server, s, p, drawn).value.0)
  {
    hide ReadFresh, CanSerialize, Buffer, OnLoginStart, Outgoing, AllAnswered;
    var t := OnPacket(server, s, p, drawn).value.0;
    if s.state.Login? && p.packetId == LOGIN_START_ID {
      LoginStartKeepsAnswers(server, s, p, drawn);
    } else if s.state.Status? && p.packetId <= 1 {
      OtherKeepsAnswers(server, s, t, t.queue[|s.queue|]);
    } else {
      QuietKeepsAnswers(server, s, t);
    }
  }

  lemma SendKeepsAnswers(server: Server, s: Session, n: nat)
    requires AllAnswered(server, s) && n <= |s.queue|
    ensures AllAnswered(server, OnSend(s, n)) && Outgoing(OnSend(s, n)) == Outgoing(s)
  {
    hide AreMade, OnlySuccesses, Names;
    assert Payloads(OnSend(s, n).sent) == Payloads(s.sent) + s.queue[..n];
    assert Outgoing(OnSend(s, n)) == Outgoing(s);
  }

  lemma ReplyKeepsAnswers(server: Server, s: Session, k: nat, id: Simd.Vec256)
    requires AllAnswered(server, s) && k < |s.pending| && OnReply(s, k, id).Some?
    ensures AllAnswered(server, OnReply(s, k, id).value)
    ensures Outgoing(s) <= Outgoing(OnReply(s, k, id).value)
  {
    hide CanSerialize, Serialized, LoginSuccessFields, ReplyId, AllAnswered;
    OneNameLess(s.pending, k);
    SuccessKeepsAnswers(server, s, OnReply(s, k, id).value, Made(ReplyId(id), s.pending[k]));
  }

  lemma StepKeepsAnswers(server: Server, s: Session, e: Event)
    requires AllAnswered(server, s) && Step(server, s, e).Some?
    ensures AllAnswered(server, Step(server, s, e).value) && Outgoing(s) <= Outgoing(Step(server, s, e).value)
  {
    hide AllAnswered, Outgoing, OnPacket, OnSend, OnReply, IsToken;
    match e
    case Packet(p, drawn) => PacketKeepsAnswers(server, s, p, drawn);
    case Send(n) => SendKeepsAnswers(server, s, n);
    case Reply(k, id) => ReplyKeepsAnswers(server, s, k, id);
  }

  lemma {:induction false} RunKeepsAnswers(server: Server, s: Session, es: seq<Event>)
    requires AllAnswered(server, s) && Run(server, s, es).Some?
    ensures AllAnswered(server, Run(server, s, es).value) && Outgoing(s) <= Outgoing(Run(server, s, es).value)
    decreases |es|
  {
    hide AllAnswered, Outgoing, Step;
    if es != [] {
      StepKeepsAnswers(server, s, es[0]);
      RunKeepsAnswers(server, Step(server, s, es[0]).value, es[1..]);
    }
  }

  /** In every run from the start: by name, the LoginSuccess packets made and the requests outstanding
      are exactly those that fell due, and what is sent or queued holds these packets and no other
      LoginSuccess. Packets leave in the order in which they were made; none is lost or changed. */
  lemma EveryoneIsAnswered(server: Server, es: seq<Event>, i: nat)
    requires i <= |es| && Run(server, Start(), es).Some?
    ensures AllAnswered(server, Run(server, Start(), es).value)
    ensures Run(server, Start(), es[..i]).Some?
    ensures Outgoing(Run(server, Start(), es[..i]).value) <= Outgoing(Run(server, Start(), es).value)
  {
    hide Run, Outgoing;
    StartAnswers(server);
    RunSplits(server, Start(), es, i);
    RunKeepsAnswers(server, Start(), es[..i]);
    RunKeepsAnswers(server, Run(server, Start(), es[..i]).value, es[i..]);
  }

  lemma StartAnswers(server: Server)
    ensures AllAnswered(server, Start())
  {
    assert Outgoing(Start()) == [] && Names([]) == [];
  }

  /** A reply takes just the request it answers off the list. */
  lemma ReplyTakesOne(s: Session, k: nat, id: Simd.Vec256)
    requires k < |s.pending| && OnReply(s, k, id).Some?
    ensures var t := OnReply(s, k, id).value;
            && |t.pending| == |s.pending| - 1
            && (forall i :: 0 <= i < k ==> t.pending[i] == s.pending[i])
            && (forall i :: k < i < |s.pending| ==> t.pending[i - 1] == s.pending[i])
  {
    hide CanSerialize, Serialized, ReplyFields;
  }

  /** The letters and digits of which tokens are drawn. */
  lemma TokenCharacters(c: char)
    ensures c in CHARACTERS <==> '0' <= c <= '9' || 'A' <= c <= 'Z' || 'a' <= c <= 'z'
    ensures |CHARACTERS| == 62
  {
    Digits(c);
    Upper(c);
    Lower(c);
  }

  lemma Digits(c: char)
    ensures c in "0123456789" <==> '0' <= c <= '9'
  {
  }

  lemma Upper(c: char)
    ensures c in "ABCDEFGHIJKLMNOPQRSTUVWXYZ" <==> 'A' <= c <= 'Z'
  {
  }

  lemma Lower(c: char)
    ensures c in "abcdefghijklmnopqrstuvwxyz" <==> 'a' <= c <= 'z'
  {
  }

  // ---- What no step takes back ----

  /** The moves between client states. */
  predicate Reaches(a: ClientState, b: ClientState) {
    || a == b
    || (a.Handshake? && !b.Play?)
    || (a.Login? && b.Configuration?)
  }

  predicate Moves(a: ClientState, b: ClientState) {
    a == b || (a.Handshake? && (b.Status? || b.Login?)) || (a.Login? && b.Configuration?)
  }

  ghost predicate Follows(s: Session, t: Session) {
    && (s.encrypted ==> t.encrypted)
    && s.verifyToken <= t.verifyToken
    && s.sent <= t.sent
    && s.starts <= t.starts && s.accepted <= t.accepted
    && Reaches(s.state, t.state)
  }

  lemma PacketFollows(server: Server, s: Session, p: PacketPayload, drawn: seq<u8>)
    requires OnPacket(server, s, p, drawn).Some?
    ensures var t := OnPacket(server, s, p, drawn).value.0;
            Follows(s, t) && Moves(s.state, t.state) && t.sent == s.sent && (s.key.Some? ==> t.key.Some?)
  {
    hide ReadFresh, CanSerialize, Serialized;
  }

  lemma StepFollows(server: Server, s: Session, e: Event)
    requires Step(server, s, e).Some?
    ensures var t := Step(server, s, e).value;
            Follows(s, t) && Moves(s.state, t.state) && (s.key.Some? ==> t.key.Some?)
  {
    hide OnPacket, CanSerialize, Serialized, IsToken;
    if e.Packet? {
      PacketFollows(server, s, e.payload, e.drawn);
    }
  }

  /** Over any run, encryption is never switched off, the token and the record of what was sent only
      grow, and a client state is only left for a later one. */
  lemma {:induction false} RunFollows(server: Server, s: Session, es: seq<Event>)
    requires Run(server, s, es).Some?
    ensures Follows(s, Run(server, s, es).value)
    decreases |es|
  {
    hide Step;
    if es != [] {
      StepFollows(server, s, es[0]);
      RunFollows(server, Step(server, s, es[0]).value, es[1..]);
    }
  }

  /** Every part of a run from its start is a run. */
  lemma {:induction false} RunSplits(server: Server, s: Session, es: seq<Event>, i: nat)
    requires i <= |es| && Run(server, s, es).Some?
    ensures Run(server, s, es[..i]).Some?
    ensures Run(server, Run(server, s, es[..i]).value, es[i..]) == Run(server, s, es)
    decreases i
  {
    hide Step;
    if i == 0 {
      assert es[0..] == es;
    } else {
      RunSplits(server, Step(server, s, es[0]).value, es[1..], i - 1);
      assert es[..i][1..] == es[1..][..i - 1] && es[1..][i - 1..] == es[i..];
    }
  }

  // ---- A chunk of packets ----

  /** What the player answers to packets in turn, up to the first it refuses, and the state then. */
  function Handed(server: Server, s: Session, ps: seq<PacketPayload>, draws: seq<seq<u8>>): Option<(Session, Answers)>
    requires |ps| == |draws|
    decreases |ps|
  {
    if ps == [] then Some((s, []))
    else
      var r := OnPacket(server, s, ps[0], draws[0]);
      if r.None? then None
      else if !r.value.1 then Some((r.value.0, [false]))
      else
        var rest := Handed(server, r.value.0, ps[1..], draws[1..]);
        if rest.None? then None else Some((rest.value.0, [true] + rest.value.1))
  }

  function PacketEvents(ps: seq<PacketPayload>, draws: seq<seq<u8>>): (es: seq<Event>)
    requires |ps| == |draws|
    ensures |es| == |ps|
  {
    if ps == [] then [] else [Packet(ps[0], draws[0])] + PacketEvents(ps[1..], draws[1..])
  }

  predicate AllTokens(draws: seq<seq<u8>>) {
    draws != [] ==> |draws[0]| == TOKEN_LENGTH && IsToken(draws[0]) && AllTokens(draws[1..])
  }

  /** Handing packets over is a run of as many steps as there are answers. */
  lemma {:induction false} HandedIsRun(server: Server, s: Session, ps: seq<PacketPayload>, draws: seq<seq<u8>>)
    requires |ps| == |draws| && AllTokens(draws) && Handed(server, s, ps, draws).Some?
    ensures var (t, answers) := Handed(server, s, ps, draws).value;
            && |answers| <= |ps|
            && (forall i :: 0 <= i < |answers| - 1 ==> answers[i])
            && (|answers| < |ps| ==> answers != [] && !answers[|answers| - 1])
            && Run(server, s, PacketEvents(ps, draws)[..|answers|]) == Some(t)
    decreases |ps|
  {
    hide OnPacket, IsToken;
    if ps != [] {
      var es := PacketEvents(ps, draws);
      var (t, ok) := OnPacket(server, s, ps[0], draws[0]).value;
      assert es[0] == Packet(ps[0], draws[0]) && es[1..] == PacketEvents(ps[1..], draws[1..]);
      assert Step(server, s, es[0]) == Some(t);
      hide Step;
      if ok {
        HandedIsRun(server, t, ps[1..], draws[1..]);
        var n := |Handed(server, s, ps, draws).value.1|;
        assert es[..n][1..] == es[1..][..n - 1];
      } else {
        assert es[..1][1..] == [];
      }
    }
  }

  /** A chunk of serialised packets, whatever lies beyond it, and a player that answers for itself:
      the receiving loop hands over exactly as many of them as the player answers to, and the session
      ends where the run over those packets ends. */
  lemma ChunkIsRun(server: Server, s: Session, ms: seq<Message>, beyond: seq<u8>, draws: seq<seq<u8>>)
    requires AllSized(ms) && |ms| == |draws| == |PayloadsOf(ms)| && AllTokens(draws)
    requires Handed(server, s, PayloadsOf(ms), draws).Some?
    ensures var (t, answers) := Handed(server, s, PayloadsOf(ms), draws).value;
            var n := |answers|;
            && n <= |ms|
            && Defined(Chunk(ms) + beyond, 0, |Chunk(ms)|, answers)
            && Deliver(Chunk(ms) + beyond, 0, |Chunk(ms)|, answers).frames == PayloadsOf(ms[..n])
            && PayloadsOf(ms[..n]) == PayloadsOf(ms)[..n]
            && Run(server, s, PacketEvents(PayloadsOf(ms), draws)[..n]) == Some(t)
  {
    hide Handed, Run, Deliver, Expected, Defined, AllSized, Chunk, PayloadOf, AllTokens;
    var (t, answers) := Handed(server, s, PayloadsOf(ms), draws).value;
    HandedIsRun(server, s, PayloadsOf(ms), draws);
    WholeFramesAreDelivered(ms, beyond, answers);
    PayloadsPrefix(ms, |answers|);
    if answers != [] && !answers[|answers| - 1] {
      ExpectedUpToRefusal(ms, answers, |answers| - 1);
    } else {
      ExpectedIfAllAccepted(ms, answers);
      assert ms[..|ms|] == ms;
    }
  }

  lemma {:induction false} PayloadsPrefix(ms: seq<Message>, n: nat)
    requires n <= |ms|
    ensures |PayloadsOf(ms)| == |ms| && PayloadsOf(ms[..n]) == PayloadsOf(ms)[..n]
    decreases |ms|
  {
    hide PayloadOf;
    if ms != [] {
      PayloadsPrefix(ms[1..], if n == 0 then 0 else n - 1);
      if n > 0 {
        assert ms[..n][1..] == ms[1..][..n - 1];
      }
    }
  }

  // ---- Any chunk ----

  /** What comes of a chunk: the session then, the frames handed over, and what the player said. */
  datatype Ticked = Ticked(session: Session, frames: seq<PacketPayload>, answers: Answers)

  /** The receiving loop with the player as handler, from `offset` on in a chunk of `total` bytes; s is
      the memory from there on. There is a token drawn for every packet that there can be. */
  function Tick(server: Server, s: Session, memory: seq<u8>, offset: nat, total: nat,
                draws: seq<seq<u8>>): Option<Ticked>
    requires offset + |draws| >= total
    decreases total - offset
  {
    if offset >= total then Some(Ticked(s, [], []))
    else
      var c := NextFrame(memory, total);
      if c.Undefined? then None
      else if c.Oversized? then Some(Ticked(s, [], []))
      else
        var p := c.payload;
        var r := OnPacket(server, s, p, draws[0]);
        if r.None? then None
        else if !r.value.1 then Some(Ticked(r.value.0, [p], [false]))
        else
          var rest := Tick(server, r.value.0, memory[p.size..], offset + p.size, total, draws[1..]);
          if rest.None? then None
          else Some(Ticked(rest.value.session, [p] + rest.value.frames, [true] + rest.value.answers))
  }

  /** The loop hands over the frames that it would with these answers known beforehand, and the session
      goes through the run over exactly those packets. */
  ghost predicate IsRunOver(server: Server, s: Session, memory: seq<u8>, offset: nat, total: nat,
                            draws: seq<seq<u8>>, r: Ticked)
  {
    var n, d := |r.frames|, Deliver(memory, offset, total, r.answers);
    && n == |r.answers| <= |draws|
    && Defined(memory, offset, total, r.answers)
    && d.frames == r.frames && d.stopped == (n > 0 && !r.answers[n - 1])
    && Run(server, s, PacketEvents(r.frames, draws[..n])) == Some(r.session)
  }

  /** On any memory on which the loop and every step are defined: a chunk received is a run. */
  lemma {:induction false} TickIsRun(server: Server, s: Session, memory: seq<u8>, offset: nat, total: nat,
                                     draws: seq<seq<u8>>)
    requires offset + |draws| >= total && AllTokens(draws)
    requires Tick(server, s, memory, offset, total, draws).Some?
    ensures IsRunOver(server, s, memory, offset, total, draws, Tick(server, s, memory, offset, total, draws).value)
    decreases total - offset
  {
    hide OnPacket, NextFrame, AllTokens, IsToken, IsRunOver;
    var r := Tick(server, s, memory, offset, total, draws).value;
    if offset >= total || !NextFrame(memory, total).Found? {
      NothingHanded(server, s, memory, offset, total, draws);
    } else {
      var p := NextFrame(memory, total).payload;
      var (t, ok) := OnPacket(server, s, p, draws[0]).value;
      TokenFirst(draws);
      if ok {
        TickIsRun(server, t, memory[p.size..], offset + p.size, total, draws[1..]);
        OneMoreHanded(server, s, memory, offset, total, draws, p, t,
                      Tick(server, t, memory[p.size..], offset + p.size, total, draws[1..]).value);
      } else {
        LastHanded(server, s, memory, offset, total, draws, p, t);
      }
    }
  }

  lemma NothingHanded(server: Server, s: Session, memory: seq<u8>, offset: nat, total: nat, draws: seq<seq<u8>>)
    requires offset >= total || NextFrame(memory, total).Oversized?
    ensures IsRunOver(server, s, memory, offset, total, draws, Ticked(s, [], []))
  {
    hide NextFrame;
    NoPackets(server, s);
    assert draws[..0] == [];
  }

  lemma LastHanded(server: Server, s: Session, memory: seq<u8>, offset: nat, total: nat, draws: seq<seq<u8>>,
                   p: PacketPayload, t: Session)
    requires offset < total && NextFrame(memory, total) == Found(p)
    requires draws != [] && |draws[0]| == TOKEN_LENGTH && IsToken(draws[0])
    requires OnPacket(server, s, p, draws[0]).Some? && OnPacket(server, s, p, draws[0]).value.0 == t
    ensures IsRunOver(server, s, memory, offset, total, draws, Ticked(t, [p], [false]))
  {
    hide OnPacket, NextFrame, Run, PacketEvents, Deliver, Defined, IsToken;
    TurnOnFound(memory, p, offset, total, [false]);
    FirstPacket(server, s, p, draws[0], [], [], t);
    NoPackets(server, t);
    assert [p] + [] == [p] && [draws[0]] + [] == draws[..1];
  }

  lemma OneMoreHanded(server: Server, s: Session, memory: seq<u8>, offset: nat, total: nat, draws: seq<seq<u8>>,
                      p: PacketPayload, t: Session, rest: Ticked)
    requires offset < total && NextFrame(memory, total) == Found(p)
    requires draws != [] && |draws[0]| == TOKEN_LENGTH && IsToken(draws[0])
    requires OnPacket(server, s, p, draws[0]).Some? && OnPacket(server, s, p, draws[0]).value.0 == t
    requires IsRunOver(server, t, memory[p.size..], offset + p.size, total, draws[1..], rest)
    ensures IsRunOver(server, s, memory, offset, total, draws,
                      Ticked(rest.session, [p] + rest.frames, [true] + rest.answers))
  {
    hide OnPacket, NextFrame, Run, PacketEvents, Deliver, Defined, IsToken;
    var answers, n := [true] + rest.answers, |rest.frames|;
    TurnOnFound(memory, p, offset, total, answers);
    assert answers[1..] == rest.answers;
    FirstPacket(server, s, p, draws[0], rest.frames, draws[1..][..n], t);
    assert draws[..n + 1] == [draws[0]] + draws[1..][..n];
  }

  /** On memory that starts with serialised packets, the player is handed these, up to the first that
      it refuses. */
  lemma {:induction false} TickOfWholeFrames(server: Server, s: Session, ms: seq<Message>, memory: seq<u8>, offset: nat,
                                             total: nat, draws: seq<seq<u8>>)
    requires AllSized(ms) && Starts(memory, ms) && total == offset + |Chunk(ms)|
    requires |ms| <= |draws| && offset + |draws| >= total
    requires Handed(server, s, PayloadsOf(ms), draws[..|ms|]).Some?
    ensures var (t, answers) := Handed(server, s, PayloadsOf(ms), draws[..|ms|]).value;
            && |answers| <= |ms|
            && Tick(server, s, memory, offset, total, draws) == Some(Ticked(t, PayloadsOf(ms)[..|answers|], answers))
    decreases |ms|
  {
    hide AllSized, Starts, NextFrame, OnPacket, PayloadOf, Chunk;
    NoFrames();
    var ps := PayloadsOf(ms);
    if ms != [] {
      var p := PayloadOf(ms[0]);
      HeadIsFound(ms, memory, offset, total);
      assert ps[0] == p && ps[1..] == PayloadsOf(ms[1..]);
      assert draws[..|ms|][0] == draws[0] && draws[..|ms|][1..] == draws[1..][..|ms[1..]|];
      var (t, ok) := OnPacket(server, s, p, draws[0]).value;
      if ok {
        TickOfWholeFrames(server, t, ms[1..], memory[p.size..], offset + p.size, total, draws[1..]);
        var n := |Handed(server, t, PayloadsOf(ms[1..]), draws[1..][..|ms[1..]|]).value.1|;
        assert ps[..n + 1] == [p] + PayloadsOf(ms[1..])[..n];
      } else {
        assert ps[..1] == [p];
      }
    }
  }

  lemma NoFrames()
    ensures |Chunk([])| == 0
  {
  }

  lemma {:induction false} FramesFit(ms: seq<Message>)
    requires AllSized(ms)
    ensures |ms| <= |Chunk(ms)|
  {
    if ms != [] {
      hide Frame;
      FramesFit(ms[1..]);
      FrameLength(ms[0]);
    }
  }

  lemma TokenFirst(draws: seq<seq<u8>>)
    requires draws != [] && AllTokens(draws)
    ensures |draws[0]| == TOKEN_LENGTH && IsToken(draws[0]) && AllTokens(draws[1..])
  {
    hide IsToken;
  }

  lemma NoPackets(server: Server, s: Session)
    ensures Run(server, s, PacketEvents([], [])) == Some(s)
  {
  }

  lemma FirstPacket(server: Server, s: Session, p: PacketPayload, drawn: seq<u8>, ps: seq<PacketPayload>,
                    draws: seq<seq<u8>>, t: Session)
    requires |ps| == |draws| && |drawn| == TOKEN_LENGTH && IsToken(drawn)
    requires OnPacket(server, s, p, drawn).Some? && OnPacket(server, s, p, drawn).value.0 == t
    ensures Run(server, s, PacketEvents([p] + ps, [drawn] + draws)) == Run(server, t, PacketEvents(ps, draws))
  {
    hide OnPacket, IsToken;
    assert ([p] + ps)[1..] == ps && ([drawn] + draws)[1..] == draws;
    var es := PacketEvents([p] + ps, [drawn] + draws);
    assert es == [Packet(p, drawn)] + PacketEvents(ps, draws);
    assert es[1..] == PacketEvents(ps, draws);
  }
}
