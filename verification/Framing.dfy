/** Cutting a received chunk back into frames, and handing them on until one is refused. */
module Framing {
  import opened Options
  import opened Sequences
  import opened Words
  import opened VarInts
  import opened PacketFields
  import opened PacketCodec
  import opened PacketVisitors
  import opened Packets

  /** What looking for a frame comes to. Undefined: the size read is negative, so that sizing it does
      not end, or the bytes needed are not in memory. Oversized: the frame claims more than the
      whole chunk. */
  datatype Cut = Undefined | Oversized | Found(payload: PacketPayload)

  /** The frame at the front of s, which is the memory from the current position on. The size of the
      header is computed from the value read. */
  function NextFrame(s: seq<u8>, maxSize: nat): (c: Cut)
    ensures c.Found? ==> 1 <= c.payload.size <= maxSize && c.payload.size <= |s|
    ensures c.Found? ==> c.payload.data == s[..c.payload.size]
  {
    var size := Parse(s, MAX_GROUPS);
    if size.None? || IsNegative(Received(0, size.value)) then Undefined
    else
      var id := Parse(s[size.value.len..], MAX_GROUPS);
      if id.None? then Undefined
      else
        var payloadSize := Received(0, size.value);
        var finalSize := Wrap32(payloadSize + EncodedLength(payloadSize));
        if finalSize > maxSize then Oversized
        else if finalSize > |s| then Undefined
        else Found(PacketPayload(s[..finalSize], Received(0, id.value), finalSize))
  }

  /** How the receiving loop ends: the frames it handed over, by how much it moved its offset, and
      whether the last frame was refused. */
  datatype Outcome = Outcome(frames: seq<PacketPayload>, taken: nat, stopped: bool)

  /** What a handler will answer, call by call; it accepts whatever comes after. */
  type Answers = seq<bool>

  predicate Refuses(answers: Answers) {
    answers != [] && !answers[0]
  }

  function Later(answers: Answers): Answers {
    if answers == [] then [] else answers[1..]
  }

  /** The frames are consecutive pieces of memory from the front of s, n bytes together. */
  predicate EndToEnd(frames: seq<PacketPayload>, s: seq<u8>, n: nat) {
    if frames == [] then n == 0
    else
      var size := frames[0].size;
      && 1 <= size <= n && size <= |s|
      && frames[0].data == s[..size]
      && EndToEnd(frames[1..], s[size..], n - size)
  }

  lemma EndToEndCons(p: PacketPayload, frames: seq<PacketPayload>, s: seq<u8>, n: nat)
    requires 1 <= p.size <= |s| && p.data == s[..p.size]
    ensures EndToEnd([p], s, p.size)
    ensures EndToEnd(frames, s[p.size..], n) ==> EndToEnd([p] + frames, s, p.size + n)
  {
    assert ([p] + frames)[1..] == frames;
  }

  /** The loop from `offset` on in a chunk of `total` bytes; s is the memory from there on. Whatever
      the bytes, the frames handed over lie end to end from there. */
  function Deliver(s: seq<u8>, offset: nat, total: nat, answers: Answers): (r: Outcome)
    ensures EndToEnd(r.frames, s, r.taken)
    decreases total - offset
  {
    if offset >= total then Outcome([], 0, false)
    else
      var c := NextFrame(s, total);
      if !c.Found? then Outcome([], 0, false)
      else if Refuses(answers) then
        EndToEndCons(c.payload, [], s, 0);
        Outcome([c.payload], c.payload.size, true)
      else
        var n := c.payload.size;
        var rest := Deliver(s[n..], offset + n, total, Later(answers));
        EndToEndCons(c.payload, rest.frames, s, rest.taken);
        Outcome([c.payload] + rest.frames, n + rest.taken, rest.stopped)
  }

  /** No turn of that loop is undefined. */
  predicate Defined(s: seq<u8>, offset: nat, total: nat, answers: Answers)
    decreases total - offset
  {
    offset < total ==>
      var c := NextFrame(s, total);
      && !c.Undefined?
      && (c.Found? && !Refuses(answers) ==>
            Defined(s[c.payload.size..], offset + c.payload.size, total, Later(answers)))
  }

  // ---- Any memory ----

  /** One turn of the loop. */
  lemma Turn(s: seq<u8>, offset: nat, total: nat, answers: Answers)
    ensures var c, r := NextFrame(s, total), Deliver(s, offset, total, answers);
            if offset >= total || !c.Found? then r == Outcome([], 0, false)
            else
              var p, n := c.payload, c.payload.size;
              var rest := Deliver(s[n..], offset + n, total, Later(answers));
              && 1 <= n <= |s| && p.data == s[..n]
              && (Refuses(answers) ==> r == Outcome([p], n, true))
              && (!Refuses(answers) ==> r == Outcome([p] + rest.frames, n + rest.taken, rest.stopped))
    ensures Defined(s, offset, total, answers) && offset < total ==>
              var c := NextFrame(s, total);
              && !c.Undefined?
              && (c.Found? && !Refuses(answers) ==>
                    Defined(s[c.payload.size..], offset + c.payload.size, total, Later(answers)))
  {
    hide NextFrame;
  }

  /** Whatever the bytes, up to the end of the loop or to a turn that does not end: at most one frame
      per byte of the chunk is handed over, the last less than one chunk length past the chunk. */
  lemma {:induction false} DeliveryIsBounded(s: seq<u8>, offset: nat, total: nat, answers: Answers)
    requires offset < 2 * total
    ensures var r := Deliver(s, offset, total, answers);
            && |r.frames| <= r.taken && offset + r.taken < 2 * total
            && |r.frames| <= (if offset < total then total - offset else 0)
    decreases total - offset
  {
    Turn(s, offset, total, answers);
    hide *;
    if offset < total && NextFrame(s, total).Found? {
      var n := NextFrame(s, total).payload.size;
      DeliveryIsBounded(s[n..], offset + n, total, Later(answers));
    }
  }

  /** No frame on the way claims more than is left of the chunk. */
  predicate FitsChunk(s: seq<u8>, offset: nat, total: nat, answers: Answers)
    decreases total - offset
  {
    var c := NextFrame(s, total);
    offset < total && c.Found? ==>
      && offset + c.payload.size <= total
      && (!Refuses(answers) ==> FitsChunk(s[c.payload.size..], offset + c.payload.size, total, Later(answers)))
  }

  /** A frame is held against the whole chunk, not against what is left of it: the loop stays inside
      the chunk exactly when every frame would also have passed the other test. */
  lemma {:induction false} StaysInChunk(s: seq<u8>, offset: nat, total: nat, answers: Answers)
    requires offset <= total
    ensures offset + Deliver(s, offset, total, answers).taken <= total <==> FitsChunk(s, offset, total, answers)
    decreases total - offset
  {
    hide NextFrame, Refuses, Later, Deliver, EndToEnd;
    Turn(s, offset, total, answers);
    var c := NextFrame(s, total);
    if offset < total && c.Found? && offset + c.payload.size <= total {
      StaysInChunk(s[c.payload.size..], offset + c.payload.size, total, Later(answers));
    }
  }

  /** A chunk of three bytes: the second frame claims three as well, of which one has arrived. */
  lemma FrameBeyondChunk()
    ensures Deliver([1, 7, 2, 0, 0], 0, 3, []).taken == 5
  {
    var s: seq<u8> := [1, 7, 2, 0, 0];
    assert s[1..] == [7, 2, 0, 0] && s[2..] == [2, 0, 0] && s[2..][1..] == [0, 0] && s[2..][3..] == [];
    assert Wrap32(1) == 1 && Wrap32(2) == 2;
    assert NextFrame(s, 3).Found? && NextFrame(s, 3).payload.size == 2;
    assert NextFrame(s[2..], 3).Found? && NextFrame(s[2..], 3).payload.size == 3;
    hide NextFrame;
    Turn(s, 0, 3, []);
    Turn(s[2..], 2, 3, []);
    Turn([], 5, 3, []);
  }

  /** No size read on the way is negative: all that the loop needs of the bytes. */
  predicate NoNegativeSize(s: seq<u8>, offset: nat, total: nat, answers: Answers)
    decreases total - offset
  {
    offset < total ==>
      var size, c := Parse(s, MAX_GROUPS), NextFrame(s, total);
      && (size.Some? ==> !IsNegative(Received(0, size.value)))
      && (c.Found? && !Refuses(answers) ==>
            NoNegativeSize(s[c.payload.size..], offset + c.payload.size, total, Later(answers)))
  }

  /** The loop ends if and only if no size read on the way is negative, and it looks at less than two
      chunk lengths and ten bytes, counted from the chunk's start. */
  lemma {:induction false} EndsIffNoNegativeSize(s: seq<u8>, offset: nat, total: nat, answers: Answers)
    requires offset + |s| >= 2 * total + 9
    ensures Defined(s, offset, total, answers) <==> NoNegativeSize(s, offset, total, answers)
    decreases total - offset
  {
    hide Parse, Received, NextFrame;
    if offset < total {
      NextIsDefined(s, total);
      if NextFrame(s, total).Found? && !Refuses(answers) {
        var n := NextFrame(s, total).payload.size;
        EndsIffNoNegativeSize(s[n..], offset + n, total, Later(answers));
      }
    }
  }

  lemma NextIsDefined(s: seq<u8>, maxSize: nat)
    requires |s| >= 10 && |s| >= maxSize
    ensures Parse(s, MAX_GROUPS).Some?
    ensures NextFrame(s, maxSize).Undefined? <==> IsNegative(Received(0, Parse(s, MAX_GROUPS).value))
  {
    hide Received;
  }

  /** A chunk of five bytes that announces a size of -1: sizing it never comes to its exit, and the
      loop does not end, whatever the handler would say. */
  lemma NegativeSizeHangs(beyond: seq<u8>, answers: Answers)
    ensures var s: seq<u8> := [0xFF, 0xFF, 0xFF, 0xFF, 0x0F] + beyond;
            && Parse(s, MAX_GROUPS) == Some(Parsed(0xFFFF_FFFF, 5, false))
            && !Defined(s, 0, 5, answers)
    ensures forall n: nat :: Shifted(0xFFFF_FFFF, n) >= 0x80
  {
    hide Parse, BitOr;
    var v: u32 := 0xFFFF_FFFF;
    RoundTrip(v, beyond, 0);
    assert v / 0x80 == 0x1FF_FFFF && v / 0x80 / 0x80 == 0x3_FFFF && v / 0x80 / 0x80 / 0x80 == 0x7FF;
    assert Encode(0xF) == [0x0F];
    assert Encode(0x7FF) == [0xFF] + Encode(0xF);
    assert Encode(0x3_FFFF) == [0xFF] + Encode(0x7FF);
    assert Encode(0x1FF_FFFF) == [0xFF] + Encode(0x3_FFFF);
    assert Encode(v) == [0xFF, 0xFF, 0xFF, 0xFF, 0x0F];
    forall n: nat
      ensures Shifted(v, n) >= 0x80
    {
      NegativeNeverEnds(v, n);
    }
  }

  // ---- Chunks of whole frames ----

  /** A packet as SerializePacket leaves it: its size is that of its body. */
  predicate Sized(m: Message) {
    m.size == |Body(m)| && !IsNegative(m.size)
  }

  predicate AllSized(ms: seq<Message>) {
    ms != [] ==> Sized(ms[0]) && AllSized(ms[1..])
  }

  function PayloadOf(m: Message): PacketPayload {
    PacketPayload(Frame(m), m.id, |Frame(m)|)
  }

  function PayloadsOf(ms: seq<Message>): (ps: seq<PacketPayload>)
    ensures |ps| == |ms|
  {
    if ms == [] then [] else [PayloadOf(ms[0])] + PayloadsOf(ms[1..])
  }

  function Chunk(ms: seq<Message>): seq<u8> {
    if ms == [] then [] else Frame(ms[0]) + Chunk(ms[1..])
  }

  /** What should come of a chunk of whole frames. */
  function Expected(ms: seq<Message>, answers: Answers): Outcome {
    if ms == [] then Outcome([], 0, false)
    else if Refuses(answers) then Outcome([PayloadOf(ms[0])], |Frame(ms[0])|, true)
    else
      var rest := Expected(ms[1..], Later(answers));
      Outcome([PayloadOf(ms[0])] + rest.frames, |Frame(ms[0])| + rest.taken, rest.stopped)
  }

  lemma {:induction false} ExpectedIfAllAccepted(ms: seq<Message>, answers: Answers)
    requires forall i :: 0 <= i < |ms| && i < |answers| ==> answers[i]
    ensures Expected(ms, answers) == Outcome(PayloadsOf(ms), |Chunk(ms)|, false)
  {
    if ms != [] {
      hide Frame;
      ExpectedIfAllAccepted(ms[1..], Later(answers));
    }
  }

  lemma {:induction false} ExpectedUpToRefusal(ms: seq<Message>, answers: Answers, i: nat)
    requires i < |ms| && i < |answers| && !answers[i] && forall j :: 0 <= j < i ==> answers[j]
    ensures Expected(ms, answers) == Outcome(PayloadsOf(ms[..i + 1]), |Chunk(ms[..i + 1])|, true)
  {
    hide Frame;
    if i == 0 {
      assert ms[..1][1..] == [];
    } else {
      ExpectedUpToRefusal(ms[1..], Later(answers), i - 1);
      assert ms[1..][..i] == ms[..i + 1][1..];
    }
  }

  lemma NextIsFrame(m: Message, rest: seq<u8>, maxSize: nat)
    requires Sized(m) && |Frame(m)| <= maxSize
    ensures NextFrame(Frame(m) + rest, maxSize) == Found(PayloadOf(m))
  {
    hide Encode, Frame, Parse, WireAll, Received, EncodedLength, Body, BitOr;
    var x, y, z := Encode(m.size), Encode(m.id), WireAll(m.fields) + rest;
    RoundTrip(m.size, y + z, 0);
    RoundTrip(m.id, z, 0);
    FrameInPieces(m, rest);
    DropPrefix(x, y + z);
    TakePrefix(Frame(m), rest);
    FrameLength(m);
  }

  lemma FrameLength(m: Message)
    requires Sized(m)
    ensures |Frame(m)| == EncodedLength(m.size) + m.size == |Encode(m.size)| + m.size
    ensures |Frame(m)| < TWO32
  {
  }

  /** The frames of ms lie one after the other from the front of s. */
  predicate Starts(s: seq<u8>, ms: seq<Message>) {
    ms != [] ==>
      var n := |Frame(ms[0])|;
      n <= |s| && s[..n] == Frame(ms[0]) && Starts(s[n..], ms[1..])
  }

  lemma {:induction false} ChunkStarts(ms: seq<Message>, beyond: seq<u8>)
    ensures Starts(Chunk(ms) + beyond, ms)
  {
    if ms != [] {
      hide Frame;
      Associate(Frame(ms[0]), Chunk(ms[1..]), beyond);
      TakePrefix(Frame(ms[0]), Chunk(ms[1..]) + beyond);
      DropPrefix(Frame(ms[0]), Chunk(ms[1..]) + beyond);
      ChunkStarts(ms[1..], beyond);
    }
  }

  lemma TurnOnFound(s: seq<u8>, p: PacketPayload, offset: nat, total: nat, answers: Answers)
    requires offset < total && NextFrame(s, total) == Found(p)
    ensures var rest := Deliver(s[p.size..], offset + p.size, total, Later(answers));
            Deliver(s, offset, total, answers) == (
              if Refuses(answers) then Outcome([p], p.size, true)
              else Outcome([p] + rest.frames, p.size + rest.taken, rest.stopped))
    ensures Defined(s, offset, total, answers)
        <== Refuses(answers) || Defined(s[p.size..], offset + p.size, total, Later(answers))
  {
    hide NextFrame;
  }

  lemma HeadIsFound(ms: seq<Message>, s: seq<u8>, offset: nat, total: nat)
    requires ms != [] && AllSized(ms) && Starts(s, ms) && total == offset + |Chunk(ms)|
    ensures var p := PayloadOf(ms[0]);
            && offset < total && NextFrame(s, total) == Found(p)
            && total == offset + p.size + |Chunk(ms[1..])|
            && AllSized(ms[1..]) && p.size <= |s| && Starts(s[p.size..], ms[1..])
  {
    hide Frame, NextFrame;
    var n := |Frame(ms[0])|;
    TakeDrop(s, n);
    NextIsFrame(ms[0], s[n..], total);
    FrameLength(ms[0]);
  }

  lemma ExpectedTurn(ms: seq<Message>, answers: Answers)
    ensures Expected(ms, answers) == (
              if ms == [] then Outcome([], 0, false)
              else
                var p, rest := PayloadOf(ms[0]), Expected(ms[1..], Later(answers));
                if Refuses(answers) then Outcome([p], p.size, true)
                else Outcome([p] + rest.frames, p.size + rest.taken, rest.stopped))
  {
    hide Frame, Refuses, Later;
  }

  lemma NothingToDo(s: seq<u8>, offset: nat, total: nat, answers: Answers)
    requires total == offset + |Chunk([])|
    ensures Defined(s, offset, total, answers) && Deliver(s, offset, total, answers) == Outcome([], 0, false)
  {
  }

  lemma {:induction false} WholeFramesFromHere(ms: seq<Message>, s: seq<u8>, offset: nat, total: nat,
                                               answers: Answers)
    requires AllSized(ms) && Starts(s, ms)
    requires total == offset + |Chunk(ms)|
    ensures Defined(s, offset, total, answers)
    ensures Deliver(s, offset, total, answers) == Expected(ms, answers)
    decreases |ms|
  {
    hide *;
    ExpectedTurn(ms, answers);
    if ms == [] {
      NothingToDo(s, offset, total, answers);
    } else {
      var p := PayloadOf(ms[0]);
      HeadIsFound(ms, s, offset, total);
      TurnOnFound(s, p, offset, total, answers);
      WholeFramesFromHere(ms[1..], s[p.size..], offset + p.size, total, Later(answers));
    }
  }

  /** A chunk made of serialised packets, whatever lies beyond it: no turn is undefined, and the
      loop does what it should. If no packet is refused, all are handed over and the loop ends at the
      end of the chunk; otherwise exactly those up to the first refused, and the socket is stopped. */
  lemma WholeFramesAreDelivered(ms: seq<Message>, beyond: seq<u8>, answers: Answers)
    requires AllSized(ms)
    ensures Defined(Chunk(ms) + beyond, 0, |Chunk(ms)|, answers)
    ensures Deliver(Chunk(ms) + beyond, 0, |Chunk(ms)|, answers) == Expected(ms, answers)
    ensures (forall i :: 0 <= i < |ms| && i < |answers| ==> answers[i]) ==>
              Deliver(Chunk(ms) + beyond, 0, |Chunk(ms)|, answers) == Outcome(PayloadsOf(ms), |Chunk(ms)|, false)
    ensures forall i :: 0 <= i < |ms| && i < |answers| && !answers[i] && (forall j :: 0 <= j < i ==> answers[j]) ==>
              Deliver(Chunk(ms) + beyond, 0, |Chunk(ms)|, answers)
              == Outcome(PayloadsOf(ms[..i + 1]), |Chunk(ms[..i + 1])|, true)
  {
    hide Deliver, Expected, PayloadsOf, Chunk, Starts, AllSized, Defined;
    ChunkStarts(ms, beyond);
    WholeFramesFromHere(ms, Chunk(ms) + beyond, 0, |Chunk(ms)|, answers);
    if forall i :: 0 <= i < |ms| && i < |answers| ==> answers[i] {
      ExpectedIfAllAccepted(ms, answers);
    }
    forall i | 0 <= i < |ms| && i < |answers| && !answers[i] && (forall j :: 0 <= j < i ==> answers[j]) {
      ExpectedUpToRefusal(ms, answers, i);
    }
  }

  /** The same for any memory that starts with the packets. */
  lemma WholeFramesAhead(ms: seq<Message>, memory: seq<u8>, answers: Answers)
    requires AllSized(ms) && Chunk(ms) <= memory
    ensures Defined(memory, 0, |Chunk(ms)|, answers)
    ensures Deliver(memory, 0, |Chunk(ms)|, answers) == Expected(ms, answers)
  {
    hide *;
    var rest := memory[|Chunk(ms)|..];
    assert memory == Chunk(ms) + rest;
    WholeFramesAreDelivered(ms, rest, answers);
  }

  // ---- Length prefixes of other lengths ----

  /** The header's size is computed from the value and not from the bytes read: the frame ends where
      its header says if and only if the length prefix is the shortest; otherwise it is cut short by
      the difference, which the next frame begins with. */
  lemma LongPrefixCutsShort(s: seq<u8>, maxSize: nat)
    requires NextFrame(s, maxSize).Found?
    ensures Parse(s, MAX_GROUPS).Some?
    ensures var prefix, size := Parse(s, MAX_GROUPS).value, NextFrame(s, maxSize).payload.size;
            var n := Received(0, prefix);
            && size + (prefix.len - |Encode(n)|) == prefix.len + n
            && |Encode(n)| <= prefix.len
            && (size == prefix.len + n <==> prefix.len == |Encode(n)|)
  {
    hide Parse, Received, Encode;
    EncodeIsShortest(s);
    NotTooLong(Received(0, Parse(s, MAX_GROUPS).value));
  }

  lemma NotTooLong(n: u32)
    requires !IsNegative(n)
    ensures Wrap32(n + EncodedLength(n)) == n + |Encode(n)|
  {
  }

  /** A prefix of two bytes for the length 1: the frame loses its only byte, its id, to the next. */
  lemma LongPrefix(rest: seq<u8>)
    ensures NextFrame([0x81, 0, 7] + rest, 3) == Found(PacketPayload([0x81, 0], 7, 2))
  {
    var s: seq<u8> := [0x81, 0, 7] + rest;
    assert s[1..] == [0, 7] + rest && s[2..] == [7] + rest && s[..2] == [0x81, 0];
    assert Parse(s[1..], 4) == Some(Parsed(0, 1, false));
    assert Parse(s, 5) == Some(Parsed(1, 2, false));
    assert Parse(s[2..], 5) == Some(Parsed(7, 1, false));
  }
}
