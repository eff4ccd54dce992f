// A server connection and its client joined by a byte stream that keeps order:
// src/connsvr/event_module on one end, src/tcpclient on the other.

// Replies, from the game server to the client.
module Downlinks {
  import opened Frames
  import opened Connections
  import opened EventStates
  import opened MsgMgrs

  // accepted are the replies taken over, sent all bytes that went out, got how
  // many of them came in.
  datatype Link = Link(accepted: seq<Bytes>, sent: Bytes, sender: Sender, end: End,
                       got: nat, held: Bytes, delivered: seq<Bytes>)

  // ReadEnds is whatever lets the server's read handler release the connection.
  datatype Event =
    | Reply(message: Bytes, stops: bool, answer: Answer)
    | Writable(answer: Answer)
    | ReadEnds
    | Arrive(n: nat)

  const Fresh := Link([], [], Sender([], true), Kept, 0, [], [])

  predicate Enabled(l: Link, e: Event) {
    match e
    case Reply(m, _, answer) =>
      l.end == Kept && (l.sender.pending == [] ==> Possible(answer, Frame(m)))
    case Writable(answer) => l.end == Kept && Possible(answer, l.sender.pending)
    case ReadEnds => l.end == Kept
    case Arrive(n) => l.got + n <= |l.sent|
  }

  function Next(parses: Bytes -> bool, l: Link, e: Event): Link
    requires Enabled(l, e)
  {
    match e
    case Reply(m, stops, answer) =>
      var o := Respond(l.sender, m, stops, answer);
      l.(accepted := if o.accepted then l.accepted + [m] else l.accepted,
         sent := l.sent + o.wire, sender := o.sender, end := o.end)
    case Writable(answer) =>
      var o := Flush(l.sender, answer);
      l.(sent := l.sent + o.wire, sender := o.sender, end := o.end)
    case ReadEnds => l.(end := Cleared(l.sender.hasData))
    case Arrive(n) =>
      var d := Drain(Client(parses), l.held + l.sent[l.got..l.got + n]);
      l.(got := l.got + n, held := d.rest, delivered := l.delivered + d.frames)
  }

  // An event that cannot happen is skipped.
  function Step(parses: Bytes -> bool, l: Link, e: Event): Link {
    if Enabled(l, e) then Next(parses, l, e) else l
  }

  function Init<T>(s: seq<T>): seq<T>
    requires s != []
  {
    s[..|s| - 1]
  }

  function After(parses: Bytes -> bool, events: seq<Event>): Link
    decreases |events|
  {
    if events == [] then Fresh else Step(parses, After(parses, Init(events)), events[|events| - 1])
  }

  // ----- invariant -----

  // Every accepted byte has been sent or is pending, in order.
  ghost predicate Conserved(l: Link) {
    l.sent + l.sender.pending == Encode(l.accepted)
  }

  // The client is where one drain of all that came in would have left it.
  ghost predicate CaughtUp(parses: Bytes -> bool, l: Link) {
    l.got <= |l.sent| && DrainsTo(Client(parses), l.sent[..l.got], Drained(l.delivered, l.held))
  }

  ghost predicate Sound(parses: Bytes -> bool, l: Link) {
    && (forall m | m in l.accepted :: Small(m))
    && Conserved(l)
    && |l.sender.pending| <= PKG_BUF_SIZE
    && (l.sender.hasData || l.sender.pending == [])
    && CaughtUp(parses, l)
  }

  lemma FreshIsSound(parses: Bytes -> bool)
    ensures Sound(parses, Fresh)
  {
  }

  lemma ReplyMoves(s: Sender, message: Bytes, stops: bool, answer: Answer)
    requires s.pending == [] ==> Possible(answer, Frame(message))
    ensures var o := Respond(s, message, stops, answer);
            && o.wire + o.sender.pending == s.pending + (if o.accepted then Frame(message) else [])
            && (o.accepted ==> Small(message))
            && (|s.pending| <= PKG_BUF_SIZE ==> |o.sender.pending| <= PKG_BUF_SIZE)
            && (s.hasData || s.pending == [] ==> o.sender.hasData || o.sender.pending == [])
  {
  }

  lemma MoreSentStaysCaughtUp(parses: Bytes -> bool, l: Link, l': Link, wire: Bytes)
    requires CaughtUp(parses, l)
    requires l'.sent == l.sent + wire && l'.got == l.got && l'.held == l.held && l'.delivered == l.delivered
    ensures CaughtUp(parses, l')
  {
    assert l'.sent[..l'.got] == l.sent[..l.got];
  }

  lemma ReplyConserves(parses: Bytes -> bool, l: Link, e: Event)
    requires Conserved(l) && e.Reply? && Enabled(l, e)
    ensures Conserved(Next(parses, l, e))
  {
    var o := Respond(l.sender, e.message, e.stops, e.answer);
    ReplyMoves(l.sender, e.message, e.stops, e.answer);
    EncodeOne(l.accepted, e.message);
    Regroup(l.sent, l.sender.pending, o.wire, o.sender.pending, if o.accepted then Frame(e.message) else []);
  }

  lemma ReplyKeepsSound(parses: Bytes -> bool, l: Link, e: Event)
    requires Sound(parses, l) && e.Reply? && Enabled(l, e)
    ensures Sound(parses, Next(parses, l, e))
  {
    ReplyMoves(l.sender, e.message, e.stops, e.answer);
    ReplyConserves(parses, l, e);
    var o := Respond(l.sender, e.message, e.stops, e.answer);
    MoreSentStaysCaughtUp(parses, l, Next(parses, l, e), o.wire);
  }

  lemma WritableKeepsSound(parses: Bytes -> bool, l: Link, e: Event)
    requires Sound(parses, l) && e.Writable? && Enabled(l, e)
    ensures Sound(parses, Next(parses, l, e))
  {
    var o := Flush(l.sender, e.answer);
    Regroup(l.sent, l.sender.pending, o.wire, o.sender.pending, []);
    MoreSentStaysCaughtUp(parses, l, Next(parses, l, e), o.wire);
  }

  lemma ArriveKeepsSound(parses: Bytes -> bool, l: Link, e: Event)
    requires Sound(parses, l) && e.Arrive? && Enabled(l, e)
    ensures Sound(parses, Next(parses, l, e))
  {
    ChunkDrains(Client(parses), l.sent, l.got, e.n, Drained(l.delivered, l.held));
  }

  lemma StepKeepsSound(parses: Bytes -> bool, l: Link, e: Event)
    requires Sound(parses, l)
    ensures Sound(parses, Step(parses, l, e))
  {
    if Enabled(l, e) {
      match e {
        case Reply(_, _, _) => ReplyKeepsSound(parses, l, e);
        case Writable(_) => WritableKeepsSound(parses, l, e);
        case ReadEnds =>
        case Arrive(_) => ArriveKeepsSound(parses, l, e);
      }
    }
  }

  lemma {:induction false} SoundAlways(parses: Bytes -> bool, events: seq<Event>)
    ensures Sound(parses, After(parses, events))
    decreases |events|
  {
    if events == [] {
      FreshIsSound(parses);
    } else {
      SoundAlways(parses, Init(events));
      StepKeepsSound(parses, After(parses, Init(events)), events[|events| - 1]);
    }
  }

  // ----- what a run adds up to -----

  function Took(l: Link, e: Event): nat {
    if !Enabled(l, e) then 0
    else match e
      case Reply(m, _, answer) =>
        if l.sender.pending == [] && CONN_DATA_SIZE + |m| <= PKG_BUF_SIZE && answer.Took? then answer.n else 0
      case Writable(answer) => if answer.Took? then answer.n else 0
      case _ => 0
  }

  function TookAll(parses: Bytes -> bool, events: seq<Event>): nat
    decreases |events|
  {
    if events == [] then 0
    else TookAll(parses, Init(events)) + Took(After(parses, Init(events)), events[|events| - 1])
  }

  function CameIn(parses: Bytes -> bool, events: seq<Event>): nat
    decreases |events|
  {
    if events == [] then 0
    else
      var l, e := After(parses, Init(events)), events[|events| - 1];
      CameIn(parses, Init(events)) + if e.Arrive? && Enabled(l, e) then e.n else 0
  }

  lemma StepTook(parses: Bytes -> bool, l: Link, e: Event)
    ensures |Step(parses, l, e).sent| == |l.sent| + Took(l, e)
    ensures l.sent <= Step(parses, l, e).sent
  {
    if Enabled(l, e) {
      match e {
        case Reply(m, stops, answer) => if Small(m) { OfferMeans(l.sender, Frame(m), answer); }
        case Writable(answer) => FlushMeans(l.sender, answer);
        case ReadEnds =>
        case Arrive(_) =>
      }
    }
  }

  // The bytes sent are as many as send took, and those that came in as many as
  // arrived.
  lemma {:induction false} Tally(parses: Bytes -> bool, events: seq<Event>)
    ensures |After(parses, events).sent| == TookAll(parses, events)
    ensures After(parses, events).got == CameIn(parses, events)
    decreases |events|
  {
    if events != [] {
      Tally(parses, Init(events));
      StepTook(parses, After(parses, Init(events)), events[|events| - 1]);
    }
  }

  // Exactly these end a connection that is kept.
  lemma StepEnds(parses: Bytes -> bool, l: Link, e: Event)
    requires Sound(parses, l) && l.end == Kept && Enabled(l, e)
    ensures Step(parses, l, e).end == Kept <==>
              match e
              case Reply(m, stops, answer) =>
                && (CONN_DATA_SIZE + |m| <= PKG_BUF_SIZE || |m| > PKG_BUF_SIZE)
                && (CONN_DATA_SIZE + |m| <= PKG_BUF_SIZE ==>
                      !stops && if l.sender.pending == [] then !answer.Failed?
                                else |l.sender.pending| + HEADER + |m| <= PKG_BUF_SIZE)
              case Writable(answer) => answer.Took? && l.sender.hasData
              case ReadEnds => false
              case Arrive(_) => true
  {
    match e {
      case Reply(m, stops, answer) => RespondEnds(l.sender, m, stops, answer);
      case Writable(answer) => FlushMeans(l.sender, answer);
      case ReadEnds =>
      case Arrive(_) =>
    }
  }

  // ----- end to end -----

  lemma SoundDelivers(parses: Bytes -> bool, l: Link)
    requires Sound(parses, l)
    ensures AllFit(l.accepted) && l.got <= |Encode(l.accepted)|
    ensures Drain(Client(parses), Encode(l.accepted)[..l.got]) == Drained(l.delivered, l.held)
    ensures var p := Parsed(Client(parses), l.accepted);
            l.delivered == p[..Arrived(HEADER, p, l.got)]
  {
    assert forall m | m in l.accepted :: Small(m) && Fits(m);
    assert Encode(l.accepted)[..l.got] == l.sent[..l.got];
    DrainsToMeans(Client(parses), l.sent[..l.got], Drained(l.delivered, l.held));
    FramesAreMessages(Client(parses), l.accepted, l.got);
  }

  // Whatever the partial sends and the chunks, the client has been handed the
  // accepted replies that have fully arrived, in order and nothing else, up to
  // the first that does not parse.
  lemma DeliversInOrder(parses: Bytes -> bool, events: seq<Event>)
    ensures var l := After(parses, events);
            var p := Parsed(Client(parses), l.accepted);
            && l.sent + l.sender.pending == Encode(l.accepted)
            && l.delivered == p[..Arrived(HEADER, p, l.got)]
  {
    SoundAlways(parses, events);
    SoundDelivers(parses, After(parses, events));
  }

  // Once all is sent and has come in, every reply is delivered exactly if all
  // parse and the last one is not empty.
  lemma DeliversAllIff(parses: Bytes -> bool, events: seq<Event>)
    requires var l := After(parses, events); l.sender.pending == [] && l.got == |l.sent| && l.accepted != []
    ensures var l := After(parses, events);
            l.delivered == l.accepted <==>
              (forall m | m in l.accepted :: parses(m)) && l.accepted[|l.accepted| - 1] != []
  {
    DeliversInOrder(parses, events);
    var l := After(parses, events);
    EncodeSize(l.accepted);
    assert l.sent == Encode(l.accepted);
    AllParsedArriveIff(Client(parses), l.accepted, l.delivered);
  }

  // The client is stuck at a complete frame.
  ghost predicate Stuck(parses: Bytes -> bool, l: Link) {
    Ready(Client(parses), l.held)
  }

  // It is exactly if a reply that does not parse has fully arrived, an empty
  // one with at least a byte behind it.
  lemma StuckIff(parses: Bytes -> bool, events: seq<Event>)
    ensures var l := After(parses, events);
            var p := |Parsed(Client(parses), l.accepted)|;
            Stuck(parses, l) <==>
              && p < |l.accepted|
              && l.got > Size(l.accepted[..p]) + HEADER
              && l.got >= Size(l.accepted[..p]) + HEADER + |l.accepted[p]|
  {
    SoundAlways(parses, events);
    var l := After(parses, events);
    SoundDelivers(parses, l);
    ReadyIff(Client(parses), l.accepted, l.got);
  }

  // Then nothing more is ever delivered.
  lemma StuckStays(parses: Bytes -> bool, l: Link, e: Event)
    requires Sound(parses, l) && Stuck(parses, l)
    ensures Stuck(parses, Step(parses, l, e)) && Step(parses, l, e).delivered == l.delivered
  {
    if e.Arrive? && Enabled(l, e) {
      DrainsToMeans(Client(parses), l.sent[..l.got], Drained(l.delivered, l.held));
      DrainStops(Client(parses), l.sent[..l.got], Drained(l.delivered, l.held));
      StopsAlso(Client(parses), l.held, l.sent[l.got..l.got + e.n]);
    }
  }

  // Until then it holds less than a frame, so its buffer always has room: recv
  // is never asked for nothing, which would read as a hang-up.
  lemma BufferHasRoom(parses: Bytes -> bool, events: seq<Event>)
    ensures var l := After(parses, events); Stuck(parses, l) || |l.held| < PKG_BUF_SIZE
  {
    SoundAlways(parses, events);
    var l := After(parses, events);
    SoundDelivers(parses, l);
    assert forall m | m in l.accepted :: Small(m);
    HeldIsBounded(Client(parses), l.accepted, l.got, PKG_BUF_SIZE);
  }

  // ----- what is not accepted -----

  // A reply refused with EAGAIN while nothing is pending.
  predicate Drops(l: Link, e: Event) {
    Enabled(l, e) && e.Reply? && Small(e.message) && l.sender.pending == [] && e.answer.Again?
  }

  predicate Oversized(l: Link, e: Event) {
    Enabled(l, e) && e.Reply? && |e.message| > PKG_BUF_SIZE
  }

  // The replies of a run, those that are lost left out.
  function TakenOver(parses: Bytes -> bool, events: seq<Event>): seq<Bytes>
    decreases |events|
  {
    if events == [] then []
    else
      var l, e := After(parses, Init(events)), events[|events| - 1];
      TakenOver(parses, Init(events))
      + if e.Reply? && Enabled(l, e) && !Drops(l, e) && !Oversized(l, e) then [e.message] else []
  }

  function Replies(parses: Bytes -> bool, events: seq<Event>): seq<Bytes>
    decreases |events|
  {
    if events == [] then []
    else
      var l, e := After(parses, Init(events)), events[|events| - 1];
      Replies(parses, Init(events)) + if e.Reply? && Enabled(l, e) then [e.message] else []
  }

  function Lost(parses: Bytes -> bool, events: seq<Event>): nat
    decreases |events|
  {
    if events == [] then 0
    else
      var l, e := After(parses, Init(events)), events[|events| - 1];
      Lost(parses, Init(events)) + if Drops(l, e) || Oversized(l, e) then 1 else 0
  }

  // On a connection that is kept, the accepted replies are all replies, in
  // order, but those refused with EAGAIN while nothing is pending and those
  // larger than the buffers.
  lemma {:induction false} OnlyAgainLoses(parses: Bytes -> bool, events: seq<Event>)
    requires After(parses, events).end == Kept
    ensures After(parses, events).accepted == TakenOver(parses, events)
    ensures |After(parses, events).accepted| + Lost(parses, events) == |Replies(parses, events)|
    ensures Lost(parses, events) == 0 <==> After(parses, events).accepted == Replies(parses, events)
    decreases |events|
  {
    if events != [] {
      OnlyAgainLoses(parses, Init(events));
    }
  }

  // ----- the fault that follows -----

  // A reply sent in part registers the write handler with the epoller again.
  predicate Registers(l: Link, e: Event) {
    Enabled(l, e) && e.Reply? && Small(e.message) && l.sender.pending == []
    && e.answer.Took? && e.answer.n < |Frame(e.message)|
  }

  // The events whose handlers end with a call on the data.
  predicate Strikes(l: Link, e: Event) {
    Enabled(l, e) && (e.Writable? || e.ReadEnds?)
  }

  ghost predicate DropsAt(parses: Bytes -> bool, events: seq<Event>, i: nat)
    requires i < |events|
  {
    Drops(After(parses, events[..i]), events[i])
  }

  ghost predicate RegistersAt(parses: Bytes -> bool, events: seq<Event>, i: nat)
    requires i < |events|
  {
    Registers(After(parses, events[..i]), events[i])
  }

  // The i-th event dropped a reply and none since has registered the epoller.
  ghost predicate NullSince(parses: Bytes -> bool, events: seq<Event>, i: nat)
    requires i < |events|
  {
    DropsAt(parses, events, i) && forall k | i < k < |events| :: !RegistersAt(parses, events, k)
  }

  ghost predicate OnNull(parses: Bytes -> bool, events: seq<Event>) {
    exists i | 0 <= i < |events| :: NullSince(parses, events, i)
  }

  lemma SameBefore(parses: Bytes -> bool, events: seq<Event>, i: nat)
    requires i < |events| - 1
    ensures DropsAt(parses, events, i) <==> DropsAt(parses, Init(events), i)
    ensures RegistersAt(parses, events, i) <==> RegistersAt(parses, Init(events), i)
  {
    assert Init(events)[..i] == events[..i];
  }

  lemma NullSinceStep(parses: Bytes -> bool, events: seq<Event>, i: nat)
    requires i < |events| - 1
    ensures NullSince(parses, events, i) <==>
              NullSince(parses, Init(events), i) && !RegistersAt(parses, events, |events| - 1)
  {
    forall k | i <= k < |events| - 1
      ensures DropsAt(parses, events, k) <==> DropsAt(parses, Init(events), k)
      ensures RegistersAt(parses, events, k) <==> RegistersAt(parses, Init(events), k)
    {
      SameBefore(parses, events, k);
    }
  }

  lemma NullStep(parses: Bytes -> bool, events: seq<Event>)
    requires events != []
    ensures OnNull(parses, events) <==>
              DropsAt(parses, events, |events| - 1)
              || (OnNull(parses, Init(events)) && !RegistersAt(parses, events, |events| - 1))
  {
    var n := |events| - 1;
    forall i | 0 <= i < n
      ensures NullSince(parses, events, i) <==> NullSince(parses, Init(events), i) && !RegistersAt(parses, events, n)
    {
      NullSinceStep(parses, events, i);
    }
    assert NullSince(parses, events, n) <==> DropsAt(parses, events, n);
  }

  lemma {:induction false} DataIffNotNull(parses: Bytes -> bool, events: seq<Event>)
    ensures After(parses, events).sender.hasData <==> !OnNull(parses, events)
    decreases |events|
  {
    if events != [] {
      DataIffNotNull(parses, Init(events));
      NullStep(parses, events);
      assert events[..|events| - 1] == Init(events);
    }
  }

  ghost predicate StrikesNull(parses: Bytes -> bool, events: seq<Event>, j: nat)
    requires j < |events|
  {
    Strikes(After(parses, events[..j]), events[j]) && OnNull(parses, events[..j])
  }

  lemma StrikeStep(parses: Bytes -> bool, l: Link, e: Event)
    requires Sound(parses, l)
    ensures Step(parses, l, e).end == Faulted(NullDereference) <==>
              l.end == Faulted(NullDereference) || (Strikes(l, e) && !l.sender.hasData)
  {
  }

  ghost predicate Struck(parses: Bytes -> bool, events: seq<Event>) {
    exists j | 0 <= j < |events| :: StrikesNull(parses, events, j)
  }

  lemma StruckStep(parses: Bytes -> bool, events: seq<Event>)
    requires events != []
    ensures Struck(parses, events) <==>
              Struck(parses, Init(events)) || StrikesNull(parses, events, |events| - 1)
  {
    var n, init := |events| - 1, Init(events);
    forall j | 0 <= j < n ensures StrikesNull(parses, events, j) <==> StrikesNull(parses, init, j) {
      assert init[..j] == events[..j] && init[j] == events[j];
    }
  }

  // A run dereferences NULL exactly if a reply is dropped and the server's write
  // handler, or the end of its reading, comes before the next partial send.
  lemma {:induction false} FaultsIff(parses: Bytes -> bool, events: seq<Event>)
    ensures After(parses, events).end == Faulted(NullDereference) <==> Struck(parses, events)
    decreases |events|
  {
    if events != [] {
      var init := Init(events);
      FaultsIff(parses, init);
      SoundAlways(parses, init);
      StrikeStep(parses, After(parses, init), events[|events| - 1]);
      DataIffNotNull(parses, init);
      StruckStep(parses, events);
      assert events[..|events| - 1] == init;
    }
  }
}

// Requests, from the client to the game server's queue.
module Uplinks {
  import opened Frames
  import opened Connections
  import opened EventStates

  // requests are the messages handed to the client's buffer, got how many of
  // the bytes sent the server has read.
  datatype Link = Link(requests: seq<Bytes>, sent: Bytes, pending: Bytes, end: End,
                       got: nat, held: Bytes, forwarded: seq<Bytes>)

  // Read's queued is how many frames the queue takes before it refuses one.
  datatype Event =
    | Request(message: Bytes)
    | Sent(n: nat)
    | Read(n: nat, queued: nat)

  const Fresh := Link([], [], [], Kept, 0, [], [])

  predicate Enabled(l: Link, e: Event) {
    match e
    case Request(m) => HEADER + |m| <= PKG_BUF_SIZE
    case Sent(n) => n <= |l.pending|
    case Read(n, _) => l.end == Kept && 0 < n <= PKG_BUF_SIZE && l.got + n <= |l.sent|
  }

  predicate Overflows(l: Link, n: nat) {
    |l.held| + n > PKG_BUF_SIZE
  }

  // Whether a release also meets a NULL handler depends on the replies.
  function Next(l: Link, e: Event): Link
    requires Enabled(l, e)
  {
    match e
    case Request(m) => l.(requests := l.requests + [m], pending := l.pending + Frame(m))
    case Sent(n) => l.(sent := l.sent + l.pending[..n], pending := l.pending[n..])
    case Read(n, queued) =>
      if Overflows(l, n) then l.(end := Released)
      else Took(l, n, queued, Drain(Server(), l.held + l.sent[l.got..l.got + n]))
  }

  // d is what the drain of a read made of it.
  function Took(l: Link, n: nat, queued: nat, d: Drained): Link {
    if queued < |d.frames| then l.(end := Released, forwarded := l.forwarded + d.frames[..queued])
    else l.(end := Stopped(d.rest), got := l.got + n, held := d.rest, forwarded := l.forwarded + d.frames)
  }

  // An event that cannot happen is skipped.
  function Step(l: Link, e: Event): Link {
    if Enabled(l, e) then Next(l, e) else l
  }

  function Init<T>(s: seq<T>): seq<T>
    requires s != []
  {
    s[..|s| - 1]
  }

  function After(events: seq<Event>): Link
    decreases |events|
  {
    if events == [] then Fresh else Step(After(Init(events)), events[|events| - 1])
  }

  // ----- invariant -----

  ghost predicate Conserved(l: Link) {
    l.sent + l.pending == Encode(l.requests)
  }

  ghost predicate CaughtUp(l: Link) {
    l.got <= |l.sent| && DrainsTo(Server(), l.sent[..l.got], Drained(l.forwarded, l.held))
  }

  // Some first requests, in order and nothing else.
  ghost predicate InOrder(l: Link) {
    l.forwarded <= l.requests
  }

  ghost predicate FitsBuffer(m: Bytes) {
    HEADER + |m| <= PKG_BUF_SIZE
  }

  ghost predicate Sound(l: Link) {
    && (forall m | m in l.requests :: FitsBuffer(m))
    && Conserved(l)
    && InOrder(l)
    && !l.end.Faulted?
    && (l.end == Kept ==> CaughtUp(l))
  }

  lemma FreshIsSound()
    ensures Sound(Fresh)
  {
  }

  lemma RequestKeepsSound(l: Link, m: Bytes)
    requires Sound(l) && FitsBuffer(m)
    ensures Sound(Next(l, Request(m)))
  {
    EncodeOne(l.requests, m);
    assert l.sent + (l.pending + Frame(m)) == (l.sent + l.pending) + Frame(m);
  }

  lemma SentKeepsSound(l: Link, n: nat)
    requires Sound(l) && n <= |l.pending|
    ensures Sound(Next(l, Sent(n)))
  {
    var wire := l.pending[..n];
    assert (l.sent + wire) + l.pending[n..] == l.sent + l.pending;
    assert l.end == Kept ==> (l.sent + wire)[..l.got] == l.sent[..l.got];
  }

  lemma Framed(l: Link)
    requires Sound(l)
    ensures AllFit(l.requests) && l.sent <= Encode(l.requests)
    ensures Parsed(Server(), l.requests) == l.requests
  {
    assert forall m | m in l.requests :: FitsBuffer(m) && Fits(m);
    assert Encode(l.requests)[..|l.sent|] == l.sent;
    ParsedAll(Server(), l.requests);
  }

  lemma PrefixOfPrefix(a: seq<Bytes>, b: seq<Bytes>, n: nat, whole: seq<Bytes>)
    requires a + b <= whole && n <= |b|
    ensures a + b[..n] <= whole
  {
  }

  lemma TookKeepsSound(l: Link, n: nat, queued: nat, d: Drained)
    requires Sound(l) && l.got + n <= |l.sent|
    requires DrainsTo(Server(), l.sent[..l.got + n], Drained(l.forwarded + d.frames, d.rest))
    requires l.forwarded + d.frames <= l.requests && !Ready(Server(), d.rest)
    ensures Sound(Took(l, n, queued, d))
  {
    if queued < |d.frames| {
      PrefixOfPrefix(l.forwarded, d.frames, queued, l.requests);
    }
  }

  lemma DrainOfRead(l: Link, n: nat, d: Drained)
    requires Sound(l) && l.end == Kept && l.got + n <= |l.sent|
    requires d == Drain(Server(), l.held + l.sent[l.got..l.got + n])
    ensures DrainsTo(Server(), l.sent[..l.got + n], Drained(l.forwarded + d.frames, d.rest))
    ensures l.forwarded + d.frames <= l.requests && !Ready(Server(), d.rest)
  {
    Framed(l);
    ChunkInOrder(Server(), l.requests, l.sent, l.got, n, l.forwarded, l.held, d);
  }

  lemma ReadKeepsSound(l: Link, n: nat, queued: nat)
    requires Sound(l) && Enabled(l, Read(n, queued))
    ensures Sound(Next(l, Read(n, queued)))
  {
    if Overflows(l, n) {
      return;
    }
    var d := Drain(Server(), l.held + l.sent[l.got..l.got + n]);
    DrainOfRead(l, n, d);
    TookKeepsSound(l, n, queued, d);
    assert Next(l, Read(n, queued)) == Took(l, n, queued, d);
  }

  lemma {:induction false} SoundAlways(events: seq<Event>)
    ensures Sound(After(events))
    decreases |events|
  {
    if events == [] {
      FreshIsSound();
      return;
    }
    SoundAlways(Init(events));
    var l, e := After(Init(events)), events[|events| - 1];
    if Enabled(l, e) {
      match e {
        case Request(m) => RequestKeepsSound(l, m);
        case Sent(n) => SentKeepsSound(l, n);
        case Read(n, queued) => ReadKeepsSound(l, n, queued);
      }
    }
  }

  // ----- end to end -----

  lemma Arrives(l: Link)
    requires Sound(l) && l.end == Kept
    ensures AllFit(l.requests) && l.got <= |Encode(l.requests)|
    ensures Drain(Server(), Encode(l.requests)[..l.got]) == Drained(l.forwarded, l.held)
    ensures l.forwarded == l.requests[..Arrived(2 * HEADER, l.requests, l.got)]
  {
    Framed(l);
    DrainsToMeans(Server(), l.sent[..l.got], Drained(l.forwarded, l.held));
    assert Encode(l.requests)[..l.got] == l.sent[..l.got];
    FramesAreMessages(Server(), l.requests, l.got);
  }

  // The queue has taken some first requests, and while the connection is kept
  // exactly those that have fully arrived. The server meets no fault in their
  // frames.
  lemma ForwardsInOrder(events: seq<Event>)
    ensures var l := After(events);
            && l.forwarded <= l.requests
            && (l.end == Kept ==> l.forwarded == l.requests[..Arrived(2 * HEADER, l.requests, l.got)])
            && !l.end.Faulted?
  {
    SoundAlways(events);
    var l := After(events);
    if l.end == Kept { Arrives(l); }
  }

  // While it is kept, what the server holds is never a complete frame, nor one
  // whose header does not cover itself.
  lemma NothingReady(events: seq<Event>)
    requires After(events).end == Kept
    ensures !Ready(Server(), After(events).held)
  {
    SoundAlways(events);
    var l := After(events);
    Framed(l);
    DrainsToMeans(Server(), l.sent[..l.got], Drained(l.forwarded, l.held));
    FramedNeverReady(Server(), l.requests, l.sent[..l.got]);
  }

  // Once all is sent and read, every request is forwarded, except that one
  // with less than three bytes in last place waits for the next.
  lemma ForwardsAllIff(events: seq<Event>)
    requires var l := After(events); l.end == Kept && l.pending == [] && l.got == |l.sent| && l.requests != []
    ensures var l := After(events);
            l.forwarded == l.requests <==> |l.requests[|l.requests| - 1]| > HEADER
  {
    ForwardsInOrder(events);
    SoundAlways(events);
    var l := After(events);
    EncodeSize(l.requests);
    AllArriveIff(2 * HEADER, l.requests);
  }

  // ----- what a run adds up to -----

  // A read that overflows releases the connection. Otherwise the queue takes
  // the frames it is given up to the first it refuses, which releases it too.
  lemma ReadMeans(l: Link, n: nat, queued: nat)
    requires Sound(l) && Enabled(l, Read(n, queued))
    ensures var l', d := Next(l, Read(n, queued)), Drain(Server(), l.held + l.sent[l.got..l.got + n]);
            if |l.held| + n > PKG_BUF_SIZE then l' == l.(end := Released)
            else
              && l.forwarded <= l'.forwarded <= l.forwarded + d.frames
              && |l'.forwarded| == |l.forwarded| + (if queued < |d.frames| then queued else |d.frames|)
              && (l'.end == Released <==> queued < |d.frames|)
              && (l'.end == Kept <==> queued >= |d.frames|)
              && (l'.end == Kept ==> l'.got == l.got + n && l'.held == d.rest)
  {
    if !Overflows(l, n) {
      var d := Drain(Server(), l.held + l.sent[l.got..l.got + n]);
      DrainOfRead(l, n, d);
      assert Next(l, Read(n, queued)) == Took(l, n, queued, d);
      assert d.frames[..|d.frames|] == d.frames;
    }
  }

  function Requests(events: seq<Event>): seq<Bytes>
    decreases |events|
  {
    if events == [] then []
    else
      var e := events[|events| - 1];
      Requests(Init(events)) + if e.Request? && HEADER + |e.message| <= PKG_BUF_SIZE then [e.message] else []
  }

  function SentAll(events: seq<Event>): nat
    decreases |events|
  {
    if events == [] then 0
    else
      var e := events[|events| - 1];
      SentAll(Init(events)) + if e.Sent? && Enabled(After(Init(events)), e) then e.n else 0
  }

  function ReadAll(events: seq<Event>): nat
    decreases |events|
  {
    if events == [] then 0
    else
      var e := events[|events| - 1];
      ReadAll(Init(events)) + if e.Read? && Enabled(After(Init(events)), e) then e.n else 0
  }

  // The requests are those that were made; the bytes sent are as many as send
  // took, and while the connection is kept those read as many as recv gave.
  lemma {:induction false} Tally(events: seq<Event>)
    ensures After(events).requests == Requests(events)
    ensures |After(events).sent| == SentAll(events)
    ensures After(events).end == Kept ==> After(events).got == ReadAll(events)
    decreases |events|
  {
    if events != [] {
      Tally(Init(events));
      StepTally(After(Init(events)), events[|events| - 1]);
    }
  }

  lemma StepTally(l: Link, e: Event)
    ensures var l' := Step(l, e);
            && l'.requests
               == l.requests + (if e.Request? && HEADER + |e.message| <= PKG_BUF_SIZE then [e.message] else [])
            && |l'.sent| == |l.sent| + (if e.Sent? && Enabled(l, e) then e.n else 0)
            && (l'.end == Kept ==> l.end == Kept && l'.got == l.got + if e.Read? && Enabled(l, e) then e.n else 0)
  {
  }

  // ----- overflow -----

  // Whether the server keeps up depends on the chunks only through their size:
  // reads that leave room for the largest frame but one byte never overflow.
  lemma SmallReadsFit(events: seq<Event>, most: nat, n: nat)
    requires After(events).end == Kept
    requires Bounded(After(events), most)
    requires 2 * HEADER < most && n <= PKG_BUF_SIZE - (most - 1)
    ensures !Overflows(After(events), n)
  {
    SoundAlways(events);
    NothingReady(events);
    var l := After(events);
    Arrives(l);
    HeldIsBounded(Server(), l.requests, l.got, most);
  }

  lemma AfterOne(events: seq<Event>, e: Event)
    ensures After(events + [e]) == Step(After(events), e)
  {
    assert Init(events + [e]) == events;
  }

  lemma AlmostDrained(m: Bytes, b: Bytes)
    requires 2 * HEADER < HEADER + |m| <= PKG_BUF_SIZE && b == Frame(m)[..HEADER + |m| - 1]
    ensures Drain(Server(), b) == Drained([], b)
  {
    assert Length(b) == HEADER + |m|;
  }

  lemma AlmostSteps(m: Bytes)
    requires 2 * HEADER < HEADER + |m| <= PKG_BUF_SIZE
    ensures var most := HEADER + |m|;
            var l := Step(Step(Step(Fresh, Request(m)), Sent(most - 1)), Read(most - 1, 0));
            l.end == Kept && l.got == |l.sent| == |l.held| == most - 1 && l.requests == [m]
  {
    var most := HEADER + |m|;
    var b := Frame(m)[..most - 1];
    var l2 := Step(Step(Fresh, Request(m)), Sent(most - 1));
    assert l2.sent == b && l2.held + l2.sent[0..most - 1] == b;
    AlmostDrained(m, b);
  }

  // All of a frame but its last byte, read.
  lemma AlmostRead(m: Bytes)
    requires 2 * HEADER < HEADER + |m| <= PKG_BUF_SIZE
    ensures var most := HEADER + |m|; var l := After([Request(m), Sent(most - 1), Read(most - 1, 0)]);
            l.end == Kept && l.got == |l.sent| == |l.held| == most - 1 && l.requests == [m]
  {
    var a, b, c := Request(m), Sent(HEADER + |m| - 1), Read(HEADER + |m| - 1, 0);
    AlmostSteps(m);
    AfterOne([], a);
    AfterOne([a], b);
    AfterOne([a, b], c);
    assert [] + [a] == [a] && [a] + [b] == [a, b] && [a, b] + [c] == [a, b, c];
  }

  // k requests of the same message.
  function Copies(m: Bytes, k: nat): seq<Event> {
    if k == 0 then [] else Copies(m, k - 1) + [Request(m)]
  }

  ghost predicate Bounded(l: Link, most: nat) {
    forall m | m in l.requests :: HEADER + |m| <= most
  }

  // They leave the server where it is and give the client at least k bytes to
  // send.
  lemma {:induction false} AfterCopies(events: seq<Event>, m: Bytes, k: nat)
    requires HEADER + |m| <= PKG_BUF_SIZE
    ensures var l, l' := After(events), After(events + Copies(m, k));
            && l'.sent == l.sent && l'.end == l.end && l'.got == l.got && l'.held == l.held
            && |l'.pending| >= |l.pending| + k
    decreases k
  {
    if k == 0 {
      assert events + Copies(m, k) == events;
    } else {
      AfterCopies(events, m, k - 1);
      AfterOne(events + Copies(m, k - 1), Request(m));
      assert events + Copies(m, k) == events + Copies(m, k - 1) + [Request(m)];
    }
  }

  lemma RequestBounded(l: Link, m: Bytes, most: nat)
    requires HEADER + |m| <= PKG_BUF_SIZE && HEADER + |m| <= most && Bounded(l, most)
    ensures Bounded(Step(l, Request(m)), most)
  {
  }

  lemma {:induction false} CopiesBounded(events: seq<Event>, m: Bytes, k: nat, most: nat)
    requires HEADER + |m| <= PKG_BUF_SIZE && HEADER + |m| <= most && Bounded(After(events), most)
    ensures Bounded(After(events + Copies(m, k)), most)
    decreases k
  {
    if k == 0 {
      assert events + Copies(m, k) == events;
      return;
    }
    var before := events + Copies(m, k - 1);
    CopiesBounded(events, m, k - 1, most);
    RequestBounded(After(before), m, most);
    AfterOne(before, Request(m));
    assert events + Copies(m, k) == before + [Request(m)];
  }

  // The run in which all of a message but its last byte is held, and n bytes
  // more have been sent.
  function FullRun(m: Bytes, n: nat): seq<Event> {
    [Request(m), Sent(HEADER + |m| - 1), Read(HEADER + |m| - 1, 0)] + Copies(m, n) + [Sent(n)]
  }

  lemma AfterFullRun(m: Bytes, n: nat)
    requires 2 * HEADER < HEADER + |m| <= PKG_BUF_SIZE
    ensures var most, l := HEADER + |m|, After(FullRun(m, n));
            && Bounded(l, most)
            && l.end == Kept && |l.held| == most - 1 && l.got + n <= |l.sent|
  {
    var almost := [Request(m), Sent(HEADER + |m| - 1), Read(HEADER + |m| - 1, 0)];
    AlmostRead(m);
    AfterCopies(almost, m, n);
    CopiesBounded(almost, m, n, HEADER + |m|);
    AfterOne(almost + Copies(m, n), Sent(n));
  }

  // A read of one byte more overflows in that run, in which no request is
  // larger than the bound: the server makes it and releases the connection.
  lemma LargeReadsOverflow(m: Bytes, n: nat, queued: nat)
    requires 2 * HEADER < HEADER + |m| <= PKG_BUF_SIZE
    requires PKG_BUF_SIZE - (HEADER + |m| - 1) < n <= PKG_BUF_SIZE
    ensures var before := FullRun(m, n);
            && Bounded(After(before), HEADER + |m|)
            && Enabled(After(before), Read(n, queued))
            && Overflows(After(before), n)
            && After(before + [Read(n, queued)]).end == Released
  {
    AfterFullRun(m, n);
    AfterOne(FullRun(m, n), Read(n, queued));
  }

  // No run with requests of at most `most` bytes has a read of n bytes that
  // overflows.
  ghost predicate ReadsFit(most: nat, n: nat) {
    forall events, queued ::
      Bounded(After(events), most) && Enabled(After(events), Read(n, queued)) ==> !Overflows(After(events), n)
  }

  lemma ReadsFitIff(most: nat, n: nat)
    requires 2 * HEADER < most <= PKG_BUF_SIZE && 0 < n <= PKG_BUF_SIZE
    ensures ReadsFit(most, n) <==> n <= PKG_BUF_SIZE - (most - 1)
  {
    if n <= PKG_BUF_SIZE - (most - 1) {
      forall events, queued | Bounded(After(events), most) && Enabled(After(events), Read(n, queued))
        ensures !Overflows(After(events), n)
      {
        SmallReadsFit(events, most, n);
      }
    } else {
      var m: Bytes := seq(most - HEADER, _ => 0);
      LargeReadsOverflow(m, n, 0);
      assert Enabled(After(FullRun(m, n)), Read(n, 0));
    }
  }
}
