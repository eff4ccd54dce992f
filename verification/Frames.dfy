// The length-prefixed stream both ends of a connection speak:
// src/connsvr/event_module, src/connsvr/conn_mgr_module and src/tcpclient.
module Frames {
  import opened Wrappers

  type Byte = x: int | 0 <= x < 256

  type Bytes = seq<Byte>

  // ----- frames -----

  // The size of the header, which counts itself.
  const HEADER := 2

  // htons: a length beyond 16 bits is truncated.
  function Header(n: nat): Bytes {
    [n / 256 % 256, n % 256]
  }

  // ntohs
  function Length(b: Bytes): nat
    requires |b| >= HEADER
  {
    b[0] as int * 256 + b[1]
  }

  function Frame(message: Bytes): Bytes {
    Header(HEADER + |message|) + message
  }

  // The header is in network byte order: it compares as its length does.
  lemma HeaderOrder(m: nat, n: nat)
    requires m < 65536 && n < 65536
    ensures var a, b := Header(m), Header(n);
            |a| == |b| == HEADER && (m < n <==> a[0] < b[0] || (a[0] == b[0] && a[1] < b[1]))
  {
  }

  // A frame's length is that of the whole frame.
  lemma FrameCountsItself(message: Bytes)
    requires Fits(message)
    ensures Length(Frame(message)) == |Frame(message)| == HEADER + |message|
    ensures Frame(message)[HEADER..] == message
  {
  }

  predicate Fits(message: Bytes) {
    HEADER + |message| < 65536
  }

  function Size(messages: seq<Bytes>): nat {
    if messages == [] then 0 else HEADER + |messages[0]| + Size(messages[1..])
  }

  function Encode(messages: seq<Bytes>): Bytes {
    if messages == [] then [] else Frame(messages[0]) + Encode(messages[1..])
  }

  lemma {:induction false} EncodeSize(messages: seq<Bytes>)
    ensures |Encode(messages)| == Size(messages)
  {
    if messages != [] { EncodeSize(messages[1..]); }
  }

  lemma {:induction false} EncodeAppend(a: seq<Bytes>, b: seq<Bytes>)
    ensures Encode(a + b) == Encode(a) + Encode(b)
  {
    if a == [] {
      assert a + b == b;
    } else {
      assert (a + b)[1..] == a[1..] + b;
      EncodeAppend(a[1..], b);
    }
  }

  lemma EncodeOne(messages: seq<Bytes>, message: Bytes)
    ensures Encode(messages + [message]) == Encode(messages) + Frame(message)
  {
    EncodeAppend(messages, [message]);
    assert Encode([message]) == Frame(message) + Encode([]);
  }

  lemma EncodeFirst(message: Bytes, messages: seq<Bytes>, rest: Bytes)
    ensures Encode([message] + messages) + rest == Frame(message) + (Encode(messages) + rest)
  {
    assert ([message] + messages)[1..] == messages;
    assert Frame(message) + (Encode(messages) + rest) == (Frame(message) + Encode(messages)) + rest;
  }

  // ----- receiving -----

  // A receiver looks at a frame once it holds more than `least` bytes, and
  // goes no further than a payload it cannot parse.
  datatype Receiver = Receiver(least: nat, parses: Bytes -> bool)

  datatype Drained = Drained(frames: seq<Bytes>, rest: Bytes)

  predicate Ready(r: Receiver, b: Bytes) {
    |b| > r.least && |b| >= HEADER && Length(b) <= |b|
  }

  function Payload(b: Bytes): Bytes
    requires |b| >= HEADER && HEADER <= Length(b) <= |b|
  {
    b[HEADER..Length(b)]
  }

  predicate Takes(r: Receiver, b: Bytes) {
    Ready(r, b) && HEADER <= Length(b) && r.parses(Payload(b))
  }

  // A header that does not even cover itself is where the drain loop stops.
  function Drain(r: Receiver, b: Bytes): Drained
    decreases |b|
  {
    if Takes(r, b) then
      var d := Drain(r, b[Length(b)..]);
      Drained([Payload(b)] + d.frames, d.rest)
    else Drained([], b)
  }

  lemma FrameOfPayload(b: Bytes)
    requires |b| >= HEADER && HEADER <= Length(b) <= |b|
    ensures Frame(Payload(b)) + b[Length(b)..] == b
  {
  }

  // No byte is lost or repeated, and the loop ends only when it must.
  lemma {:induction false} DrainConserves(r: Receiver, b: Bytes)
    ensures b == Encode(Drain(r, b).frames) + Drain(r, b).rest
    ensures !Takes(r, Drain(r, b).rest)
    decreases |b|
  {
    if Takes(r, b) {
      var d := Drain(r, b[Length(b)..]);
      DrainConserves(r, b[Length(b)..]);
      FrameOfPayload(b);
      EncodeFirst(Payload(b), d.frames, d.rest);
    }
  }

  // The same as an equation, kept folded.
  ghost predicate DrainsTo(r: Receiver, b: Bytes, d: Drained) {
    forall k: int {:trigger Unfolds(k)} | Unfolds(k) :: Drain(r, b) == d
  }

  lemma DrainsToMeans(r: Receiver, b: Bytes, d: Drained)
    ensures DrainsTo(r, b, d) <==> Drain(r, b) == d
  {
    assert Unfolds(0);
  }

  // ----- chunks -----

  // What more bytes behind a frame cannot change.
  lemma TakesAlso(r: Receiver, b: Bytes, c: Bytes)
    requires Takes(r, b)
    ensures Takes(r, b + c) && Length(b + c) == Length(b)
    ensures Payload(b + c) == Payload(b)
    ensures (b + c)[Length(b)..] == b[Length(b)..] + c
  {
    assert (b + c)[HEADER..Length(b)] == b[HEADER..Length(b)];
  }

  lemma DrainStops(r: Receiver, b: Bytes, d: Drained)
    requires Drain(r, b) == d
    ensures !Takes(r, d.rest)
  {
    DrainConserves(r, b);
  }

  // A receiver stopped at a frame stays there, whatever comes behind it.
  lemma StopsAlso(r: Receiver, b: Bytes, c: Bytes)
    requires Ready(r, b) && !Takes(r, b)
    ensures Ready(r, b + c) && Drain(r, b + c) == Drained([], b + c)
  {
    if HEADER <= Length(b) {
      assert (b + c)[HEADER..Length(b)] == b[HEADER..Length(b)];
    }
  }

  // Draining what is left of one chunk with the next gives what draining both
  // at once gives.
  lemma {:induction false} DrainAppend(r: Receiver, b: Bytes, c: Bytes)
    ensures var d := Drain(r, b); var e := Drain(r, d.rest + c);
            Drain(r, b + c) == Drained(d.frames + e.frames, e.rest)
    decreases |b|
  {
    var d := Drain(r, b);
    var e := Drain(r, d.rest + c);
    if Takes(r, b) {
      TakesAlso(r, b, c);
      var tail := b[Length(b)..];
      DrainAppend(r, tail, c);
      var f := Drain(r, tail);
      assert ([Payload(b)] + f.frames) + e.frames == [Payload(b)] + (f.frames + e.frames);
    } else {
      assert d.frames + e.frames == e.frames;
    }
  }

  // The chunk behind the first `got` bytes of a stream, drained by a receiver
  // that has kept up.
  lemma DrainChunk(r: Receiver, sent: Bytes, got: nat, n: nat, d: Drained)
    requires got + n <= |sent| && Drain(r, sent[..got]) == d
    ensures var e := Drain(r, d.rest + sent[got..got + n]);
            Drain(r, sent[..got + n]) == Drained(d.frames + e.frames, e.rest)
  {
    assert sent[..got + n] == sent[..got] + sent[got..got + n];
    DrainAppend(r, sent[..got], sent[got..got + n]);
  }

  // What a drain has done so far and what is still to come make up the whole.
  ghost predicate Partway(r: Receiver, d: Drained, done: seq<Bytes>, b: Bytes) {
    d == Drained(done + Drain(r, b).frames, Drain(r, b).rest)
  }

  lemma NextPart(r: Receiver, d: Drained, done: seq<Bytes>, b: Bytes)
    requires Partway(r, d, done, b) && Takes(r, b)
    ensures Partway(r, d, done + [Payload(b)], b[Length(b)..])
    ensures |done| < |d.frames| && d.frames[..|done| + 1] == done + [Payload(b)]
  {
  }

  lemma LastPart(r: Receiver, d: Drained, done: seq<Bytes>, b: Bytes)
    requires Partway(r, d, done, b) && !Takes(r, b)
    ensures d == Drained(done, b)
  {
  }

  lemma ChunkDrains(r: Receiver, sent: Bytes, got: nat, n: nat, d: Drained)
    requires got + n <= |sent| && DrainsTo(r, sent[..got], d)
    ensures var e := Drain(r, d.rest + sent[got..got + n]);
            DrainsTo(r, sent[..got + n], Drained(d.frames + e.frames, e.rest))
  {
    DrainsToMeans(r, sent[..got], d);
    DrainChunk(r, sent, got, n, d);
  }

  function Concat(chunks: seq<Bytes>): Bytes {
    if chunks == [] then [] else chunks[0] + Concat(chunks[1..])
  }

  // One drain after every chunk.
  function Feed(r: Receiver, b: Bytes, chunks: seq<Bytes>): Drained
    decreases |chunks|
  {
    if chunks == [] then Drained([], b)
    else
      var d := Drain(r, b + chunks[0]);
      var e := Feed(r, d.rest, chunks[1..]);
      Drained(d.frames + e.frames, e.rest)
  }

  lemma {:induction false} FeedIsDrain(r: Receiver, b: Bytes, chunks: seq<Bytes>)
    requires !Takes(r, b)
    ensures Feed(r, b, chunks) == Drain(r, b + Concat(chunks))
    decreases |chunks|
  {
    if chunks == [] {
      assert b + Concat(chunks) == b;
    } else {
      var c, more := b + chunks[0], Concat(chunks[1..]);
      var d := Drain(r, c);
      var e := Drain(r, d.rest + more);
      calc {
        Feed(r, b, chunks);
      ==  { DrainConserves(r, c); FeedIsDrain(r, d.rest, chunks[1..]); }
        Drained(d.frames + e.frames, e.rest);
      ==  { DrainAppend(r, c, more); }
        Drain(r, c + more);
      ==  { assert b + Concat(chunks) == c + more; }
        Drain(r, b + Concat(chunks));
      }
    }
  }

  // How a stream is cut into chunks makes no difference.
  lemma ChunkingIsIrrelevant(r: Receiver, b: Bytes, one: seq<Bytes>, other: seq<Bytes>)
    requires !Takes(r, b) && Concat(one) == Concat(other)
    ensures Feed(r, b, one) == Feed(r, b, other)
  {
    FeedIsDrain(r, b, one);
    FeedIsDrain(r, b, other);
  }

  // ----- round trip -----

  ghost predicate AllFit(messages: seq<Bytes>) {
    forall m | m in messages :: Fits(m)
  }

  // The messages before the first that the receiver cannot parse.
  function Parsed(r: Receiver, messages: seq<Bytes>): (p: seq<Bytes>)
    ensures p <= messages
    ensures |p| < |messages| ==> !r.parses(messages[|p|])
  {
    if messages == [] || !r.parses(messages[0]) then [] else [messages[0]] + Parsed(r, messages[1..])
  }

  lemma {:induction false} ParsedAll(r: Receiver, messages: seq<Bytes>)
    ensures Parsed(r, messages) == messages <==> forall m | m in messages :: r.parses(m)
  {
    if messages != [] {
      ParsedAll(r, messages[1..]);
      assert messages == [messages[0]] + messages[1..];
    }
  }

  // How many messages n bytes of their encoding deliver.
  function Arrived(least: nat, messages: seq<Bytes>, n: nat): (k: nat)
    ensures k <= |messages|
    decreases |messages|
  {
    if messages == [] || n <= least || n < HEADER + |messages[0]| then 0
    else Arrived(least, messages[1..], n - HEADER - |messages[0]|) + 1
  }

  // Fewer than all only if the next one is incomplete, or so short that its
  // receiver still waits.
  lemma {:induction false} ArrivedMeans(least: nat, messages: seq<Bytes>, n: nat)
    ensures var k := Arrived(least, messages, n);
            && Size(messages[..k]) <= n
            && (k < |messages| ==>
                  n < Size(messages[..k]) + HEADER + |messages[k]| || n <= Size(messages[..k]) + least)
    decreases |messages|
  {
    if messages != [] && n > least && n >= HEADER + |messages[0]| {
      var m := n - HEADER - |messages[0]|;
      var k := Arrived(least, messages[1..], m);
      ArrivedMeans(least, messages[1..], m);
      assert messages[..k + 1] == [messages[0]] + messages[1..][..k];
    }
  }

  lemma FrameLength(message: Bytes, more: Bytes, n: nat)
    requires Fits(message) && HEADER <= n <= |Frame(message) + more|
    ensures Length((Frame(message) + more)[..n]) == HEADER + |message|
  {
  }

  lemma FrameBehind(message: Bytes, more: Bytes, n: nat)
    requires HEADER + |message| <= n <= |Frame(message) + more|
    ensures var b := (Frame(message) + more)[..n]; var size := HEADER + |message|;
            b[HEADER..size] == message && b[size..] == more[..n - size]
  {
  }

  lemma FirstFrame(r: Receiver, messages: seq<Bytes>, n: nat)
    requires messages != [] && AllFit(messages) && r.least < n <= |Encode(messages)|
    requires r.least >= HEADER
    ensures var b := Encode(messages)[..n]; var size := HEADER + |messages[0]|;
            && (Takes(r, b) <==> size <= n && r.parses(messages[0]))
            && (size <= n ==> Length(b) == size && Payload(b) == messages[0]
                              && n - size <= |Encode(messages[1..])| && b[size..] == Encode(messages[1..])[..n - size])
  {
    var m, more := messages[0], Encode(messages[1..]);
    assert Fits(m);
    FrameLength(m, more, n);
    if HEADER + |m| <= n {
      FrameBehind(m, more, n);
    }
  }

  lemma DrainFirst(r: Receiver, b: Bytes, size: nat, tail: Bytes)
    requires Takes(r, b) && Length(b) == size && b[size..] == tail
    ensures Drain(r, b) == Drained([Payload(b)] + Drain(r, tail).frames, Drain(r, tail).rest)
  {
  }

  lemma ArrivedFirst(least: nat, first: Bytes, others: seq<Bytes>, n: nat, k: nat)
    requires n > least && n >= HEADER + |first|
    requires k == Arrived(least, others, n - HEADER - |first|)
    ensures ([first] + others)[..Arrived(least, [first] + others, n)] == [first] + others[..k]
  {
    assert ([first] + others)[1..] == others;
  }

  lemma {:induction false} FramesAreMessages(r: Receiver, messages: seq<Bytes>, n: nat)
    requires AllFit(messages) && r.least >= HEADER && n <= |Encode(messages)|
    ensures var p := Parsed(r, messages);
            Drain(r, Encode(messages)[..n]).frames == p[..Arrived(r.least, p, n)]
    decreases |messages|, 1
  {
    if messages == [] || n <= r.least {
      assert !Takes(r, Encode(messages)[..n]);
      return;
    }
    FirstFrame(r, messages, n);
    if n >= HEADER + |messages[0]| && r.parses(messages[0]) {
      NextMessage(r, messages, n);
    }
  }

  lemma {:induction false} NextMessage(r: Receiver, messages: seq<Bytes>, n: nat)
    requires AllFit(messages) && r.least >= HEADER && n <= |Encode(messages)|
    requires messages != [] && n > r.least && n >= HEADER + |messages[0]| && r.parses(messages[0])
    ensures var p := Parsed(r, messages);
            Drain(r, Encode(messages)[..n]).frames == p[..Arrived(r.least, p, n)]
    decreases |messages|, 0
  {
    var m, tail := messages[0], messages[1..];
    var q := Parsed(r, tail);
    var k := Arrived(r.least, q, n - HEADER - |m|);
    FirstFrame(r, messages, n);
    FramesAreMessages(r, tail, n - HEADER - |m|);
    FirstOfDrain(r, messages, n, q[..k]);
    ArrivedFirst(r.least, m, q, n, k);
  }

  lemma FirstOfDrain(r: Receiver, messages: seq<Bytes>, n: nat, others: seq<Bytes>)
    requires AllFit(messages) && r.least >= HEADER && n <= |Encode(messages)|
    requires messages != [] && n > r.least && n >= HEADER + |messages[0]| && r.parses(messages[0])
    requires Drain(r, Encode(messages[1..])[..n - HEADER - |messages[0]|]).frames == others
    ensures Drain(r, Encode(messages)[..n]).frames == [messages[0]] + others
  {
    FirstFrame(r, messages, n);
    var size := HEADER + |messages[0]|;
    DrainFirst(r, Encode(messages)[..n], size, Encode(messages[1..])[..n - size]);
  }

  // Any first n bytes of an encoding drain to the messages that have arrived,
  // up to the first that does not parse, and leave the bytes behind them.
  lemma RoundTrip(r: Receiver, messages: seq<Bytes>, n: nat)
    requires AllFit(messages) && r.least >= HEADER && n <= |Encode(messages)|
    ensures var k := Arrived(r.least, Parsed(r, messages), n);
            && k <= |messages| && Size(messages[..k]) <= n
            && Drain(r, Encode(messages)[..n]) == Drained(messages[..k], Encode(messages)[Size(messages[..k])..n])
  {
    var p := Parsed(r, messages);
    var k := Arrived(r.least, p, n);
    FramesAreMessages(r, messages, n);
    DrainConserves(r, Encode(messages)[..n]);
    ArrivedMeans(r.least, p, n);
    assert p[..k] == messages[..k];
    EncodeSize(messages[..k]);
  }

  lemma EncodeFrom(messages: seq<Bytes>, k: nat)
    requires k < |messages|
    ensures Size(messages[..k]) <= |Encode(messages)|
    ensures Encode(messages)[Size(messages[..k])..] == Frame(messages[k]) + Encode(messages[k + 1..])
  {
    assert messages == messages[..k] + messages[k..];
    EncodeAppend(messages[..k], messages[k..]);
    EncodeSize(messages[..k]);
    assert messages[k..][1..] == messages[k + 1..];
  }

  // What is left begins with the header of the next message.
  lemma RestBegins(r: Receiver, messages: seq<Bytes>, n: nat)
    requires AllFit(messages) && r.least >= HEADER && n <= |Encode(messages)|
    ensures var k := Arrived(r.least, Parsed(r, messages), n);
            var rest := Drain(r, Encode(messages)[..n]).rest;
            && k <= |messages| && |rest| == n - Size(messages[..k])
            && (|rest| >= HEADER ==> k < |messages| && Length(rest) == HEADER + |messages[k]|)
  {
    RoundTrip(r, messages, n);
    EncodeSize(messages);
    var k := Arrived(r.least, Parsed(r, messages), n);
    var size := Size(messages[..k]);
    if k == |messages| {
      assert messages[..k] == messages;
    } else if n - size >= HEADER {
      EncodeFrom(messages, k);
      assert messages[k] in messages;
      FrameLength(messages[k], Encode(messages[k + 1..]), n - size);
      assert Encode(messages)[size..n] == Encode(messages)[size..][..n - size];
    }
  }

  lemma {:induction false} SizeUpTo(messages: seq<Bytes>, k: nat)
    requires k < |messages|
    ensures Size(messages[..k]) + HEADER + |messages[k]| <= Size(messages)
  {
    if k > 0 {
      SizeUpTo(messages[1..], k - 1);
      assert messages[..k][1..] == messages[1..][..k - 1];
    }
  }

  // A receiver stops at a complete frame exactly if it is the first message
  // that does not parse, all of it has arrived, and it is long enough.
  lemma ReadyIff(r: Receiver, messages: seq<Bytes>, n: nat)
    requires AllFit(messages) && r.least >= HEADER && n <= |Encode(messages)|
    ensures var p := |Parsed(r, messages)|;
            Ready(r, Drain(r, Encode(messages)[..n]).rest) <==>
              && p < |messages|
              && n > Size(messages[..p]) + r.least && n >= Size(messages[..p]) + HEADER + |messages[p]|
  {
    RestBegins(r, messages, n);
    ArrivedParsed(r, messages, n);
  }

  lemma ArrivedParsed(r: Receiver, messages: seq<Bytes>, n: nat)
    ensures var p, k := |Parsed(r, messages)|, Arrived(r.least, Parsed(r, messages), n);
            && k <= p <= |messages|
            && (k < p ==>
                  && (n < Size(messages[..k]) + HEADER + |messages[k]| || n <= Size(messages[..k]) + r.least)
                  && Size(messages[..k]) + HEADER + |messages[k]| <= Size(messages[..p]))
  {
    var parsed := Parsed(r, messages);
    ArrivedMeans(r.least, parsed, n);
    var k := Arrived(r.least, parsed, n);
    assert parsed[..k] == messages[..k] && parsed == messages[..|parsed|];
    if k < |parsed| {
      SizeUpTo(parsed, k);
    }
  }

  lemma Regroup(sent: Bytes, pending: Bytes, wire: Bytes, rest: Bytes, more: Bytes)
    requires wire + rest == pending + more
    ensures (sent + wire) + rest == (sent + pending) + more
  {
    assert (sent + wire) + rest == sent + (wire + rest);
    assert (sent + pending) + more == sent + (pending + more);
  }

  lemma FramesInOrder(r: Receiver, messages: seq<Bytes>, stream: Bytes)
    requires AllFit(messages) && r.least >= HEADER && stream <= Encode(messages)
    ensures Drain(r, stream).frames <= messages
  {
    var n := |stream|;
    assert Encode(messages)[..n] == stream;
    FramesAreMessages(r, messages, n);
    var p := Parsed(r, messages);
    assert p[..Arrived(r.least, p, n)] <= p;
  }

  lemma FramedNeverReady(r: Receiver, messages: seq<Bytes>, stream: Bytes)
    requires AllFit(messages) && r.least >= HEADER && stream <= Encode(messages)
    requires Parsed(r, messages) == messages
    ensures !Ready(r, Drain(r, stream).rest)
  {
    assert Encode(messages)[..|stream|] == stream;
    ReadyIff(r, messages, |stream|);
  }

  // A chunk of an encoding, drained by a receiver that has kept up and parses
  // everything, hands out the messages that come next.
  lemma ChunkInOrder(r: Receiver, messages: seq<Bytes>, sent: Bytes, got: nat, n: nat,
                     frames: seq<Bytes>, held: Bytes, d: Drained)
    requires AllFit(messages) && Parsed(r, messages) == messages && r.least >= HEADER && sent <= Encode(messages)
    requires got + n <= |sent| && DrainsTo(r, sent[..got], Drained(frames, held))
    requires d == Drain(r, held + sent[got..got + n])
    ensures DrainsTo(r, sent[..got + n], Drained(frames + d.frames, d.rest))
    ensures frames + d.frames <= messages && !Ready(r, d.rest)
  {
    DrainsToMeans(r, sent[..got], Drained(frames, held));
    DrainChunk(r, sent, got, n, Drained(frames, held));
    FramesInOrder(r, messages, sent[..got + n]);
    FramedNeverReady(r, messages, sent[..got + n]);
  }

  // Once everything has been sent everything has arrived, exactly if the last
  // message is long enough for its receiver to look at it.
  lemma {:induction false} AllArriveIff(least: nat, messages: seq<Bytes>)
    requires messages != []
    ensures Arrived(least, messages, Size(messages)) == |messages| <==> HEADER + |messages[|messages| - 1]| > least
    decreases |messages|
  {
    if |messages| > 1 {
      SizeOfLast(messages);
      AllArriveIff(least, messages[1..]);
    }
  }

  lemma AllParsedArriveIff(r: Receiver, messages: seq<Bytes>, got: seq<Bytes>)
    requires messages != []
    requires var p := Parsed(r, messages); got == p[..Arrived(r.least, p, Size(messages))]
    ensures got == messages <==>
              (forall m | m in messages :: r.parses(m)) && HEADER + |messages[|messages| - 1]| > r.least
  {
    ParsedAll(r, messages);
    AllArriveIff(r.least, messages);
    var p := Parsed(r, messages);
    if p != messages {
      assert |got| <= |p| < |messages|;
    }
  }

  lemma {:induction false} SizeOfLast(messages: seq<Bytes>)
    requires messages != []
    ensures Size(messages) >= HEADER + |messages[|messages| - 1]|
  {
    if |messages| > 1 { SizeOfLast(messages[1..]); }
  }

  // Between reads a receiver that has not stopped at a frame holds less than
  // the largest, unless it is still waiting for its first look.
  lemma HeldIsBounded(r: Receiver, messages: seq<Bytes>, n: nat, most: nat)
    requires AllFit(messages) && r.least >= HEADER && n <= |Encode(messages)|
    requires forall m | m in messages :: HEADER + |m| <= most
    ensures var held := Drain(r, Encode(messages)[..n]).rest;
            Ready(r, held) || |held| <= r.least || |held| < most
  {
    RestBegins(r, messages, n);
    ArrivedMeans(r.least, Parsed(r, messages), n);
    var k := Arrived(r.least, Parsed(r, messages), n);
    if k < |messages| {
      assert messages[k] in messages;
    }
  }

  // ----- streams that are not framed -----

  // Frames, then more bytes than the receiver has to exceed, of which the
  // first two make a length that does not cover itself.
  ghost predicate Misframed(r: Receiver, b: Bytes, frames: seq<Bytes>, rest: Bytes) {
    b == Encode(frames) + rest && AllFit(frames) && |rest| > r.least && |rest| >= HEADER && Length(rest) < HEADER
  }

  lemma {:induction false} DrainFits(r: Receiver, b: Bytes)
    ensures AllFit(Drain(r, b).frames)
    decreases |b|
  {
    if Takes(r, b) {
      DrainFits(r, b[Length(b)..]);
    }
  }

  lemma {:induction false} DrainBehind(r: Receiver, frames: seq<Bytes>, rest: Bytes)
    requires AllFit(frames) && |rest| > r.least && forall m :: r.parses(m)
    ensures Drain(r, Encode(frames) + rest).rest == Drain(r, rest).rest
    decreases |frames|
  {
    if frames == [] {
      assert Encode(frames) + rest == rest;
    } else {
      var m, more := frames[0], Encode(frames[1..]) + rest;
      var b := Encode(frames) + rest;
      assert Fits(m) && b == Frame(m) + more;
      FrameLength(m, more, |b|);
      FrameBehind(m, more, |b|);
      assert (Frame(m) + more)[..|b|] == b;
      assert more[..|b| - HEADER - |m|] == more;
      DrainFirst(r, b, HEADER + |m|, more);
      DrainBehind(r, frames[1..], rest);
    }
  }

  // A receiver that parses everything stops at a frame exactly if its stream
  // is misframed.
  lemma StopsIffMisframed(r: Receiver, b: Bytes)
    requires forall m :: r.parses(m)
    ensures Ready(r, Drain(r, b).rest) <==> exists frames, rest :: Misframed(r, b, frames, rest)
  {
    var d := Drain(r, b);
    DrainConserves(r, b);
    DrainFits(r, b);
    if Ready(r, d.rest) {
      assert Misframed(r, b, d.frames, d.rest);
    }
    forall frames, rest | Misframed(r, b, frames, rest) ensures Ready(r, d.rest) {
      DrainBehind(r, frames, rest);
      assert Drain(r, rest).rest == rest;
    }
  }
}
