// The server's side of one connection: src/connsvr/event_module. What the
// kernel and the message queue answer are parameters.
module EventStates {
  import opened Frames
  import opened Connections

  datatype Command = Start | Proc | Stop

  // ConnData and the bytes behind it, as exchanged with the game server.
  datatype ConnMsg = ConnMsg(cmd: Command, connFd: int, playerIdx: int, payload: Bytes)

  const CONN_DATA_SIZE := 12

  predicate Anything(payload: Bytes) {
    true
  }

  // The server looks at a frame once it holds more than two headers, and
  // passes on what it cannot parse.
  function Server(): Receiver {
    Receiver(2 * HEADER, Anything)
  }

  // Where the code runs into undefined behaviour.
  datatype Fault =
    | NegativeCopy      // memcpy of a payload whose header does not cover itself
    | NullDereference   // a call on the NULL the write handler was registered with
    | Overread          // a read past the queue's receive buffer

  // What becomes of a connection.
  datatype End = Kept | Released | Faulted(fault: Fault)

  // ----- reading -----

  function Forwarded(playerIdx: int, fd: int, frames: seq<Bytes>): seq<ConnMsg> {
    if frames == [] then []
    else [ConnMsg(if playerIdx == 0 then Start else Proc, fd, playerIdx, frames[0])]
         + Forwarded(playerIdx, fd, frames[1..])
  }

  lemma {:induction false} ForwardedAppend(playerIdx: int, fd: int, a: seq<Bytes>, b: seq<Bytes>)
    ensures Forwarded(playerIdx, fd, a + b) == Forwarded(playerIdx, fd, a) + Forwarded(playerIdx, fd, b)
    decreases |a|
  {
    if a == [] {
      assert a + b == b;
    } else {
      assert (a + b)[1..] == a[1..] + b;
      ForwardedAppend(playerIdx, fd, a[1..], b);
    }
  }

  // The loop stops at a frame that is not complete. A header below its own size
  // never is one; the code goes on to copy its payload all the same.
  function Stopped(rest: Bytes): End {
    if Ready(Server(), rest) then Faulted(NegativeCopy) else Kept
  }

  // Every frame is forwarded once, in order, with the connection's descriptor
  // and player; as START while there is no player, as PROC then.
  lemma {:induction false} ForwardedMeans(playerIdx: int, fd: int, frames: seq<Bytes>)
    ensures |Forwarded(playerIdx, fd, frames)| == |frames|
    ensures forall k | 0 <= k < |frames| ::
              var m := Forwarded(playerIdx, fd, frames)[k];
              && m.payload == frames[k] && m.connFd == fd && m.playerIdx == playerIdx
              && (m.cmd == Start <==> playerIdx == 0) && (m.cmd == Proc <==> playerIdx != 0)
    decreases |frames|
  {
    if frames != [] {
      ForwardedMeans(playerIdx, fd, frames[1..]);
    }
  }

  // ----- writing -----

  // What send answers.
  datatype Answer = Again | Failed | Took(n: nat)

  predicate Possible(answer: Answer, b: Bytes) {
    answer.Took? ==> answer.n <= |b|
  }

  // The send buffer, and whether the descriptor's event handlers are registered
  // with the epoller or with NULL.
  datatype Sender = Sender(pending: Bytes, hasData: bool)

  // wire is what went out, accepted whether the whole frame is sent or pending.
  datatype Outgoing = Outgoing(sender: Sender, wire: Bytes, accepted: bool, end: End)

  // A handler that releases the connection clears its events through the data
  // it was registered with.
  function Cleared(hasData: bool): End {
    if hasData then Released else Faulted(NullDereference)
  }

  // A frame for the client. One that is refused with EAGAIN is dropped, and
  // the write handler registered with NULL.
  function OfferFrame(s: Sender, frame: Bytes, answer: Answer): Outgoing
    requires s.pending == [] ==> Possible(answer, frame)
  {
    if s.pending == [] then
      match answer
      case Again => Outgoing(Sender([], false), [], false, Kept)
      case Failed => Outgoing(s, [], false, Released)
      case Took(n) => Outgoing(Sender(frame[n..], n < |frame| || s.hasData), frame[..n], true, Kept)
    else if |s.pending| + |frame| > PKG_BUF_SIZE then Outgoing(s, [], false, Released)
    else Outgoing(s.(pending := s.pending + frame), [], true, Kept)
  }

  // ZmqReadLoop. The queue's buffer holds PKG_BUF_SIZE bytes of a message: one
  // that is longer is dropped if its payload is too, and read past the buffer
  // if not.
  function Offer(s: Sender, message: Bytes, answer: Answer): Outgoing
    requires s.pending == [] ==> Possible(answer, Frame(message))
  {
    if |message| > PKG_BUF_SIZE then Outgoing(s, [], false, Kept)
    else if !Small(message) then Outgoing(s, [], false, Faulted(Overread))
    else OfferFrame(s, Frame(message), answer)
  }

  predicate Small(message: Bytes) {
    CONN_DATA_SIZE + |message| <= PKG_BUF_SIZE
  }

  // CONN_STOP releases the connection once its message has been taken over.
  function Respond(s: Sender, message: Bytes, stops: bool, answer: Answer): Outgoing
    requires s.pending == [] ==> Possible(answer, Frame(message))
  {
    var o := Offer(s, message, answer);
    if stops && Small(message) && o.end == Kept then o.(end := Released) else o
  }

  // DoTcpWrite: here EAGAIN too ends the connection.
  function Flush(s: Sender, answer: Answer): Outgoing
    requires Possible(answer, s.pending)
  {
    match answer
    case Again => Outgoing(s, [], false, Cleared(s.hasData))
    case Failed => Outgoing(s, [], false, Cleared(s.hasData))
    case Took(n) =>
      Outgoing(s.(pending := s.pending[n..]), s.pending[..n], false,
           if n == |s.pending| && !s.hasData then Faulted(NullDereference) else Kept)
  }

  // ----- what the senders do -----

  // With nothing pending, what send took is on the wire and the rest of the
  // frame is pending; otherwise nothing is sent and the frame waits behind.
  lemma OfferMeans(s: Sender, frame: Bytes, answer: Answer)
    requires s.pending == [] ==> Possible(answer, frame)
    ensures var o := OfferFrame(s, frame, answer);
            && |o.wire| == (if s.pending == [] && answer.Took? then answer.n else 0)
            && (o.accepted ==> o.wire + o.sender.pending == s.pending + frame)
            && (!o.accepted ==> o.wire == [] && o.sender.pending == s.pending)
            && (o.accepted <==> if s.pending == [] then answer.Took? else |s.pending| + |frame| <= PKG_BUF_SIZE)
  {
  }

  // What becomes of the connection, and which data its handlers then have.
  lemma RespondEnds(s: Sender, message: Bytes, stops: bool, answer: Answer)
    requires s.pending == [] ==> Possible(answer, Frame(message))
    ensures var o := Respond(s, message, stops, answer);
            var small := CONN_DATA_SIZE + |message| <= PKG_BUF_SIZE;
            var full := |s.pending| + HEADER + |message| > PKG_BUF_SIZE;
            && (o.end == Released <==>
                  small && (stops || (if s.pending == [] then answer.Failed? else full)))
            && (o.end == Faulted(Overread) <==> !small && |message| <= PKG_BUF_SIZE)
            && (o.end == Kept <==> o.end != Released && o.end != Faulted(Overread))
            && (o.sender.hasData <==>
                  if small && s.pending == [] && answer.Again? then false
                  else s.hasData || (small && s.pending == [] && answer.Took? && answer.n < HEADER + |message|))
  {
  }

  // A flush sends the first bytes that are pending, as many as send took. It
  // ends the connection exactly if send fails, and where the handler's data is
  // NULL the process, also if send took all.
  lemma FlushMeans(s: Sender, answer: Answer)
    requires Possible(answer, s.pending)
    ensures var o := Flush(s, answer);
            && |o.wire| == (if answer.Took? then answer.n else 0)
            && o.wire + o.sender.pending == s.pending && !o.accepted && o.sender.hasData == s.hasData
            && (o.end == Released <==> s.hasData && !answer.Took?)
            && (o.end == Faulted(NullDereference) <==> !s.hasData && (answer.Took? ==> answer.n == |s.pending|))
            && (o.end == Kept <==> answer.Took? && (s.hasData || answer.n < |s.pending|))
  {
  }
}

module EventModules {
  import opened Wrappers
  import opened Frames
  import opened Connections
  import opened EventStates

  // The epoller's entry for a descriptor: of its data only whether it is NULL.
  class FileEvent {
    var hasData: bool

    constructor ()
      ensures hasData
    {
      hasData := true;
    }

    // The data is the same for both handlers; the last registration sets it.
    method AddEvent(notNull: bool)
      modifies this
      ensures hasData == notNull
    {
      hasData := notNull;
    }
  }

  // The connection's bytes are drained as one stream, whatever they came in.
  method DoTcpRead(conn: Connection, event: FileEvent, recv: Option<Bytes>, zmq: nat -> bool)
    returns (end: End, forwarded: seq<ConnMsg>)
    requires conn.Valid()
    requires recv.Some? ==> |recv.value| <= PKG_BUF_SIZE
    modifies conn`recvBufSize, conn.recvBuf
    ensures conn.Valid()
    ensures recv.None? ==> end == Cleared(event.hasData) && forwarded == []
    ensures recv == Some([]) ==>
              end == Cleared(event.hasData)
              && forwarded == if conn.playerIdx == 0 then [] else [ConnMsg(Stop, 0, conn.playerIdx, [])]
    ensures recv.Some? && recv.value != [] ==>
              var all := old(conn.Received()) + recv.value;
              if |all| > PKG_BUF_SIZE then end == Cleared(event.hasData) && forwarded == []
              else Ended(conn.playerIdx, conn.connFd, event.hasData, all, conn.Received(), zmq, end, forwarded)
  {
    if recv.None? {
      return Cleared(event.hasData), [];
    }
    var chunk := recv.value;
    if chunk == [] {
      if conn.playerIdx == 0 {
        return Cleared(event.hasData), [];
      }
      return Cleared(event.hasData), [ConnMsg(Stop, 0, conn.playerIdx, [])];
    }
    var ok := conn.AddRecvData(chunk);
    if !ok {
      return Cleared(event.hasData), [];
    }
    end, forwarded := DrainLoop(conn, event.hasData, zmq);
  }

  // The drain of all bytes leaves rest, as far as the queue takes its frames;
  // of those handed to it the last one may have been refused.
  ghost predicate Ended(playerIdx: int, fd: int, hasData: bool, all: Bytes, rest: Bytes, zmq: nat -> bool,
                        end: End, forwarded: seq<ConnMsg>)
  {
    var d := Drain(Server(), all);
    var k := |forwarded|;
    && k <= |d.frames|
    && forwarded == Forwarded(playerIdx, fd, d.frames[..k])
    && (forall i | 0 <= i < k ::
          forwarded[i] == ConnMsg(if playerIdx == 0 then Start else Proc, fd, playerIdx, d.frames[i]))
    && (forall i | 0 <= i < k - 1 :: zmq(i))
    && if k > 0 && !zmq(k - 1) then end == Cleared(hasData)
       else k == |d.frames| && rest == d.rest && end == Stopped(rest)
  }

  // The payload copy of negative length happens exactly if the queue takes every
  // frame, and the bytes are frames and then more than four bytes that begin
  // with such a header.
  lemma NegativeCopyIff(playerIdx: int, fd: int, hasData: bool, all: Bytes, rest: Bytes, zmq: nat -> bool,
                        end: End, forwarded: seq<ConnMsg>)
    requires Ended(playerIdx, fd, hasData, all, rest, zmq, end, forwarded)
    ensures end == Faulted(NegativeCopy) <==>
              && (forall i | 0 <= i < |Drain(Server(), all).frames| :: zmq(i))
              && exists frames, more :: Misframed(Server(), all, frames, more)
  {
    StopsIffMisframed(Server(), all);
  }

  // The frames that have gone to the queue, which took them.
  ghost predicate Passed(playerIdx: int, fd: int, zmq: nat -> bool, done: seq<Bytes>, forwarded: seq<ConnMsg>) {
    && |forwarded| == |done| && forwarded == Forwarded(playerIdx, fd, done)
    && forall i | 0 <= i < |done| :: zmq(i)
  }

  lemma EndsDrained(playerIdx: int, fd: int, hasData: bool, all: Bytes, rest: Bytes, zmq: nat -> bool,
                    done: seq<Bytes>, forwarded: seq<ConnMsg>)
    requires Partway(Server(), Drain(Server(), all), done, rest) && !Takes(Server(), rest)
    requires Passed(playerIdx, fd, zmq, done, forwarded)
    ensures Ended(playerIdx, fd, hasData, all, rest, zmq, Stopped(rest), forwarded)
  {
    ForwardedMeans(playerIdx, fd, done);
  }

  // One frame more, which ends the loop if the queue refuses it.
  lemma PassedOn(playerIdx: int, fd: int, hasData: bool, all: Bytes, rest: Bytes, zmq: nat -> bool,
                 done: seq<Bytes>, forwarded: seq<ConnMsg>, msg: ConnMsg)
    requires Passed(playerIdx, fd, zmq, done, forwarded)
    requires Forwarded(playerIdx, fd, done + [msg.payload]) == Forwarded(playerIdx, fd, done) + [msg]
    requires var frames := Drain(Server(), all).frames;
             |done| < |frames| && frames[..|done| + 1] == done + [msg.payload]
    ensures if zmq(|forwarded|) then Passed(playerIdx, fd, zmq, done + [msg.payload], forwarded + [msg])
            else Ended(playerIdx, fd, hasData, all, rest, zmq, Cleared(hasData), forwarded + [msg])
  {
    ForwardedMeans(playerIdx, fd, done + [msg.payload]);
  }

  method DrainLoop(conn: Connection, hasData: bool, zmq: nat -> bool)
    returns (end: End, forwarded: seq<ConnMsg>)
    requires conn.Valid()
    modifies conn`recvBufSize, conn.recvBuf
    ensures conn.Valid()
    ensures Ended(conn.playerIdx, conn.connFd, hasData, old(conn.Received()), conn.Received(), zmq, end, forwarded)
  {
    ghost var all := conn.Received();
    ghost var done: seq<Bytes> := [];
    forwarded := [];
    while conn.IsRecvProtoReady()
      invariant conn.Valid()
      invariant Partway(Server(), Drain(Server(), all), done, conn.Received())
      invariant Passed(conn.playerIdx, conn.connFd, zmq, done, forwarded)
      decreases conn.recvBufSize
    {
      if conn.GetRecvProtoLen() < HEADER {
        EndsDrained(conn.playerIdx, conn.connFd, hasData, all, conn.Received(), zmq, done, forwarded);
        return Faulted(NegativeCopy), forwarded;
      }
      var msg := TakeFrame(conn, Drain(Server(), all), done);
      PassedOn(conn.playerIdx, conn.connFd, hasData, all, conn.Received(), zmq, done, forwarded, msg);
      done := done + [msg.payload];
      forwarded := forwarded + [msg];
      if !zmq(|forwarded| - 1) {
        return Cleared(hasData), forwarded;
      }
    }
    EndsDrained(conn.playerIdx, conn.connFd, hasData, all, conn.Received(), zmq, done, forwarded);
    return Kept, forwarded;
  }

  method TakeFrame(conn: Connection, ghost d: Drained, ghost done: seq<Bytes>) returns (msg: ConnMsg)
    requires conn.Valid() && Takes(Server(), conn.Received())
    requires Partway(Server(), d, done, conn.Received())
    modifies conn`recvBufSize, conn.recvBuf
    ensures conn.Valid() && conn.recvBufSize < old(conn.recvBufSize)
    ensures Forwarded(conn.playerIdx, conn.connFd, done + [msg.payload])
            == Forwarded(conn.playerIdx, conn.connFd, done) + [msg]
    ensures Partway(Server(), d, done + [msg.payload], conn.Received())
    ensures |done| < |d.frames| && d.frames[..|done| + 1] == done + [msg.payload]
  {
    var n := conn.GetRecvProtoLen();
    var cmd := if conn.playerIdx == 0 then Start else Proc;
    msg := ConnMsg(cmd, conn.connFd, conn.playerIdx, conn.recvBuf[HEADER..n]);
    conn.PayloadInBuffer();
    ForwardedAppend(conn.playerIdx, conn.connFd, done, [msg.payload]);
    NextPart(Server(), d, done, conn.Received());
    conn.RemoveRecvProto();
  }

  // A message from the game server for a connection that is open.
  method ZmqReadLoop(conn: Connection, event: FileEvent, msg: ConnMsg, answer: Answer)
    returns (end: End, wire: Bytes)
    requires conn.Valid()
    requires conn.Pending() == [] ==> Possible(answer, Frame(msg.payload))
    modifies conn`playerIdx, conn`sendBufSize, conn.sendBuf, event
    ensures conn.Valid()
    ensures var o := Respond(Sender(old(conn.Pending()), old(event.hasData)), msg.payload, msg.cmd == Stop, answer);
            Sender(conn.Pending(), event.hasData) == o.sender && wire == o.wire && end == o.end
    ensures conn.playerIdx ==
            if end == Kept && Small(msg.payload) && (msg.cmd == Start || (msg.cmd == Proc && old(conn.playerIdx) == 0))
            then msg.playerIdx else old(conn.playerIdx)
  {
    if |msg.payload| > PKG_BUF_SIZE {
      return Kept, [];
    }
    if !Small(msg.payload) {
      return Faulted(Overread), [];
    }
    end, wire := SendFrame(conn, event, Frame(msg.payload), answer);
    if end != Kept {
      return;
    }
    if msg.cmd == Proc && conn.playerIdx == 0 {
      conn.playerIdx := msg.playerIdx;
    } else if msg.cmd == Start {
      conn.playerIdx := msg.playerIdx;
    } else if msg.cmd == Stop {
      end := Released;
    }
  }

  method SendFrame(conn: Connection, event: FileEvent, frame: Bytes, answer: Answer) returns (end: End, wire: Bytes)
    requires conn.Valid() && |frame| <= PKG_BUF_SIZE
    requires conn.Pending() == [] ==> Possible(answer, frame)
    modifies conn`sendBufSize, conn.sendBuf, event
    ensures conn.Valid()
    ensures var o := OfferFrame(Sender(old(conn.Pending()), old(event.hasData)), frame, answer);
            Sender(conn.Pending(), event.hasData) == o.sender && wire == o.wire && end == o.end
  {
    var ok;
    if conn.sendBufSize == 0 {
      match answer {
        case Again =>
          event.AddEvent(false);
          return Kept, [];
        case Failed =>
          return Released, [];
        case Took(n) =>
          wire := frame[..n];
          if n < |frame| {
            event.AddEvent(true);
            // The rest always fits into the empty buffer.
            ok := conn.AddSendData(frame[n..]);
          }
          return Kept, wire;
      }
    }
    ok := conn.AddSendData(frame);
    return if ok then Kept else Released, [];
  }

  method DoTcpWrite(conn: Connection, event: FileEvent, answer: Answer) returns (end: End, wire: Bytes)
    requires conn.Valid() && Possible(answer, conn.Pending())
    modifies conn`sendBufSize, conn.sendBuf
    ensures conn.Valid()
    ensures var o := Flush(Sender(old(conn.Pending()), event.hasData), answer);
            Sender(conn.Pending(), event.hasData) == o.sender && wire == o.wire && end == o.end
  {
    if !answer.Took? {
      return Cleared(event.hasData), [];
    }
    var n := answer.n;
    wire := conn.sendBuf[..n];
    if 0 < n < conn.sendBufSize {
      conn.RemoveSendData(n);
    } else if n == conn.sendBufSize {
      conn.ClearSendData();
      if !event.hasData {
        return Faulted(NullDereference), wire;
      }
    }
    end := Kept;
  }
}
