// The client's network turn: src/tcpclient/msg_mgr.cpp over conn_cache.
module MsgMgrs {
  import opened Frames
  import opened EventStates
  import opened ConnCaches

  // The client looks at a frame once it holds more than a header, and stops at
  // a payload that does not parse.
  function Client(parses: Bytes -> bool): Receiver {
    Receiver(HEADER, parses)
  }

  datatype RecvAnswer = NothingYet | Broken | Data(b: Bytes)

  datatype TurnEnd = Waits | Reconnects | Drains | Unparsable

  // How the turn ends before anything is read.
  function AfterSend(pending: Bytes, send: Answer): TurnEnd {
    if pending == [] || send.Took? then Drains else if send.Again? then Waits else Reconnects
  }

  function AfterRecv(recv: RecvAnswer): TurnEnd {
    if recv.NothingYet? then Waits else if recv.Broken? || recv.b == [] then Reconnects else Drains
  }

  // What send takes leaves the buffer; what it does not take stays in order.
  method SendPart(cache: ConnCache, send: Answer) returns (end: TurnEnd, wire: Bytes)
    requires cache.Valid() && Possible(send, cache.ToSend())
    modifies cache`sendBufSize, cache.sendBuf
    ensures cache.Valid() && end == AfterSend(old(cache.ToSend()), send)
    ensures wire + cache.ToSend() == old(cache.ToSend())
    ensures |wire| == if send.Took? then send.n else 0
  {
    var n := cache.sendBufSize;
    if n == 0 {
      return Drains, [];
    }
    match send {
      case Again => return Waits, [];
      case Failed => return Reconnects, [];
      case Took(taken) =>
        wire := cache.sendBuf[..taken];
        if taken < n {
          cache.SkipSendData(taken);
        } else {
          cache.ClearSendBuf();
        }
        end := Drains;
    }
  }

  method DrainReceived(cache: ConnCache, parses: Bytes -> bool) returns (end: TurnEnd, delivered: seq<Bytes>)
    requires cache.Valid() && cache.recvBuf.Length > 0
    modifies cache`recvBufSize, cache.recvBuf
    ensures cache.Valid()
    ensures Drain(Client(parses), old(cache.Received())) == Drained(delivered, cache.Received())
    ensures end == if Ready(Client(parses), cache.Received()) then Unparsable else Drains
  {
    ghost var d := Drain(Client(parses), cache.Received());
    delivered := [];
    while cache.IsRecvProtoReady()
      invariant cache.Valid()
      invariant Partway(Client(parses), d, delivered, cache.Received())
      decreases cache.recvBufSize
    {
      var n := cache.GetRecvProtoLen();
      if n < HEADER {
        LastPart(Client(parses), d, delivered, cache.Received());
        return Unparsable, delivered;
      }
      var msg := TakeMessage(cache);
      if !parses(msg) {
        LastPart(Client(parses), d, delivered, cache.Received());
        return Unparsable, delivered;
      }
      NextPart(Client(parses), d, delivered, cache.Received());
      cache.SkipRecvProto();
      delivered := delivered + [msg];
    }
    LastPart(Client(parses), d, delivered, cache.Received());
    end := Drains;
  }

  method TakeMessage(cache: ConnCache) returns (msg: Bytes)
    requires cache.Valid() && cache.recvBuf.Length > 0
    requires cache.IsRecvProtoReady() && HEADER <= Length(cache.Received())
    ensures msg == Payload(cache.Received())
  {
    cache.PayloadInBuffer();
    msg := cache.recvBuf[HEADER..cache.GetRecvProtoLen()];
  }

  method Run(cache: ConnCache, parses: Bytes -> bool, send: Answer, recv: RecvAnswer)
    returns (end: TurnEnd, wire: Bytes, delivered: seq<Bytes>)
    requires cache.Valid() && cache.recvBuf.Length > 0
    requires Possible(send, cache.ToSend())
    requires recv.Data? ==> |cache.Received()| + |recv.b| <= cache.recvBuf.Length
    modifies cache`sendBufSize, cache.sendBuf, cache`recvBufSize, cache.recvBuf
    ensures cache.Valid()
    ensures wire + cache.ToSend() == old(cache.ToSend())
    ensures |wire| == if send.Took? then send.n else 0
    ensures var goesOn := old(cache.ToSend()) == [] || send.Took?;
            && (goesOn && recv.Data? && recv.b != [] ==>
                  && Drain(Client(parses), old(cache.Received()) + recv.b) == Drained(delivered, cache.Received())
                  && end == if Ready(Client(parses), cache.Received()) then Unparsable else Drains)
            && (!(goesOn && recv.Data? && recv.b != []) ==>
                  && delivered == [] && cache.Received() == old(cache.Received())
                  && (end == Waits <==> if goesOn then recv.NothingYet? else send.Again?)
                  && (end == Reconnects <==> if goesOn then !recv.NothingYet? else send.Failed?))
  {
    end, wire := SendPart(cache, send);
    delivered := [];
    if !end.Drains? {
      return;
    }
    if !AfterRecv(recv).Drains? {
      end := AfterRecv(recv);
      return;
    }
    cache.Receive(recv.b);
    end, delivered := DrainReceived(cache, parses);
  }
}
