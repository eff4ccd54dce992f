// A server connection's fixed buffers: src/connsvr/conn_mgr_module/connection.
module Connections {
  import opened Frames

  const PKG_BUF_SIZE := 10240

  // memmove of n bytes at from to the front.
  method ShiftDown(a: array<Byte>, from: nat, n: nat)
    requires from + n <= a.Length
    modifies a
    ensures a[..n] == old(a[from..from + n])
  {
    forall i | 0 <= i < n {
      a[i] := a[from + i];
    }
  }

  // memcpy of b to position at.
  method CopyTo(a: array<Byte>, at: nat, b: Bytes)
    requires at + |b| <= a.Length
    modifies a
    ensures a[..at + |b|] == old(a[..at]) + b
  {
    forall i | 0 <= i < |b| {
      a[at + i] := b[i];
    }
  }

  class Connection {
    var playerIdx: int
    var connFd: int
    const recvBuf: array<Byte>
    var recvBufSize: nat
    const sendBuf: array<Byte>
    var sendBufSize: nat

    ghost predicate Valid()
      reads this
    {
      && recvBuf != sendBuf
      && recvBuf.Length == sendBuf.Length == PKG_BUF_SIZE
      && recvBufSize <= PKG_BUF_SIZE
      && sendBufSize <= PKG_BUF_SIZE
    }

    ghost function Received(): Bytes
      requires Valid()
      reads this, recvBuf
    {
      recvBuf[..recvBufSize]
    }

    ghost function Pending(): Bytes
      requires Valid()
      reads this, sendBuf
    {
      sendBuf[..sendBufSize]
    }

    constructor ()
      ensures Valid() && fresh(recvBuf) && fresh(sendBuf)
      ensures Received() == [] && Pending() == [] && playerIdx == connFd == 0
    {
      playerIdx, connFd := 0, 0;
      recvBuf, recvBufSize := new Byte[PKG_BUF_SIZE], 0;
      sendBuf, sendBufSize := new Byte[PKG_BUF_SIZE], 0;
    }

    // False on overflow.
    method AddRecvData(b: Bytes) returns (ok: bool)
      requires Valid()
      modifies `recvBufSize, recvBuf
      ensures Valid()
      ensures ok == (|old(Received())| + |b| <= PKG_BUF_SIZE)
      ensures Received() == old(Received()) + if ok then b else []
    {
      if recvBufSize + |b| > PKG_BUF_SIZE {
        return false;
      }
      CopyTo(recvBuf, recvBufSize, b);
      recvBufSize := recvBufSize + |b|;
      return true;
    }

    // The first two bytes of the buffer, received or stale.
    function GetRecvProtoLen(): (n: nat)
      requires Valid()
      reads this, recvBuf
      ensures recvBufSize >= HEADER ==> n == Length(Received())
    {
      recvBuf[0] as int * 256 + recvBuf[1]
    }

    predicate IsRecvProtoReady()
      requires Valid()
      reads this, recvBuf
      ensures IsRecvProtoReady() == (recvBufSize > 2 * HEADER && Length(Received()) <= recvBufSize)
    {
      recvBufSize > 2 * HEADER && GetRecvProtoLen() <= recvBufSize
    }

    lemma PayloadInBuffer()
      requires Valid() && recvBufSize >= HEADER && HEADER <= GetRecvProtoLen() <= recvBufSize
      ensures recvBuf[HEADER..GetRecvProtoLen()] == Payload(Received())
    {
      var n := GetRecvProtoLen();
      forall i | 0 <= i < n - HEADER ensures recvBuf[HEADER..n][i] == Received()[HEADER..n][i] {
      }
    }

    method RemoveRecvProto()
      requires Valid() && GetRecvProtoLen() <= recvBufSize
      modifies `recvBufSize, recvBuf
      ensures Valid() && Received() == old(Received()[GetRecvProtoLen()..])
    {
      var n := GetRecvProtoLen();
      recvBufSize := recvBufSize - n;
      ShiftDown(recvBuf, n, recvBufSize);
    }

    method AddSendData(b: Bytes) returns (ok: bool)
      requires Valid()
      modifies `sendBufSize, sendBuf
      ensures Valid()
      ensures ok == (|old(Pending())| + |b| <= PKG_BUF_SIZE)
      ensures Pending() == old(Pending()) + if ok then b else []
    {
      if sendBufSize + |b| > PKG_BUF_SIZE {
        return false;
      }
      CopyTo(sendBuf, sendBufSize, b);
      sendBufSize := sendBufSize + |b|;
      return true;
    }

    method RemoveSendData(n: nat)
      requires Valid() && n <= sendBufSize
      modifies `sendBufSize, sendBuf
      ensures Valid() && Pending() == old(Pending())[n..]
    {
      sendBufSize := sendBufSize - n;
      ShiftDown(sendBuf, n, sendBufSize);
    }

    method ClearSendData()
      requires Valid()
      modifies `sendBufSize
      ensures Valid() && Pending() == []
    {
      sendBufSize := 0;
    }
  }
}
