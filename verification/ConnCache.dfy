// The client's growing buffers: src/tcpclient/conn_cache and the loop of
// src/tcpclient/msg_mgr that drives them.
module ConnCaches {
  import opened Frames
  import opened Connections

  const CONN_CACHE_BUF_LEN := 102400

  // ----- capacities -----

  function Expanded(capacity: nat): nat {
    if capacity == 0 then CONN_CACHE_BUF_LEN else 2 * capacity
  }

  // The capacity after the first allocation and k doublings.
  function Doubled(k: nat): nat {
    if k == 0 then CONN_CACHE_BUF_LEN else 2 * Doubled(k - 1)
  }

  // The last capacity that is an int32_t.
  const LAST := 14

  lemma LastIsInt32()
    ensures Doubled(LAST) < 0x8000_0000 <= Doubled(LAST + 1)
  {
  }

  ghost predicate IsCapacity(capacity: nat) {
    capacity == 0 || exists k | 0 <= k <= LAST :: capacity == Doubled(k)
  }

  // While what is asked for fits an int32_t capacity, so does the expansion.
  lemma ExpandedIsCapacity(capacity: nat)
    requires IsCapacity(capacity) && capacity < Doubled(LAST)
    ensures IsCapacity(Expanded(capacity)) && capacity < Expanded(capacity)
  {
    if capacity == 0 {
      assert Doubled(0) == Expanded(capacity);
    } else {
      var k :| 0 <= k <= LAST && capacity == Doubled(k);
      assert Doubled(k + 1) == Expanded(capacity);
    }
  }

  // The expansions needed to hold n bytes.
  function Grown(capacity: nat, n: nat): (grown: nat)
    ensures grown >= n && grown >= capacity
    decreases if capacity == 0 then n + 1 else if n > capacity then n - capacity else 0
  {
    if n <= capacity then capacity
    else Grown(Expanded(capacity), n)
  }

  // Growing stops at the first capacity that fits.
  lemma {:induction false} GrownIsLeast(capacity: nat, n: nat)
    requires IsCapacity(capacity) && n <= Doubled(LAST)
    ensures IsCapacity(Grown(capacity, n))
    ensures Grown(capacity, n) > capacity ==> Grown(capacity, n) == CONN_CACHE_BUF_LEN || Grown(capacity, n) < 2 * n
    decreases if capacity == 0 then n + 1 else if n > capacity then n - capacity else 0
  {
    if n > capacity {
      ExpandedIsCapacity(capacity);
      GrownIsLeast(Expanded(capacity), n);
    }
  }

  class ConnCache {
    var sendBuf: array<Byte>
    var sendBufSize: nat
    var recvBuf: array<Byte>
    var recvBufSize: nat

    // Both buffers always have the same capacity.
    ghost predicate Valid()
      reads this
    {
      && sendBuf != recvBuf
      && sendBuf.Length == recvBuf.Length
      && IsCapacity(sendBuf.Length)
      && sendBufSize <= sendBuf.Length
      && recvBufSize <= recvBuf.Length
    }

    ghost function ToSend(): Bytes
      requires Valid()
      reads this, sendBuf
    {
      sendBuf[..sendBufSize]
    }

    ghost function Received(): Bytes
      requires Valid()
      reads this, recvBuf
    {
      recvBuf[..recvBufSize]
    }

    constructor ()
      ensures Valid() && fresh(sendBuf) && fresh(recvBuf)
      ensures ToSend() == [] && Received() == [] && sendBuf.Length == 0
    {
      sendBuf, sendBufSize := new Byte[0], 0;
      recvBuf, recvBufSize := new Byte[0], 0;
    }

    method Init()
      requires Valid() && sendBufSize == recvBufSize == 0
      modifies `sendBuf, `recvBuf
      ensures Valid() && fresh(sendBuf) && fresh(recvBuf)
      ensures ToSend() == [] && Received() == [] && sendBuf.Length == CONN_CACHE_BUF_LEN
    {
      assert Doubled(0) == CONN_CACHE_BUF_LEN;
      sendBuf := new Byte[CONN_CACHE_BUF_LEN];
      recvBuf := new Byte[CONN_CACHE_BUF_LEN];
    }

    method Expand()
      requires Valid() && sendBuf.Length < Doubled(LAST)
      modifies `sendBuf, `recvBuf
      ensures Valid() && fresh(sendBuf) && fresh(recvBuf)
      ensures sendBuf.Length == Expanded(old(sendBuf.Length))
      ensures ToSend() == old(ToSend()) && Received() == old(Received())
    {
      ExpandedIsCapacity(sendBuf.Length);
      sendBuf := Moved(sendBuf, sendBufSize);
      recvBuf := Moved(recvBuf, recvBufSize);
    }

    // The loop that AddSendData and AddRecvData share: the capacities are one.
    method Reserve(n: nat)
      requires Valid() && n <= Doubled(LAST)
      modifies `sendBuf, `recvBuf
      ensures Valid() && sendBuf.Length == Grown(old(sendBuf.Length), n)
      ensures (sendBuf == old(sendBuf) || fresh(sendBuf)) && (recvBuf == old(recvBuf) || fresh(recvBuf))
      ensures ToSend() == old(ToSend()) && Received() == old(Received())
    {
      while n > sendBuf.Length
        invariant Valid() && Grown(sendBuf.Length, n) == Grown(old(sendBuf.Length), n)
        invariant (sendBuf == old(sendBuf) || fresh(sendBuf)) && (recvBuf == old(recvBuf) || fresh(recvBuf))
        invariant ToSend() == old(ToSend()) && Received() == old(Received())
        decreases Doubled(LAST) - sendBuf.Length
      {
        ExpandedIsCapacity(sendBuf.Length);
        Expand();
      }
    }

    method Append(b: Bytes)
      requires Valid() && sendBufSize + |b| <= sendBuf.Length
      modifies `sendBufSize, sendBuf
      ensures Valid() && ToSend() == old(ToSend()) + b
    {
      CopyTo(sendBuf, sendBufSize, b);
      sendBufSize := sendBufSize + |b|;
    }

    method AddSendData(b: Bytes)
      requires Valid() && sendBufSize + |b| <= Doubled(LAST)
      modifies `sendBuf, `sendBufSize, sendBuf, `recvBuf
      ensures Valid() && (sendBuf == old(sendBuf) || fresh(sendBuf)) && (recvBuf == old(recvBuf) || fresh(recvBuf))
      ensures ToSend() == old(ToSend()) + b && Received() == old(Received())
      ensures sendBuf.Length == Grown(old(sendBuf.Length), |old(ToSend())| + |b|)
    {
      Reserve(sendBufSize + |b|);
      Append(b);
    }

    method AddRecvData(b: Bytes)
      requires Valid() && recvBufSize + |b| <= Doubled(LAST)
      modifies `recvBuf, `recvBufSize, recvBuf, `sendBuf
      ensures Valid() && (sendBuf == old(sendBuf) || fresh(sendBuf)) && (recvBuf == old(recvBuf) || fresh(recvBuf))
      ensures Received() == old(Received()) + b && ToSend() == old(ToSend())
      ensures recvBuf.Length == Grown(old(recvBuf.Length), |old(Received())| + |b|)
    {
      Reserve(recvBufSize + |b|);
      Receive(b);
    }

    method SkipSendData(n: nat)
      requires Valid() && n <= sendBufSize
      modifies `sendBufSize, sendBuf
      ensures Valid() && ToSend() == old(ToSend())[n..]
    {
      sendBufSize := sendBufSize - n;
      ShiftDown(sendBuf, n, sendBufSize);
    }

    method ClearSendBuf()
      requires Valid()
      modifies `sendBufSize
      ensures Valid() && ToSend() == []
    {
      sendBufSize := 0;
    }

    method SkipRecvData(n: nat)
      requires Valid() && n <= recvBufSize
      modifies `recvBufSize, recvBuf
      ensures Valid() && Received() == old(Received())[n..]
    {
      recvBufSize := recvBufSize - n;
      ShiftDown(recvBuf, n, recvBufSize);
    }

    // Bytes behind those already held.
    method Receive(b: Bytes)
      requires Valid() && recvBufSize + |b| <= recvBuf.Length
      modifies `recvBufSize, recvBuf
      ensures Valid() && Received() == old(Received()) + b
    {
      CopyTo(recvBuf, recvBufSize, b);
      recvBufSize := recvBufSize + |b|;
    }

    // The header is read before the size is looked at: there must be a buffer.
    function GetRecvProtoLen(): (n: nat)
      requires Valid() && recvBuf.Length > 0
      reads this, recvBuf
      ensures recvBufSize >= HEADER ==> n == Length(Received())
    {
      recvBuf[0] as int * 256 + recvBuf[1]
    }

    predicate IsRecvProtoReady()
      requires Valid() && recvBuf.Length > 0
      reads this, recvBuf
      ensures IsRecvProtoReady() == (recvBufSize > HEADER && Length(Received()) <= recvBufSize)
    {
      recvBufSize > HEADER && GetRecvProtoLen() <= recvBufSize
    }

    lemma PayloadInBuffer()
      requires Valid() && recvBufSize >= HEADER && HEADER <= GetRecvProtoLen() <= recvBufSize
      ensures recvBuf[HEADER..GetRecvProtoLen()] == Payload(Received())
    {
      var n := GetRecvProtoLen();
      forall i | 0 <= i < n - HEADER ensures recvBuf[HEADER..n][i] == Received()[HEADER..n][i] {
      }
    }

    method SkipRecvProto()
      requires Valid() && recvBuf.Length > 0 && GetRecvProtoLen() <= recvBufSize
      modifies `recvBufSize, recvBuf
      ensures Valid() && Received() == old(Received()[GetRecvProtoLen()..])
    {
      SkipRecvData(GetRecvProtoLen());
    }
  }

  // malloc of the expanded capacity, and the n bytes in use copied over.
  method Moved(a: array<Byte>, n: nat) returns (b: array<Byte>)
    requires n <= a.Length
    ensures fresh(b) && b.Length == Expanded(a.Length) && b[..n] == a[..n]
  {
    b := new Byte[if a.Length == 0 then CONN_CACHE_BUF_LEN else a.Length * 2];
    CopyTo(b, 0, a[..n]);
  }
}
