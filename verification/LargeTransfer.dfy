/** The sending application of `tcp-large-transfer.cc`: a byte pattern kept in a 1040-byte
    buffer is sent piecewise, as the socket accepts it, over any number of callbacks. */
module LargeTransfer {

  const TOTAL_TX_BYTES: nat := 2000000
  const WRITE_SIZE: nat := 1040

  newtype byte = b: int | 0 <= b < 256

  /** The k-th byte of the stream. */
  function StreamByte(k: nat): byte {
    (97 + k % 26) as byte
  }

  function Stream(n: nat): seq<byte> {
    seq(n, k requires 0 <= k => StreamByte(k))
  }

  /** The buffer holds whole periods of the pattern: from any position on, up to the end of the
      buffer, offset and position give the same bytes. */
  lemma BufferContinues(position: nat, k: nat)
    ensures StreamByte(position % WRITE_SIZE + k) == StreamByte(position + k)
  {
    var q, r := position / WRITE_SIZE, position % WRITE_SIZE;
    assert position + k == (r + k) + 26 * (40 * q);
    Periodic(r + k, 40 * q);
  }

  lemma {:induction false} Periodic(r: nat, m: nat)
    ensures (r + 26 * m) % 26 == r % 26
  {
    if m > 0 {
      Periodic(r, m - 1);
      assert r + 26 * m == (r + 26 * (m - 1)) + 26;
    }
  }

  /** One Send: how many bytes were accepted before, how much room there was, the slice, and the
      result. */
  datatype Offer = Offer(position: nat, room: nat, slice: seq<byte>, amountSent: int)

  function Min(x: nat, y: nat): nat {
    if x < y then x else y
  }

  /** The slice is the stream's from its position on, up to the end of the buffer, of the stream or
      of the room, whichever comes first. */
  ghost predicate Fitting(o: Offer) {
    && o.position < 2000000 && o.room > 0
    && |o.slice| == Min(1040 - o.position % 1040, Min(2000000 - o.position, o.room))
    && forall k :: 0 <= k < |o.slice| ==> o.slice[k] as int == 97 + (o.position + k) % 26
  }

  /** The last Send was refused. */
  ghost predicate Refused(offers: seq<Offer>) {
    offers != [] && offers[|offers| - 1].amountSent < 0
  }

  ghost predicate AllFitting(offers: seq<Offer>) {
    forall i :: 0 <= i < |offers| ==> Fitting(offers[i])
  }

  /** The socket: how much it takes, and whether it takes anything, is its own affair, except
      that it does not go on for ever accepting nothing without refusing. */
  class Socket {
    var txAvailable: nat
    ghost var accepted: seq<byte>
    ghost var offers: seq<Offer>  // all that was ever passed to Send
    var idleSends: nat  // how many more sends in a row may accept no byte
    var closed: bool

    constructor ()
      ensures accepted == [] && offers == [] && !closed
    {
      txAvailable, accepted, offers, idleSends, closed := *, [], [], *, false;
    }

    /** Room may appear between two callbacks. */
    method NewTxSpace()
      modifies this`txAvailable, this`idleSends
    {
      txAvailable, idleSends := *, *;
    }

    /** A negative result refuses the bytes; any other is how many of them were accepted. */
    method Send(slice: seq<byte>) returns (amountSent: int)
      modifies this`txAvailable, this`accepted, this`offers, this`idleSends
      ensures amountSent <= |slice|
      ensures offers == old(offers) + [Offer(|old(accepted)|, old(txAvailable), slice, amountSent)]
      ensures accepted == old(accepted) + if amountSent < 0 then [] else slice[..amountSent]
      ensures amountSent == 0 ==> idleSends < old(idleSends)
    {
      ghost var position, room := |accepted|, txAvailable;
      txAvailable, amountSent := *, *;
      if amountSent > |slice| || (amountSent == 0 && idleSends == 0) {
        amountSent := -1;
      }
      if amountSent >= 0 {
        if amountSent == 0 {
          idleSends := idleSends - 1;
        } else {
          idleSends := *;
        }
        accepted := accepted + slice[..amountSent];
      }
      offers := offers + [Offer(position, room, slice, amountSent)];
    }

    method Close()
      modifies this`closed
      ensures closed
    {
      closed := true;
    }
  }

  class Application {
    var currentTxBytes: nat
    const data: array<byte>
    const localSocket: Socket

    ghost predicate BufferReady()
      reads data
    {
      data.Length == WRITE_SIZE && forall i :: 0 <= i < WRITE_SIZE ==> data[i] == StreamByte(i)
    }

    /** What holds between any two callbacks. */
    ghost predicate Valid()
      reads this, data, localSocket
    {
      && BufferReady()
      && currentTxBytes <= TOTAL_TX_BYTES
      && localSocket.accepted == Stream(currentTxBytes) && AllFitting(localSocket.offers)
      && (localSocket.closed ==> currentTxBytes == TOTAL_TX_BYTES)
    }

    constructor ()
      ensures Valid() && fresh(data) && fresh(localSocket) && currentTxBytes == 0 && !localSocket.closed
      ensures data.Length == 1040 && forall i :: 0 <= i < 1040 ==> data[i] as int == 97 + i % 26
    {
      currentTxBytes := 0;
      data := new byte[WRITE_SIZE](_ => 0);
      localSocket := new Socket();
      new;
      for i := 0 to WRITE_SIZE
        invariant forall j :: 0 <= j < i ==> data[j] == StreamByte(j)
        invariant currentTxBytes == 0 && localSocket.accepted == [] && localSocket.offers == []
        invariant !localSocket.closed
      {
        data[i] := (97 + i % 26) as byte;
      }
    }

    /** What is accepted of the slice at the current offset continues the stream. */
    lemma SliceContinues(slice: seq<byte>, n: nat)
      requires BufferReady() && currentTxBytes % WRITE_SIZE + |slice| <= WRITE_SIZE && n <= |slice|
      requires var offset := currentTxBytes % WRITE_SIZE; slice == data[offset..offset + |slice|]
      ensures Stream(currentTxBytes) + slice[..n] == Stream(currentTxBytes + n)
    {
      forall k | 0 <= k < n ensures slice[k] == StreamByte(currentTxBytes + k) {
        BufferContinues(currentTxBytes, k);
      }
    }

    /** What is offered is what should be. */
    lemma OfferFits(slice: seq<byte>, room: nat, amountSent: int)
      requires BufferReady() && currentTxBytes < TOTAL_TX_BYTES && room > 0
      requires var offset := currentTxBytes % WRITE_SIZE;
        && |slice| == Min(WRITE_SIZE - offset, Min(TOTAL_TX_BYTES - currentTxBytes, room))
        && slice == data[offset..offset + |slice|]
      ensures Fitting(Offer(currentTxBytes, room, slice, amountSent))
    {
      forall k | 0 <= k < |slice| ensures slice[k] as int == 97 + (currentTxBytes + k) % 26 {
        BufferContinues(currentTxBytes, k);
      }
    }

    /** One send callback: any acceptances, any refusal. The application closes the socket
        exactly when it leaves with everything accepted. */
    method WriteUntilBufferFull() returns (ghost refused: bool)
      requires Valid()
      modifies this`currentTxBytes, localSocket
      ensures Valid() && currentTxBytes >= old(currentTxBytes)
      ensures localSocket.closed <==> old(localSocket.closed) || currentTxBytes == TOTAL_TX_BYTES
      ensures old(localSocket.accepted) <= localSocket.accepted && old(localSocket.offers) <= localSocket.offers
      ensures !refused ==> currentTxBytes == TOTAL_TX_BYTES || localSocket.txAvailable == 0
      ensures refused ==> Refused(localSocket.offers[|old(localSocket.offers)|..])
    {
      refused := false;
      while currentTxBytes < TOTAL_TX_BYTES && localSocket.txAvailable > 0
        invariant Valid() && currentTxBytes >= old(currentTxBytes) && localSocket.closed == old(localSocket.closed)
        invariant old(localSocket.accepted) <= localSocket.accepted && old(localSocket.offers) <= localSocket.offers
        decreases TOTAL_TX_BYTES - currentTxBytes, localSocket.idleSends
      {
        var left := TOTAL_TX_BYTES - currentTxBytes;
        var dataOffset := currentTxBytes % WRITE_SIZE;
        var toWrite := WRITE_SIZE - dataOffset;
        toWrite := if left < toWrite then left else toWrite;
        toWrite := if localSocket.txAvailable < toWrite then localSocket.txAvailable else toWrite;
        var slice := data[dataOffset..dataOffset + toWrite];
        ghost var room := localSocket.txAvailable;
        var amountSent := localSocket.Send(slice);
        OfferFits(slice, room, amountSent);
        if amountSent < 0 {
          refused := true;
          return;
        }
        SliceContinues(slice, amountSent);
        currentTxBytes := currentTxBytes + amountSent;
      }
      if currentTxBytes >= TOTAL_TX_BYTES {
        localSocket.Close();
      }
    }

    method StartFlow() returns (ghost refused: bool)
      requires Valid()
      modifies this`currentTxBytes, localSocket
      ensures Valid() && currentTxBytes >= old(currentTxBytes)
      ensures localSocket.closed <==> old(localSocket.closed) || currentTxBytes == TOTAL_TX_BYTES
      ensures old(localSocket.accepted) <= localSocket.accepted && old(localSocket.offers) <= localSocket.offers
      ensures !refused ==> currentTxBytes == TOTAL_TX_BYTES || localSocket.txAvailable == 0
      ensures refused ==> Refused(localSocket.offers[|old(localSocket.offers)|..])
    {
      refused := WriteUntilBufferFull();
    }

    /** The whole flow: the first write, then a callback each time there may be new room. */
    method Flow(callbacks: nat)
      requires Valid() && currentTxBytes == 0 && !localSocket.closed
      modifies this`currentTxBytes, localSocket
      ensures localSocket.accepted == Stream(currentTxBytes) <= Stream(TOTAL_TX_BYTES)
      ensures localSocket.closed <==> localSocket.accepted == Stream(TOTAL_TX_BYTES)
      ensures |localSocket.accepted| <= 2000000 && (localSocket.closed <==> |localSocket.accepted| == 2000000)
      ensures forall k :: 0 <= k < |localSocket.accepted| ==> localSocket.accepted[k] as int == 97 + k % 26
      ensures AllFitting(localSocket.offers)
    {
      ghost var _ := StartFlow();
      for i := 0 to callbacks
        invariant Valid() && (localSocket.closed <==> currentTxBytes == TOTAL_TX_BYTES)
      {
        localSocket.NewTxSpace();
        ghost var _ := WriteUntilBufferFull();
      }
      assert |Stream(currentTxBytes)| == currentTxBytes && |Stream(TOTAL_TX_BYTES)| == TOTAL_TX_BYTES;
    }
  }
}
