/**
 * One end of a cix connection. The peer's bytes not yet read wait in
 * `inbox`; every send_packet this end makes is one entry of `sent`.
 * recv_packet delivers exactly the bytes asked for or fails, which is how a
 * peer that closed the connection shows up (the socket_error of the source).
 */
module Transport {
  import opened Outcomes
  import opened Wire

  /** The bytes of the packets, in order: what the peer reads. */
  function Flat(ps: seq<seq<byte>>): seq<byte>
  {
    if ps == [] then [] else Flat(ps[..|ps| - 1]) + ps[|ps| - 1]
  }

  lemma {:induction false} FlatAppend(ps: seq<seq<byte>>, qs: seq<seq<byte>>)
    ensures Flat(ps + qs) == Flat(ps) + Flat(qs)
    decreases |qs|
  {
    if qs == [] {
      assert ps + qs == ps;
    } else {
      var front := qs[..|qs| - 1];
      var last := qs[|qs| - 1];
      assert (ps + qs)[..|ps + qs| - 1] == ps + front && (ps + qs)[|ps + qs| - 1] == last;
      FlatAppend(ps, front);
      Associative(Flat(ps), Flat(front), last);
    }
  }

  lemma FlatOne(p: seq<byte>)
    ensures Flat([p]) == p
  {
    assert [p][..0] == [];
  }

  /** Packets sent, or bytes read, one batch after another. */
  lemma Associative<T>(a: seq<T>, b: seq<T>, c: seq<T>)
    ensures a + (b + c) == (a + b) + c
  {
  }

  /** The pieces the chunk loops cut: 1024 bytes each, the last one shorter. */
  function Chunks(data: seq<byte>): (cs: seq<seq<byte>>)
    ensures Flat(cs) == data
    ensures forall i :: 0 <= i < |cs| ==> 0 < |cs[i]| <= ChunkSize
    decreases |data|
  {
    if data == [] then []
    else
      var n := if |data| < ChunkSize then |data| else ChunkSize;
      var rest := Chunks(data[n..]);
      FlatAppend([data[..n]], rest);
      FlatOne(data[..n]);
      [data[..n]] + rest
  }

  /** The pieces up to the first chunk the peer does not deliver in full. */
  function Received(inbox: seq<byte>, n: nat): (got: seq<byte>)
    ensures |inbox| >= n ==> got == inbox[..n]
    ensures |inbox| < n ==> got == inbox[..|inbox| / ChunkSize * ChunkSize]
  {
    if |inbox| >= n then inbox[..n] else inbox[..|inbox| / ChunkSize * ChunkSize]
  }

  class Socket {
    var inbox: seq<byte>
    var sent: seq<seq<byte>>

    constructor (incoming: seq<byte>)
      ensures inbox == incoming && sent == []
    {
      inbox := incoming;
      sent := [];
    }

    /** send_packet: the whole buffer goes out as one packet. */
    method Send(data: seq<byte>)
      modifies this
      ensures sent == old(sent) + [data] && inbox == old(inbox)
    {
      sent := sent + [data];
    }

    /** recv_packet: exactly n bytes, or nothing once the peer has closed before n bytes came. */
    method Recv(n: nat) returns (data: Option<seq<byte>>)
      modifies this
      ensures |old(inbox)| >= n ==> data == Some(old(inbox)[..n]) && inbox == old(inbox)[n..]
      ensures |old(inbox)| < n ==> data == None && inbox == []
      ensures sent == old(sent)
    {
      if |inbox| >= n {
        data := Some(inbox[..n]);
        inbox := inbox[n..];
      } else {
        data := None;
        inbox := [];
      }
    }
  }

  /** The next chunk from position i on, and the chunks after it. */
  lemma ChunksFrom(data: seq<byte>, i: nat, toRead: nat)
    requires i < |data| && toRead == if |data| - i > ChunkSize then ChunkSize else |data| - i
    ensures Chunks(data[i..]) == [data[i..i + toRead]] + Chunks(data[i + toRead..])
  {
    assert data[i..][..toRead] == data[i..i + toRead];
    assert data[i..][toRead..] == data[i + toRead..];
  }

  /**
   * The sending loop of cix_put and reply_get: chunks of at most 1024
   * bytes, as many as make up the data.
   */
  method SendChunks(sock: Socket, data: seq<byte>)
    modifies sock
    ensures sock.sent == old(sock.sent) + Chunks(data) && sock.inbox == old(sock.inbox)
  {
    var i := 0;
    while i < |data|
      invariant 0 <= i <= |data|
      invariant sock.sent + Chunks(data[i..]) == old(sock.sent) + Chunks(data)
      invariant sock.inbox == old(sock.inbox)
    {
      var toRead := |data| - i;
      toRead := if toRead > ChunkSize then ChunkSize else toRead;
      ChunksFrom(data, i, toRead);
      ghost var before := sock.sent;
      var piece := data[i..i + toRead];
      sock.Send(piece);
      Associative(before, [piece], Chunks(data[i + toRead..]));
      i := i + toRead;
    }
  }

  lemma WholeChunks(i: nat, len: nat)
    requires i % ChunkSize == 0 && i <= len < i + ChunkSize
    ensures i == len / ChunkSize * ChunkSize
  {
  }

  /**
   * The receiving loop of reply_put and cix_get: n bytes in chunks of at
   * most 1024, stopping at the first chunk the peer does not deliver.
   */
  method RecvChunks(sock: Socket, n: nat) returns (got: seq<byte>, ok: bool)
    modifies sock
    ensures ok <==> |old(sock.inbox)| >= n
    ensures got == Received(old(sock.inbox), n)
    ensures ok ==> sock.inbox == old(sock.inbox)[n..]
    ensures !ok ==> sock.inbox == []
    ensures sock.sent == old(sock.sent)
  {
    got := [];
    var i := 0;
    while i < n
      invariant 0 <= i <= n && (i < n ==> i % ChunkSize == 0)
      invariant i <= |old(sock.inbox)| && got == old(sock.inbox)[..i]
      invariant sock.inbox == old(sock.inbox)[i..] && sock.sent == old(sock.sent)
    {
      var toRead := n - i;
      toRead := if toRead > ChunkSize then ChunkSize else toRead;
      var piece := sock.Recv(toRead);
      if piece.None? {
        WholeChunks(i, |old(sock.inbox)|);
        return got, false;
      }
      assert old(sock.inbox)[..i + toRead] == old(sock.inbox)[..i] + old(sock.inbox)[i..][..toRead];
      got := got + piece.value;
      i := i + toRead;
    }
    return got, true;
  }
}
