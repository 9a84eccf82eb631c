/** The send queue of a peer (EndMessage, SocketSendData) and the assembly of received messages (CNetMessage,
    ReceiveMsgBytes). */
module Transport {

  import opened Basics
  import opened Framing
  import opened Streams

  function Min(a: nat, b: nat): nat {
    if a < b then a else b
  }

  /** memcpy(&buf[pos], src): overwrites a stretch of a buffer. */
  function Copied(buf: seq<byte>, pos: nat, src: seq<byte>): (r: seq<byte>)
    requires pos + |src| <= |buf|
    ensures |r| == |buf| && r[..pos + |src|] == buf[..pos] + src
  {
    buf[..pos] + src + buf[pos + |src|..]
  }

  // ---------- receiving

  class NetMessage {
    var in_data: bool
    var hdrbuf: seq<byte>
    var nHdrPos: nat
    var nMessageSize: nat
    var vRecv: seq<byte>
    var nDataPos: nat

    ghost predicate Valid()
      reads this
    {
      && |hdrbuf| == HEADER_SIZE && nHdrPos <= HEADER_SIZE && nDataPos <= |vRecv|
      && if in_data then nHdrPos == HEADER_SIZE && nMessageSize == SizeOf(hdrbuf) == |vRecv| <= MAX_SIZE
         else nHdrPos < HEADER_SIZE && nDataPos == 0
    }

    /** The bytes of this message that have arrived. */
    ghost function Raw(): seq<byte>
      requires |hdrbuf| == HEADER_SIZE && nHdrPos <= HEADER_SIZE && nDataPos <= |vRecv|
      reads this
    {
      hdrbuf[..nHdrPos] + vRecv[..nDataPos]
    }

    function AsFrame(): Frame
      reads this
    {
      Frame(hdrbuf, vRecv)
    }

    constructor ()
      ensures Valid() && !in_data && Raw() == []
    {
      hdrbuf := seq(HEADER_SIZE, i => 0);
      in_data, nHdrPos, nMessageSize, vRecv, nDataPos := false, 0, 0, [], 0;
    }

    predicate Complete()
      reads this
    {
      in_data && nMessageSize == nDataPos
    }

    /** Takes what the header still lacks; -1 rejects a message of more than MAX_SIZE bytes. */
    method ReadHeader(pch: seq<byte>) returns (handled: int)
      requires Valid() && !in_data && pch != []
      modifies this
      ensures |hdrbuf| == HEADER_SIZE && nHdrPos <= HEADER_SIZE && nDataPos <= |vRecv|
      ensures if handled == -1
              then HEADER_SIZE <= |old(Raw()) + pch| && Raw() == (old(Raw()) + pch)[..HEADER_SIZE] && TooLarge(Raw())
              else Valid() && 0 < handled <= |pch| && Raw() == old(Raw()) + pch[..handled]
    {
      var nCopy := Min(HEADER_SIZE - nHdrPos, |pch|);
      hdrbuf := Copied(hdrbuf, nHdrPos, pch[..nCopy]);
      nHdrPos := nHdrPos + nCopy;
      assert Raw() == old(Raw()) + pch[..nCopy];
      if nHdrPos < HEADER_SIZE {
        return nCopy;
      }
      nMessageSize := SizeOf(hdrbuf);
      if nMessageSize > MAX_SIZE {
        assert Raw()[..HEADER_SIZE] == hdrbuf;
        return -1;
      }
      in_data := true;
      vRecv := seq(nMessageSize, i => 0);
      return nCopy;
    }

    method ReadData(pch: seq<byte>) returns (handled: int)
      requires Valid() && in_data && !Complete() && pch != []
      modifies `vRecv, `nDataPos
      ensures Valid() && 0 < handled <= |pch| && Raw() == old(Raw()) + pch[..handled]
    {
      var nCopy := Min(nMessageSize - nDataPos, |pch|);
      vRecv := Copied(vRecv, nDataPos, pch[..nCopy]);
      nDataPos := nDataPos + nCopy;
      return nCopy;
    }
  }

  ghost predicate AllComplete(ms: seq<NetMessage>)
    reads ms
  {
    forall i :: 0 <= i < |ms| ==> ms[i].Valid() && ms[i].Complete()
  }

  ghost function FramesOf(ms: seq<NetMessage>): seq<Frame>
    reads ms
  {
    if ms == [] then [] else FramesOf(ms[..|ms| - 1]) + [ms[|ms| - 1].AsFrame()]
  }

  lemma {:induction false} CompleteFrames(ms: seq<NetMessage>)
    requires AllComplete(ms)
    ensures forall f :: f in FramesOf(ms) ==> WellFormed(f)
  {
    if ms != [] {
      CompleteFrames(ms[..|ms| - 1]);
      assert WellFormed(ms[|ms| - 1].AsFrame());
    }
  }

  class Node {
    var vRecvMsg: seq<NetMessage>
    var ssSend: seq<byte>
    var vSendMsg: seq<seq<byte>>
    var nSendSize: int
    var nSendOffset: int
    var fDisconnect: bool
    /** Every byte the socket has accepted. */
    ghost var wire: seq<byte>
    /** Every message EndMessage has put on the queue. */
    ghost var queued: seq<seq<byte>>
    const checksum: seq<byte> -> nat

    /** A fresh connection: nothing received, nothing queued. */
    constructor (checksum: seq<byte> -> nat)
      ensures RecvOk() && Stream() == [] && vRecvMsg == []
      ensures SendOk() && ssSend == [] && vSendMsg == [] && wire == [] && queued == [] && !fDisconnect
      ensures this.checksum == checksum
    {
      this.checksum := checksum;
      vRecvMsg, ssSend, vSendMsg, nSendSize, nSendOffset, fDisconnect := [], [], [], 0, 0, false;
      wire, queued := [], [];
      new;
      NothingYet();
      NothingQueued();
      hide *;
    }

    lemma NothingQueued()
      requires vSendMsg == [] && nSendSize == 0 && nSendOffset == 0 && wire == [] && queued == []
      ensures SendOk()
    {
    }

    lemma NothingYet()
      requires vRecvMsg == []
      ensures RecvOk() && Stream() == []
    {
    }

    // ----- receiving

    /** Only the last message of the queue may be incomplete. */
    ghost predicate RecvOk()
      reads this`vRecvMsg, vRecvMsg
    {
      && (forall i, j :: 0 <= i < j < |vRecvMsg| ==> vRecvMsg[i] != vRecvMsg[j])
      && (forall i :: 0 <= i < |vRecvMsg| ==> vRecvMsg[i].Valid())
      && (vRecvMsg != [] ==> AllComplete(vRecvMsg[..|vRecvMsg| - 1]))
    }

    /** The messages before the one still arriving. */
    ghost function Done(): seq<NetMessage>
      reads this`vRecvMsg, vRecvMsg
    {
      if vRecvMsg == [] || vRecvMsg[|vRecvMsg| - 1].Complete() then vRecvMsg else vRecvMsg[..|vRecvMsg| - 1]
    }

    ghost function Arriving(): seq<byte>
      requires RecvOk()
      reads this`vRecvMsg, vRecvMsg
    {
      if vRecvMsg == [] || vRecvMsg[|vRecvMsg| - 1].Complete() then [] else vRecvMsg[|vRecvMsg| - 1].Raw()
    }

    /** The bytes the receive queue holds, in order. */
    ghost function Stream(): seq<byte>
      requires RecvOk()
      reads this`vRecvMsg, vRecvMsg
    {
      Flat(FramesOf(Done())) + Arriving()
    }

    lemma StreamDecodes()
      requires RecvOk()
      ensures Decode(Stream()) == Decoded(FramesOf(Done()), Arriving(), true)
    {
      CompleteFrames(Done());
      ArrivingIsPartial();
      DecodeFlat(FramesOf(Done()), Arriving());
    }

    lemma ArrivingIsPartial()
      requires RecvOk()
      ensures Partial(Arriving())
    {
      if vRecvMsg != [] {
        var m := vRecvMsg[|vRecvMsg| - 1];
        if !m.Complete() && m.in_data {
          assert m.Raw()[..HEADER_SIZE] == m.hdrbuf;
        }
      }
    }

    /** Feeds a chunk of any size to the queue. Afterwards the queue is the decoding of all its bytes, so chunk
        boundaries leave no trace; it fails exactly when the stream announces a message of more than MAX_SIZE. */
    method ReceiveMsgBytes(pch: seq<byte>) returns (ok: bool)
      requires RecvOk()
      modifies this`vRecvMsg, vRecvMsg
      ensures ok == Decode(old(Stream()) + pch).ok
      ensures ok ==> RecvOk() && Stream() == old(Stream()) + pch
      ensures ok ==> Decode(old(Stream()) + pch) == Decoded(FramesOf(Done()), Arriving(), true)
      ensures !ok ==> vRecvMsg != [] && FramesOf(vRecvMsg[..|vRecvMsg| - 1]) == Decode(old(Stream()) + pch).frames
    {
      hide Flat, FramesOf, Decode, Node.RecvOk, Node.Done, Node.Arriving, Node.Stream, NetMessage.Complete;
      ghost var before := Stream();
      var n := 0;
      while n < |pch|
        invariant 0 <= n <= |pch| && RecvOk() && Stream() == before + pch[..n]
        invariant forall i :: 0 <= i < |vRecvMsg| ==> vRecvMsg[i] in old(vRecvMsg) || fresh(vRecvMsg[i])
      {
        var handled := Feed(pch[n..]);
        if handled < 0 {
          JoinUp(before, pch, n, |pch| - n);
          return false;
        }
        JoinUp(before, pch, n, handled);
        n := n + handled;
      }
      assert before + pch[..n] == before + pch;
      StreamDecodes();
      return true;
    }

    /** One round of the loop. */
    method Feed(pch: seq<byte>) returns (handled: int)
      requires RecvOk() && pch != []
      modifies `vRecvMsg, vRecvMsg
      ensures forall i :: 0 <= i < |vRecvMsg| ==> vRecvMsg[i] in old(vRecvMsg) || fresh(vRecvMsg[i])
      ensures if handled < 0
              then vRecvMsg != [] && !Decode(old(Stream()) + pch).ok &&
                   FramesOf(vRecvMsg[..|vRecvMsg| - 1]) == Decode(old(Stream()) + pch).frames
              else RecvOk() && 0 < handled <= |pch| && Stream() == old(Stream()) + pch[..handled]
    {
      hide Flat, FramesOf, Decode, Node.RecvOk, Node.Done, Node.Arriving, Node.Stream, NetMessage.Complete;
      if vRecvMsg == [] || vRecvMsg[|vRecvMsg| - 1].Complete() {
        StartMessage();
      }
      handled := Absorb(pch, Stream());
    }

    method StartMessage()
      requires RecvOk() && (vRecvMsg == [] || vRecvMsg[|vRecvMsg| - 1].Complete())
      modifies `vRecvMsg
      ensures RecvOk() && Stream() == old(Stream())
      ensures |vRecvMsg| > 0 && !vRecvMsg[|vRecvMsg| - 1].Complete()
      ensures fresh(vRecvMsg[|vRecvMsg| - 1]) && vRecvMsg == old(vRecvMsg) + [vRecvMsg[|vRecvMsg| - 1]]
    {
      hide Flat, Decode, FramesOf, Node.Done, Node.Arriving, Node.Stream;
      ghost var ms, fs := vRecvMsg, FramesOf(vRecvMsg);
      AllDone();
      var msg := new NetMessage();
      vRecvMsg := vRecvMsg + [msg];
      assert vRecvMsg[..|vRecvMsg| - 1] == ms;
      assert AllComplete(ms);
      LastIsTail();
      assert FramesOf(ms) == fs && Flat(fs) + [] == Flat(fs);
    }

    lemma AllDone()
      requires RecvOk() && (vRecvMsg == [] || vRecvMsg[|vRecvMsg| - 1].Complete())
      ensures AllComplete(vRecvMsg) && Stream() == Flat(FramesOf(vRecvMsg))
    {
      hide Flat, Decode, FramesOf;
      assert Flat(FramesOf(vRecvMsg)) + [] == Flat(FramesOf(vRecvMsg));
    }

    /** The last message takes what it still lacks. */
    method Absorb(pch: seq<byte>, ghost before: seq<byte>) returns (handled: int)
      requires RecvOk() && vRecvMsg != [] && !vRecvMsg[|vRecvMsg| - 1].Complete() && pch != []
      requires before == Stream()
      modifies vRecvMsg[|vRecvMsg| - 1]
      ensures vRecvMsg == old(vRecvMsg)
      ensures if handled < 0
              then !Decode(before + pch).ok &&
                   FramesOf(vRecvMsg[..|vRecvMsg| - 1]) == Decode(before + pch).frames
              else RecvOk() && 0 < handled <= |pch| && Stream() == before + pch[..handled]
    {
      hide Flat, FramesOf, Decode, Node.Done, Node.Arriving, Node.Stream;
      ghost var front := vRecvMsg[..|vRecvMsg| - 1];
      var msg := vRecvMsg[|vRecvMsg| - 1];
      ghost var fs, raw := FramesOf(front), msg.Raw();
      LastIsTail();
      assert msg !in front;
      CompleteFrames(front);
      if !msg.in_data {
        handled := msg.ReadHeader(pch);
      } else {
        handled := msg.ReadData(pch);
      }
      assert FramesOf(front) == fs;
      if handled < 0 {
        FailedDecode(fs, raw, pch);
      } else {
        assert AllComplete(front);
        LastIsTail();
        assert Flat(fs) + (raw + pch[..handled]) == Flat(fs) + raw + pch[..handled];
      }
    }

    /** Whether or not the last message is complete, it is the end of the stream. */
    lemma LastIsTail()
      requires RecvOk() && vRecvMsg != []
      ensures var n := |vRecvMsg| - 1;
              Stream() == Flat(FramesOf(vRecvMsg[..n])) + vRecvMsg[n].Raw()
    {
      hide Flat, Decode;
      var n := |vRecvMsg| - 1;
      var msg := vRecvMsg[n];
      if msg.Complete() {
        FlatAppend(FramesOf(vRecvMsg[..n]), msg.AsFrame());
        assert msg.Raw() == Bytes(msg.AsFrame());
        assert Stream() == Flat(FramesOf(vRecvMsg)) + [];
      }
    }

    // ----- sending

    ghost predicate SendOk()
      reads `vSendMsg, `nSendSize, `nSendOffset, `wire, `queued
    {
      && QueueOk(vSendMsg, 0, nSendSize, nSendOffset)
      && Joined(queued) == wire + Unsent(vSendMsg, 0, nSendOffset)
      && forall i :: 0 <= i < |queued| ==> Sealed(queued[i], checksum)
    }

    method BeginMessage(header: seq<byte>)
      requires ssSend == [] && |header| == HEADER_SIZE
      modifies `ssSend
      ensures ssSend == header
    {
      ssSend := header;
    }

    /** Fills in size and checksum and queues the message, unless it is empty. A lone message goes to the socket at
        once. */
    method EndMessage(unexpected: bool)
      requires SendOk() && (ssSend == [] || |ssSend| >= HEADER_SIZE)
      modifies `ssSend, `vSendMsg, `nSendSize, `nSendOffset, `fDisconnect, `wire, `queued
      ensures SendOk() && ssSend == []
      ensures if old(ssSend) == [] then queued == old(queued)
              else |queued| == |old(queued)| + 1 && queued[..|old(queued)|] == old(queued)
                   && Seals(queued[|old(queued)|], old(ssSend), checksum)
      ensures old(wire) <= wire && (old(vSendMsg) != [] ==> wire == old(wire))
    {
      hide Le, FromLe, Copied, Seals, Sealed, Joined, Unsent, QueueOk;
      if ssSend == [] {
        return;
      }
      var nSize := (|ssSend| - HEADER_SIZE) % 0x1_0000_0000;
      var msg := Copied(ssSend, MESSAGE_SIZE_OFFSET, Le(nSize, 4));
      TwoCopies(ssSend, Le(nSize, 4), Le(0, 4));
      var nChecksum := checksum(msg[HEADER_SIZE..]);
      msg := Copied(msg, CHECKSUM_OFFSET, Le(nChecksum, 4));
      LowWord(nSize);
      LowWord(nChecksum);
      CopiesSeal(ssSend, Le(nSize, 4), Le(nChecksum, 4), checksum);
      SealsIsSealed(ssSend, msg, checksum);
      ghost var prior := vSendMsg;
      vSendMsg := vSendMsg + [msg];
      ssSend := [];
      nSendSize := nSendSize + |msg|;
      queued := queued + [msg];
      QueueGrows(prior, msg, nSendSize - |msg|, nSendOffset, wire, queued[..|queued| - 1]);
      assert queued == queued[..|queued| - 1] + [msg];
      if |vSendMsg| == 1 {
        ghost var last, offered;
        last, offered := SocketSendData(unexpected);
      }
    }

    /** What the socket takes of the offered bytes: anything from nothing to all, or an error. */
    method Send(data: seq<byte>) returns (nBytes: int)
      modifies `wire
      ensures -1 <= nBytes <= |data|
      ensures wire == old(wire) + if nBytes > 0 then data[..nBytes] else []
    {
      nBytes :| -1 <= nBytes <= |data|;
      wire := wire + if nBytes > 0 then data[..nBytes] else [];
    }

    /** Sends from the front of the queue until the socket takes less than it is offered, `last` of `offered` bytes. No
        byte is lost, repeated or reordered, the source's assertions hold, and the peer is disconnected exactly when
        the socket reports an error and that is none of the four expected ones, as `unexpected` says. */
    method SocketSendData(unexpected: bool) returns (ghost last: int, ghost offered: nat)
      requires SendOk()
      modifies `vSendMsg, `nSendSize, `nSendOffset, `fDisconnect, `wire
      ensures SendOk() && queued == old(queued) && old(wire) <= wire
      ensures exists it :: 0 <= it <= |old(vSendMsg)| && vSendMsg == old(vSendMsg)[it..]
      ensures vSendMsg == [] ==> nSendOffset == 0 && nSendSize == 0
      ensures vSendMsg != [] ==> last < offered
      ensures fDisconnect == (old(fDisconnect) || (last < 0 && unexpected))
    {
      hide QueueOk, Unsent, Joined;
      var it := 0;
      last, offered := 0, 0;
      while it != |vSendMsg|
        invariant 0 <= it <= |vSendMsg| && vSendMsg == old(vSendMsg)
        invariant QueueOk(vSendMsg, it, nSendSize, nSendOffset) && old(wire) <= wire
        invariant Joined(queued) == wire + Unsent(vSendMsg, it, nSendOffset)
        invariant fDisconnect == old(fDisconnect) && last >= 0
        decreases |vSendMsg| - it
      {
        var data := vSendMsg[it];
        OffsetInside(vSendMsg, it, nSendSize, nSendOffset);
        assert |data| > nSendOffset;
        ghost var off, sent := nSendOffset, wire;
        var nBytes := Send(data[nSendOffset..]);
        last, offered := nBytes, |data| - nSendOffset;
        if nBytes > 0 {
          Advance(vSendMsg, it, nSendSize, nSendOffset, nBytes);
          nSendOffset := nSendOffset + nBytes;
          Regroup(sent, data[off..][..nBytes], Unsent(vSendMsg, it, nSendOffset));
          assert wire + Unsent(vSendMsg, it, nSendOffset) == sent + Unsent(vSendMsg, it, off);
          if nSendOffset == |data| {
            NextMessage(vSendMsg, it, nSendSize);
            nSendOffset := 0;
            nSendSize := nSendSize - |data|;
            it := it + 1;
          } else {
            break;
          }
        } else {
          assert wire == sent;
          if nBytes < 0 {
            if unexpected {
              fDisconnect := true;
            }
          }
          break;
        }
      }
      if it == |vSendMsg| {
        EmptyQueue(vSendMsg, nSendSize, nSendOffset);
        assert nSendOffset == 0;
        assert nSendSize == 0;
      }
      EraseSent(vSendMsg, it, nSendSize, nSendOffset);
      vSendMsg := vSendMsg[it..];
    }
  }

  lemma FailedDecode(fs: seq<Frame>, raw: seq<byte>, pch: seq<byte>)
    requires (forall f :: f in fs ==> WellFormed(f)) && |raw + pch| >= HEADER_SIZE
    requires TooLarge((raw + pch)[..HEADER_SIZE])
    ensures var d := Decode(Flat(fs) + raw + pch);
            !d.ok && d.frames == fs
  {
    var s := raw + pch;
    assert s[..HEADER_SIZE][..HEADER_SIZE] == s[..HEADER_SIZE];
    assert TooLarge(s);
    DecodeFlat(fs, s);
    assert Flat(fs) + s == Flat(fs) + raw + pch;
  }

  // ---------- the send queue

  function Joined(ms: seq<seq<byte>>): seq<byte> {
    if ms == [] then [] else Joined(ms[..|ms| - 1]) + ms[|ms| - 1]
  }

  /** Sizes of the messages from `it` on. */
  function TotalSize(ms: seq<seq<byte>>, it: nat): nat
    requires it <= |ms|
    decreases |ms| - it
  {
    if it == |ms| then 0 else |ms[it]| + TotalSize(ms, it + 1)
  }

  /** Bytes of the messages from `it` on, without the first `offset`. */
  function Unsent(ms: seq<seq<byte>>, it: nat, offset: int): seq<byte>
    requires it <= |ms|
    decreases |ms| - it
  {
    if it == |ms| then []
    else (if 0 <= offset <= |ms[it]| then ms[it][offset..] else []) + Unsent(ms, it + 1, 0)
  }

  ghost predicate QueueOk(ms: seq<seq<byte>>, it: nat, nSendSize: int, nSendOffset: int)
    requires it <= |ms|
  {
    && nSendSize == TotalSize(ms, it)
    && (forall i :: 0 <= i < |ms| ==> ms[i] != [])
    && (if it == |ms| then nSendOffset == 0 else 0 <= nSendOffset < |ms[it]|)
  }

  lemma OffsetInside(ms: seq<seq<byte>>, it: nat, nSendSize: int, nSendOffset: int)
    requires it < |ms| && QueueOk(ms, it, nSendSize, nSendOffset)
    ensures 0 <= nSendOffset < |ms[it]|
  {
  }

  lemma EmptyQueue(ms: seq<seq<byte>>, nSendSize: int, nSendOffset: int)
    requires QueueOk(ms, |ms|, nSendSize, nSendOffset)
    ensures nSendSize == 0 && nSendOffset == 0
  {
  }

  lemma Advance(ms: seq<seq<byte>>, it: nat, nSendSize: int, offset: int, nBytes: nat)
    requires it < |ms| && QueueOk(ms, it, nSendSize, offset) && offset + nBytes <= |ms[it]|
    ensures Unsent(ms, it, offset) == ms[it][offset..][..nBytes] + Unsent(ms, it, offset + nBytes)
    ensures offset + nBytes < |ms[it]| ==> QueueOk(ms, it, nSendSize, offset + nBytes)
  {
    var m := ms[it];
    SplitTail(m[offset..], nBytes, Unsent(ms, it + 1, 0));
    assert m[offset..][nBytes..] == m[offset + nBytes..];
  }

  lemma JoinUp(a: seq<byte>, s: seq<byte>, n: nat, k: nat)
    requires n + k <= |s|
    ensures a + s[..n] + s[n..][..k] == a + s[..n + k]
    ensures n + k == |s| ==> a + s[..n] + s[n..] == a + s
  {
    assert s[..n] + s[n..][..k] == s[..n + k];
    assert s[..n] + s[n..] == s;
  }

  lemma SplitTail(s: seq<byte>, n: nat, more: seq<byte>)
    requires n <= |s|
    ensures s + more == s[..n] + (s[n..] + more)
  {
    assert s == s[..n] + s[n..];
  }

  lemma NextMessage(ms: seq<seq<byte>>, it: nat, nSendSize: int)
    requires it < |ms| && exists offset :: QueueOk(ms, it, nSendSize, offset)
    ensures Unsent(ms, it, |ms[it]|) == Unsent(ms, it + 1, 0)
    ensures QueueOk(ms, it + 1, nSendSize - |ms[it]|, 0)
  {
  }

  lemma EraseSent(ms: seq<seq<byte>>, it: nat, nSendSize: int, offset: int)
    requires it <= |ms| && QueueOk(ms, it, nSendSize, offset)
    ensures QueueOk(ms[it..], 0, nSendSize, offset) && Unsent(ms[it..], 0, offset) == Unsent(ms, it, offset)
  {
    Dropped(ms, it, 0, offset);
  }

  lemma {:induction false} Dropped(ms: seq<seq<byte>>, it: nat, k: nat, offset: int)
    requires it + k <= |ms|
    ensures TotalSize(ms[it..], k) == TotalSize(ms, it + k)
    ensures Unsent(ms[it..], k, offset) == Unsent(ms, it + k, offset)
    decreases |ms| - k
  {
    if it + k < |ms| {
      Dropped(ms, it, k + 1, 0);
    }
  }

  lemma {:induction false} Pushed(ms: seq<seq<byte>>, m: seq<byte>, it: nat, offset: int)
    requires it <= |ms| && (it == |ms| ==> offset == 0)
    ensures TotalSize(ms + [m], it) == TotalSize(ms, it) + |m|
    ensures Unsent(ms + [m], it, offset) == Unsent(ms, it, offset) + m
    decreases |ms| - it
  {
    if it < |ms| {
      Pushed(ms, m, it + 1, 0);
    }
  }

  lemma QueueGrows(ms: seq<seq<byte>>, m: seq<byte>, nSendSize: int, offset: int, wire: seq<byte>,
                   queued: seq<seq<byte>>)
    requires QueueOk(ms, 0, nSendSize, offset) && m != []
    requires Joined(queued) == wire + Unsent(ms, 0, offset)
    ensures QueueOk(ms + [m], 0, nSendSize + |m|, offset)
    ensures Joined(queued + [m]) == wire + Unsent(ms + [m], 0, offset)
  {
    Pushed(ms, m, 0, offset);
    assert (queued + [m])[..|queued|] == queued;
  }

  // ---------- from queue to queue

  /** What a peer expects of a message: its size and the low 32 bits of its payload's hash, in the header. */
  ghost predicate Sealed(m: seq<byte>, checksum: seq<byte> -> nat) {
    && |m| >= 24
    && FromLe(m[16..20]) == (|m| - 24) % 0x1_0000_0000
    && FromLe(m[20..24]) == checksum(m[24..]) % 0x1_0000_0000
  }

  /** r is msg with the two fields filled in. */
  ghost predicate Seals(r: seq<byte>, msg: seq<byte>, checksum: seq<byte> -> nat) {
    && Sealed(r, checksum)
    && |r| == |msg| && r[..16] == msg[..16] && r[24..] == msg[24..]
  }

  lemma TwoCopies(msg: seq<byte>, a: seq<byte>, b: seq<byte>)
    requires |msg| >= HEADER_SIZE && |a| == 4 && |b| == 4
    ensures var once := Copied(msg, MESSAGE_SIZE_OFFSET, a);
            && once[HEADER_SIZE..] == msg[HEADER_SIZE..]
            && Copied(once, CHECKSUM_OFFSET, b) == msg[..MESSAGE_SIZE_OFFSET] + a + b + msg[HEADER_SIZE..]
  {
    var once := Copied(msg, MESSAGE_SIZE_OFFSET, a);
    assert once[..CHECKSUM_OFFSET] == msg[..MESSAGE_SIZE_OFFSET] + a;
  }

  /** Writing a number of any size keeps its low bytes. */
  lemma {:induction false} LeKeepsLow(n: nat, width: nat) returns (high: nat)
    ensures n == FromLe(Le(n, width)) + Pow256(width) * high
  {
    if width == 0 {
      high := n;
    } else {
      high := LeKeepsLow(n / 256, width - 1);
      var p := Pow256(width - 1);
      assert 256 * (p * high) == 256 * p * high;
    }
  }

  /** The two copies of EndMessage seal a message and leave the rest of it. */
  lemma CopiesSeal(msg: seq<byte>, a: seq<byte>, b: seq<byte>, checksum: seq<byte> -> nat)
    requires |msg| >= 24 && |a| == 4 && |b| == 4
    requires FromLe(a) == (|msg| - 24) % 0x1_0000_0000 && FromLe(b) == checksum(msg[24..]) % 0x1_0000_0000
    ensures Seals(Copied(Copied(msg, MESSAGE_SIZE_OFFSET, a), CHECKSUM_OFFSET, b), msg, checksum)
  {
    hide FromLe, Copied, Seals;
    TwoCopies(msg, a, b);
    Assembled(msg, a, b, checksum);
  }

  lemma SealsIsSealed(msg: seq<byte>, r: seq<byte>, checksum: seq<byte> -> nat)
    requires Seals(r, msg, checksum)
    ensures Sealed(r, checksum) && |r| == |msg|
  {
  }

  lemma Assembled(msg: seq<byte>, a: seq<byte>, b: seq<byte>, checksum: seq<byte> -> nat)
    requires |msg| >= 24 && |a| == 4 && |b| == 4
    requires FromLe(a) == (|msg| - 24) % 0x1_0000_0000 && FromLe(b) == checksum(msg[24..]) % 0x1_0000_0000
    ensures Seals(msg[..16] + a + b + msg[24..], msg, checksum)
  {
    hide FromLe;
    Fields(msg[..16], a, b, msg[24..]);
  }

  lemma LowWord(n: nat)
    ensures FromLe(Le(n, 4)) == n % 0x1_0000_0000
  {
    hide Le, FromLe, Pow256;
    var high := LeKeepsLow(n, 4);
    FourBytes();
  }

  lemma FourBytes()
    ensures Pow256(4) == 0x1_0000_0000
  {
    assert Pow256(1) == 0x100 && Pow256(2) == 0x1_0000 && Pow256(3) == 0x100_0000;
  }

  lemma Fields(h: seq<byte>, a: seq<byte>, b: seq<byte>, p: seq<byte>)
    requires |h| == 16 && |a| == 4 && |b| == 4
    ensures var r := h + a + b + p;
            r[..16] == h && r[16..20] == a && r[20..24] == b && r[24..] == p
  {
  }

  /** A sealed message is a frame that the receiver takes, if and only if its payload is at most 32 MB. */
  lemma SealedIsFrame(m: seq<byte>, checksum: seq<byte> -> nat)
    requires Sealed(m, checksum)
    ensures var f := Frame(m[..24], m[24..]);
            Bytes(f) == m && (WellFormed(f) <==> |m| - 24 <= 0x200_0000)
  {
    hide FromLe;
    assert m[..24][16..20] == m[16..20];
  }

  ghost function AsFrames(ms: seq<seq<byte>>): seq<Frame>
    requires forall m :: m in ms ==> |m| >= HEADER_SIZE
  {
    if ms == [] then []
    else AsFrames(ms[..|ms| - 1]) + [Frame(ms[|ms| - 1][..HEADER_SIZE], ms[|ms| - 1][HEADER_SIZE..])]
  }

  lemma {:induction false} JoinedIsFlat(ms: seq<seq<byte>>)
    requires forall m :: m in ms ==> |m| >= HEADER_SIZE
    ensures Joined(ms) == Flat(AsFrames(ms))
  {
    if ms != [] {
      var last := ms[|ms| - 1];
      JoinedIsFlat(ms[..|ms| - 1]);
      FlatAppend(AsFrames(ms[..|ms| - 1]), Frame(last[..HEADER_SIZE], last[HEADER_SIZE..]));
      assert last[..HEADER_SIZE] + last[HEADER_SIZE..] == last;
    }
  }

  lemma {:induction false} FrameAt(ms: seq<seq<byte>>, i: nat)
    requires (forall m :: m in ms ==> |m| >= HEADER_SIZE) && i < |ms|
    ensures |AsFrames(ms)| == |ms| && AsFrames(ms)[i] == Frame(ms[i][..24], ms[i][24..])
  {
    if i < |ms| - 1 {
      FrameAt(ms[..|ms| - 1], i);
    } else if |ms| > 1 {
      FrameAt(ms[..|ms| - 1], 0);
    }
  }

  /** End to end: whatever part of the sender's wire has arrived, in whatever chunks, the completed messages are the
      first of those queued, in order, each passes the receiver's checksum test, and no failure occurs. */
  lemma DeliveredInOrder(sender: Node, arrived: seq<byte>)
    requires sender.SendOk() && arrived <= sender.wire
    requires forall m :: m in sender.queued ==> |m| - 24 <= 0x200_0000
    ensures var queued, d := sender.queued, Decode(arrived);
            && d.ok && |d.frames| <= |queued|
            && forall i :: 0 <= i < |d.frames| ==>
                 && Sealed(queued[i], sender.checksum)
                 && d.frames[i] == Frame(queued[i][..24], queued[i][24..])
                 && FromLe(d.frames[i].header[20..24]) == sender.checksum(d.frames[i].payload) % 0x1_0000_0000
    ensures arrived == sender.wire && sender.vSendMsg == [] ==>
              |Decode(arrived).frames| == |sender.queued| && Decode(arrived).rest == []
  {
    hide Decode, FromLe, Sealed, AsFrames, Joined, Unsent, QueueOk, WellFormed, Flat;
    var queued := sender.queued;
    assert forall m :: m in queued ==> Sealed(m, sender.checksum);
    QueuedFrames(queued, sender.checksum);
    JoinedIsFlat(queued);
    NothingUnsent(sender);
    ArrivedIsPrefix(AsFrames(queued), arrived);
    forall i | 0 <= i < |Decode(arrived).frames|
      ensures FromLe(queued[i][..24][20..24]) == sender.checksum(queued[i][24..]) % 0x1_0000_0000
    {
      ChecksumField(queued[i], sender.checksum);
    }
  }

  lemma NothingUnsent(sender: Node)
    requires sender.SendOk()
    ensures sender.wire <= Joined(sender.queued)
    ensures sender.vSendMsg == [] ==> sender.wire == Joined(sender.queued)
  {
    hide Joined, Sealed;
  }

  lemma ChecksumField(m: seq<byte>, checksum: seq<byte> -> nat)
    requires Sealed(m, checksum)
    ensures |m| >= 24 && FromLe(m[..24][20..24]) == checksum(m[24..]) % 0x1_0000_0000
  {
    hide FromLe;
    assert m[..24][20..24] == m[20..24];
  }

  lemma QueuedFrames(queued: seq<seq<byte>>, checksum: seq<byte> -> nat)
    requires forall m :: m in queued ==> Sealed(m, checksum) && |m| - 24 <= 0x200_0000
    ensures forall m :: m in queued ==> |m| >= 24
    ensures |AsFrames(queued)| == |queued| && forall f :: f in AsFrames(queued) ==> WellFormed(f)
    ensures forall i :: 0 <= i < |queued| ==> AsFrames(queued)[i] == Frame(queued[i][..24], queued[i][24..])
  {
    forall i | 0 <= i < |queued|
      ensures |AsFrames(queued)| == |queued| && WellFormed(AsFrames(queued)[i])
      ensures AsFrames(queued)[i] == Frame(queued[i][..24], queued[i][24..])
    {
      FrameAt(queued, i);
      SealedIsFrame(queued[i], checksum);
    }
    hide AsFrames, WellFormed, Sealed;
  }
}
