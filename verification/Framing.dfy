/** The wire format of messages: a 24-byte header that announces the payload's size. */
module Framing {

  import opened Basics
  import opened Streams
  import Transactions

  type byte = Transactions.Byte

  const HEADER_SIZE: int := 24
  const MESSAGE_SIZE_OFFSET: int := 16
  const CHECKSUM_OFFSET: int := 20

  datatype Frame = Frame(header: seq<byte>, payload: seq<byte>)

  /** nMessageSize of a header. */
  function SizeOf(header: seq<byte>): nat
    requires |header| == HEADER_SIZE
  {
    FromLe(header[MESSAGE_SIZE_OFFSET..MESSAGE_SIZE_OFFSET + 4])
  }

  predicate WellFormed(f: Frame) {
    |f.header| == HEADER_SIZE && |f.payload| == SizeOf(f.header) <= MAX_SIZE
  }

  function Bytes(f: Frame): seq<byte> {
    f.header + f.payload
  }

  function Flat(frames: seq<Frame>): seq<byte> {
    if frames == [] then [] else Bytes(frames[0]) + Flat(frames[1..])
  }

  /** What a byte stream means: the frames it completes, the bytes after them, and whether no header announced more
      than MAX_SIZE. */
  datatype Decoded = Decoded(frames: seq<Frame>, rest: seq<byte>, ok: bool)

  function Decode(s: seq<byte>): Decoded
    decreases |s|
  {
    if |s| < HEADER_SIZE then Decoded([], s, true)
    else
      var header := s[..HEADER_SIZE];
      var end := HEADER_SIZE + SizeOf(header);
      if SizeOf(header) > MAX_SIZE then Decoded([], s, false)
      else if |s| < end then Decoded([], s, true)
      else
        var d := Decode(s[end..]);
        Decoded([Frame(header, s[HEADER_SIZE..end])] + d.frames, d.rest, d.ok)
  }

  /** The bytes of a message that is still arriving. */
  predicate Partial(p: seq<byte>) {
    |p| < HEADER_SIZE || (SizeOf(p[..HEADER_SIZE]) <= MAX_SIZE && |p| < HEADER_SIZE + SizeOf(p[..HEADER_SIZE]))
  }

  /** Bytes that start with the header of a message that is too large. */
  predicate TooLarge(p: seq<byte>) {
    |p| >= HEADER_SIZE && SizeOf(p[..HEADER_SIZE]) > MAX_SIZE
  }

  lemma {:induction false} FlatAppend(frames: seq<Frame>, f: Frame)
    ensures Flat(frames + [f]) == Flat(frames) + Bytes(f)
  {
    if frames == [] {
      assert frames + [f] == [f];
    } else {
      FlatAppend(frames[1..], f);
      assert (frames + [f])[1..] == frames[1..] + [f];
      assert Bytes(frames[0]) + (Flat(frames[1..]) + Bytes(f)) == Bytes(frames[0]) + Flat(frames[1..]) + Bytes(f);
    }
  }

  /** One frame at the front of a stream. */
  lemma DecodeFront(f: Frame, more: seq<byte>)
    requires WellFormed(f)
    ensures var d := Decode(more);
            Decode(Bytes(f) + more) == Decoded([f] + d.frames, d.rest, d.ok)
  {
    hide SizeOf;
    var s := Bytes(f) + more;
    assert s[..HEADER_SIZE] == f.header;
    assert s[HEADER_SIZE..HEADER_SIZE + |f.payload|] == f.payload;
    assert s[HEADER_SIZE + |f.payload|..] == more;
  }

  /** The front frame of a stream that has one. */
  lemma FrontOf(s: seq<byte>) returns (f: Frame, more: seq<byte>)
    requires Decode(s).frames != []
    ensures WellFormed(f) && s == Bytes(f) + more && |more| < |s|
  {
    hide SizeOf;
    var end := HEADER_SIZE + SizeOf(s[..HEADER_SIZE]);
    f, more := Frame(s[..HEADER_SIZE], s[HEADER_SIZE..end]), s[end..];
    assert s == Bytes(f) + more;
  }

  /** Decoding is the only way to cut a stream into frames and an unfinished rest. */
  lemma {:induction false} DecodeFlat(frames: seq<Frame>, rest: seq<byte>)
    requires forall f :: f in frames ==> WellFormed(f)
    requires Partial(rest) || TooLarge(rest)
    ensures Decode(Flat(frames) + rest) == Decoded(frames, rest, Partial(rest))
  {
    hide SizeOf, WellFormed, Bytes;
    if frames == [] {
      assert Flat(frames) + rest == rest;
    } else {
      hide Decode, Partial, TooLarge;
      var more := Flat(frames[1..]) + rest;
      DecodeFlat(frames[1..], rest);
      Regroup(Bytes(frames[0]), Flat(frames[1..]), rest);
      assert WellFormed(frames[0]);
      DecodeFront(frames[0], more);
      assert frames == [frames[0]] + frames[1..];
    }
  }

  /** The other direction: what was decoded spells the stream. */
  lemma {:induction false} DecodeSpells(s: seq<byte>)
    ensures var d := Decode(s);
            && Flat(d.frames) + d.rest == s && (forall f :: f in d.frames ==> WellFormed(f))
            && (if d.ok then Partial(d.rest) else TooLarge(d.rest))
    decreases |s|
  {
    hide SizeOf;
    var d := Decode(s);
    if d.frames != [] {
      var end := HEADER_SIZE + SizeOf(s[..HEADER_SIZE]);
      DecodeSpells(s[end..]);
      var front, more := Frame(s[..HEADER_SIZE], s[HEADER_SIZE..end]), Decode(s[end..]);
      assert WellFormed(front) && d == Decoded([front] + more.frames, more.rest, more.ok);
      assert Bytes(front) + s[end..] == s;
      hide Decode, WellFormed, Bytes, Partial, TooLarge;
      assert d.frames[1..] == more.frames;
      Regroup(Bytes(front), Flat(more.frames), more.rest);
    } else {
      assert Flat(d.frames) + d.rest == s;
    }
  }

  lemma NothingYet(s: seq<byte>)
    requires Decode(s).frames == []
    ensures Decode(s).rest == s
  {
    hide SizeOf;
  }

  /** Where a stream is cut into chunks does not matter: decoding the first chunk and then its rest with the second
      one is decoding both at once. */
  lemma {:induction false} DecodeInChunks(a: seq<byte>, b: seq<byte>)
    requires Decode(a).ok
    ensures var d := Decode(Decode(a).rest + b);
            Decode(a + b) == Decoded(Decode(a).frames + d.frames, d.rest, d.ok)
    decreases |a|
  {
    hide Decode, WellFormed, Bytes;
    if Decode(a).frames == [] {
      NothingYet(a);
      assert [] + Decode(a + b).frames == Decode(a + b).frames;
    } else {
      var f, more := FrontOf(a);
      DecodeFront(f, more);
      DecodeInChunks(more, b);
      assert a + b == Bytes(f) + (more + b);
      DecodeFront(f, more + b);
      var d := Decode(Decode(a).rest + b);
      assert [f] + (Decode(more).frames + d.frames) == [f] + Decode(more).frames + d.frames;
    }
  }

  /** Processing complete frames between two reads changes nothing for the later ones. */
  lemma ProcessedBetween(frames: seq<Frame>, k: nat, rest: seq<byte>, b: seq<byte>)
    requires k <= |frames| && (forall f :: f in frames ==> WellFormed(f)) && Partial(rest)
    ensures var d := Decode(Flat(frames[k..]) + rest + b);
            Decode(Flat(frames) + rest + b) == Decoded(frames[..k] + d.frames, d.rest, d.ok)
  {
    hide Decode, WellFormed, Partial;
    DecodeFlat(frames, rest);
    DecodeFlat(frames[k..], rest);
    DecodeInChunks(Flat(frames) + rest, b);
    DecodeInChunks(Flat(frames[k..]) + rest, b);
    var more := Decode(rest + b).frames;
    assert frames[..k] + (frames[k..] + more) == frames + more;
  }

  /** Of a stream of well-formed frames, whatever has arrived decodes without failure to a prefix of the frames. */
  lemma {:induction false} ArrivedIsPrefix(frames: seq<Frame>, arrived: seq<byte>)
    requires forall f :: f in frames ==> WellFormed(f)
    requires arrived <= Flat(frames)
    ensures Decode(arrived).ok && Decode(arrived).frames <= frames
    ensures arrived == Flat(frames) ==> Decode(arrived) == Decoded(frames, [], true)
  {
    DecodeSpells(arrived);
    var missing := Flat(frames)[|arrived|..];
    assert Flat(frames) == arrived + missing;
    DecodeFlat(frames, []);
    assert Flat(frames) + [] == Flat(frames);
    if Decode(arrived).ok {
      DecodeInChunks(arrived, missing);
    } else {
      BrokenStays(arrived, missing);
    }
  }

  /** A stream that failed stays failed. */
  lemma {:induction false} BrokenStays(a: seq<byte>, b: seq<byte>)
    requires !Decode(a).ok
    ensures !Decode(a + b).ok && Decode(a + b).frames == Decode(a).frames
    decreases |a|
  {
    if Decode(a).frames == [] {
      assert (a + b)[..HEADER_SIZE] == a[..HEADER_SIZE];
    } else {
      hide Decode, WellFormed, Bytes;
      var f, more := FrontOf(a);
      DecodeFront(f, more);
      BrokenStays(more, b);
      assert a + b == Bytes(f) + (more + b);
      DecodeFront(f, more + b);
    }
  }
}
