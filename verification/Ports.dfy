/** PortMidi input and output ports, reduced to the bytes and event words
    that cross the port boundary.

    The input side reads events from the device and pushes the four bytes of
    each event's message word into the MIDI parser. The parser itself is not
    part of this model: an `Input` records the bytes handed to it, in order.

    The output side turns a message into event words and writes them. A system
    exclusive message is framed with 0xF0 ... 0xF7 and sent four bytes per
    event; any other message is serialized (the serializer is not part of this
    model, so its bytes are part of the message here) and sent as one event.
    An `Output` records the words handed to the device, in order. */
module Ports {
  import opened EventWord

  const SysexStart: byte := 0xF0
  const SysexEnd: byte := 0xF7

  /** Largest number of bytes one event word carries. */
  const EventSize: nat := 4

  /** A message as the output port sees it. */
  datatype Message =
    | Sysex(data: seq<byte>)
    | Short(serialized: seq<byte>)  // the bytes the serializer gives for a non-sysex message

  /** The wire bytes of a system exclusive message. */
  function Frame(data: seq<byte>): (r: seq<byte>)
    ensures |r| == |data| + 2
    ensures r[0] == SysexStart && r[|r| - 1] == SysexEnd && r[1..|r| - 1] == data
  {
    [SysexStart] + data + [SysexEnd]
  }

  /** The byte sequence cut into events: four bytes each, fewer in the last. */
  function Chunks(bytes: seq<byte>): (r: seq<seq<byte>>)
    decreases |bytes|
  {
    if |bytes| == 0 then []
    else if |bytes| <= EventSize then [bytes]
    else [bytes[..EventSize]] + Chunks(bytes[EventSize..])
  }

  /** All chunks joined back together. */
  function Flatten(chunks: seq<seq<byte>>): (r: seq<byte>)
  {
    if |chunks| == 0 then [] else chunks[0] + Flatten(chunks[1..])
  }

  /** The words of consecutive events, one per chunk. */
  function PackAll(chunks: seq<seq<byte>>): (r: seq<nat>)
    ensures |r| == |chunks|
  {
    if |chunks| == 0 then [] else [Pack(chunks[0])] + PackAll(chunks[1..])
  }

  /** The bytes pushed into the parser for consecutive events. */
  function UnpackAll(words: seq<int>): (r: seq<byte>)
    ensures |r| == 4 * |words|
  {
    if |words| == 0 then [] else EventBytes(words[0]) + UnpackAll(words[1..])
  }

  /** The event words `send` writes for a message. */
  function Words(msg: Message): (r: seq<nat>)
  {
    match msg
    case Sysex(data) => PackAll(Chunks(Frame(data)))
    case Short(serialized) => [Pack(serialized)]
  }

  /** Joining the chunks gives back exactly the bytes that were cut. */
  lemma {:induction false} FlattenChunks(bytes: seq<byte>)
    ensures Flatten(Chunks(bytes)) == bytes
    decreases |bytes|
  {
    if |bytes| > EventSize {
      FlattenChunks(bytes[EventSize..]);
      assert bytes == bytes[..EventSize] + bytes[EventSize..];
    } else if |bytes| > 0 {
      assert Flatten([bytes]) == bytes + Flatten([]);
    }
  }

  /** Every chunk holds one to four bytes, and only the last may hold fewer
      than four. */
  lemma {:induction false} ChunkSizes(bytes: seq<byte>)
    ensures forall i :: 0 <= i < |Chunks(bytes)| ==> 0 < |Chunks(bytes)[i]| <= EventSize
    ensures forall i :: 0 <= i < |Chunks(bytes)| - 1 ==> |Chunks(bytes)[i]| == EventSize
    decreases |bytes|
  {
    if |bytes| > EventSize {
      ChunkSizes(bytes[EventSize..]);
      var rest := Chunks(bytes[EventSize..]);
      assert Chunks(bytes) == [bytes[..EventSize]] + rest;
      forall i | 1 <= i < |Chunks(bytes)|
        ensures Chunks(bytes)[i] == rest[i - 1]
      {
      }
    }
  }

  /** The number of events is ceil(|bytes| / 4). */
  lemma {:induction false} ChunkCount(bytes: seq<byte>)
    ensures |Chunks(bytes)| == (|bytes| + EventSize - 1) / EventSize
    decreases |bytes|
  {
    if |bytes| > EventSize {
      ChunkCount(bytes[EventSize..]);
    }
  }

  /** Every word the output port writes for a system exclusive message fits
      in 32 bits, and a system exclusive message of n data bytes takes
      ceil((n + 2) / 4) events. */
  lemma SysexWords(data: seq<byte>)
    ensures |Words(Sysex(data))| == (|data| + 2 + EventSize - 1) / EventSize
    ensures forall i :: 0 <= i < |Words(Sysex(data))| ==> Words(Sysex(data))[i] < WordRange
  {
    var chunks := Chunks(Frame(data));
    ChunkCount(Frame(data));
    ChunkSizes(Frame(data));
    forall i | 0 <= i < |chunks|
      ensures PackAll(chunks)[i] < WordRange
    {
      PackFitsWord(chunks[i]);
      PackAllAt(chunks, i);
    }
  }

  /** The i-th word is the packed i-th chunk. */
  lemma {:induction false} PackAllAt(chunks: seq<seq<byte>>, i: nat)
    requires i < |chunks|
    ensures PackAll(chunks)[i] == Pack(chunks[i])
  {
    if i > 0 {
      PackAllAt(chunks[1..], i - 1);
    }
  }

  /** Unpacking words built from chunks of at most four bytes pads each chunk
      with zero bytes up to four. */
  lemma {:induction false} UnpackPackAll(chunks: seq<seq<byte>>)
    requires forall i :: 0 <= i < |chunks| ==> |chunks[i]| <= EventSize
    ensures UnpackAll(PackAll(chunks)) == PaddedAll(chunks)
  {
    if |chunks| > 0 {
      UnpackPackAll(chunks[1..]);
      EventBytesOfPack(chunks[0]);
      assert PackAll(chunks)[1..] == PackAll(chunks[1..]);
    }
  }

  /** Each chunk followed by its zero padding up to four bytes. */
  function PaddedAll(chunks: seq<seq<byte>>): (r: seq<byte>)
    requires forall i :: 0 <= i < |chunks| ==> |chunks[i]| <= EventSize
  {
    if |chunks| == 0 then []
    else chunks[0] + Zeros(EventSize - |chunks[0]|) + PaddedAll(chunks[1..])
  }

  /** Padding only the last chunk (all others being full) is the same as
      padding the joined bytes once, up to a multiple of four. */
  lemma {:induction false} PaddedChunks(bytes: seq<byte>)
    ensures forall i :: 0 <= i < |Chunks(bytes)| ==> |Chunks(bytes)[i]| <= EventSize
    ensures PaddedAll(Chunks(bytes)) == bytes + Zeros(PadLength(|bytes|))
    decreases |bytes|
  {
    ChunkSizes(bytes);
    if |bytes| > EventSize {
      var head, tail := bytes[..EventSize], bytes[EventSize..];
      PaddedChunks(tail);
      var rest := Chunks(tail);
      assert Chunks(bytes) == [head] + rest;
      assert ([head] + rest)[1..] == rest;
      assert PadLength(|tail|) == PadLength(|bytes|);
      assert PaddedAll(Chunks(bytes)) == head + Zeros(0) + PaddedAll(rest);
      assert Zeros(0) == [];
      assert head + tail == bytes;
    } else if |bytes| > 0 {
      PaddedLastChunk(bytes);
    }
  }

  lemma PaddedLastChunk(bytes: seq<byte>)
    requires 0 < |bytes| <= EventSize
    ensures PaddedAll([bytes]) == bytes + Zeros(PadLength(|bytes|))
  {
    assert PadLength(|bytes|) == EventSize - |bytes|;
    assert PaddedAll([bytes]) == bytes + Zeros(EventSize - |bytes|) + PaddedAll([]);
  }

  /** How many zero bytes bring n up to a multiple of four. */
  function PadLength(n: nat): (p: nat)
    ensures p < EventSize && (n + p) % EventSize == 0
  {
    (EventSize - n % EventSize) % EventSize
  }

  /** A system exclusive message written by an output port and read back by an
      input port reaches the parser as 0xF0, the data, 0xF7, and then zero
      bytes up to the next multiple of four. */
  lemma SysexLoopback(data: seq<byte>)
    ensures UnpackAll(Words(Sysex(data))) == Frame(data) + Zeros(PadLength(|data| + 2))
  {
    var framed := Frame(data);
    PaddedChunks(framed);
    UnpackPackAll(Chunks(framed));
  }

  /** A short message of at most four bytes read back by an input port reaches
      the parser as its bytes and then zero bytes up to four. */
  lemma ShortLoopback(serialized: seq<byte>)
    requires |serialized| <= EventSize
    ensures UnpackAll(Words(Short(serialized))) == serialized + Zeros(EventSize - |serialized|)
  {
    EventBytesOfPack(serialized);
  }

  /** When the data bytes are MIDI data bytes (high bit clear), the framed
      sequence holds 0xF7 only at its end and 0xF0 only at its start. */
  lemma FrameMarkersUnique(data: seq<byte>)
    requires forall i :: 0 <= i < |data| ==> data[i] < 0x80
    ensures forall i :: 0 <= i < |Frame(data)| ==>
      (Frame(data)[i] == SysexEnd <==> i == |data| + 1) &&
      (Frame(data)[i] == SysexStart <==> i == 0)
  {
  }

  /** The first event of a non-empty byte sequence carries its first (up to)
      four bytes; the remaining events carry the rest. */
  lemma NextChunk(bytes: seq<byte>)
    requires |bytes| > 0
    ensures var n := if |bytes| < EventSize then |bytes| else EventSize;
      PackAll(Chunks(bytes)) == [Pack(bytes[..n])] + PackAll(Chunks(bytes[n..]))
  {
    if |bytes| <= EventSize {
      assert bytes[..|bytes|] == bytes;
      assert bytes[|bytes|..] == [];
    }
  }

  /** The input port: the bytes pushed into the parser so far. */
  class Input {
    var parserInput: seq<byte>

    constructor ()
      ensures parserInput == []
    {
      parserInput := [];
    }

    /** Hand the parser the four bytes of each event read, event by event,
        lowest-order byte first, zero padding included. */
    method Parse(events: seq<int>)
      modifies this
      ensures parserInput == old(parserInput) + UnpackAll(events)
    {
      for i := 0 to |events|
        invariant parserInput + UnpackAll(events[i..]) == old(parserInput) + UnpackAll(events)
      {
        var bytes := UnpackEvent(events[i]);
        assert events[i..][1..] == events[i + 1..];
        parserInput := parserInput + bytes;
      }
    }
  }

  /** The output port: the event words written to the device so far. */
  class Output {
    var written: seq<nat>

    constructor ()
      ensures written == []
    {
      written := [];
    }

    /** Pack at most a few bytes into one event word and write it. */
    method SendEvent(bytes: seq<byte>)
      modifies this
      ensures written == old(written) + [Pack(bytes)]
    {
      var value := PackEvent(bytes);
      PackIsWeightedSum(bytes);
      written := written + [value];
    }

    /** Send a message: system exclusive in framed events of four bytes,
        anything else as one event of its serialized bytes. */
    method Send(msg: Message)
      modifies this
      ensures written == old(written) + Words(msg)
    {
      match msg {
        case Sysex(data) =>
          var bytes := [SysexStart] + data + [SysexEnd];
          ghost var words := PackAll(Chunks(bytes));
          assert Words(msg) == words;
          while |bytes| > 0
            invariant written + PackAll(Chunks(bytes)) == old(written) + words
            decreases |bytes|
          {
            var n := if |bytes| < EventSize then |bytes| else EventSize;
            var chunk, rest := bytes[..n], bytes[n..];
            NextChunk(bytes);
            SendEvent(chunk);
            bytes := rest;
          }
        case Short(serialized) =>
          SendEvent(serialized);
      }
    }
  }
}
