/**
 * The first user thread (root/src/main.rs): it sends its check-in message
 * to the kernel eight bytes at a time, each chunk packed big-endian into
 * one word, and then asks the kernel to shut down.
 */
module Root {
  import opened Machine
  import Kernel

  /** `size_of::<usize>()`: the bytes in one word. */
  const CHUNK: nat := 8

  /** `b' '`, the padding byte. */
  const SPACE: Byte := 0x20

  /** `CHECKIN`, "Hello, world!" in ASCII. */
  const CHECKIN: seq<Byte> := [0x48, 0x65, 0x6c, 0x6c, 0x6f, 0x2c, 0x20, 0x77, 0x6f, 0x72, 0x6c, 0x64, 0x21]

  // ---------------------------------------------------------------- chunks

  /** The bytes of a sequence of chunks, in order. */
  function Flatten(chunks: seq<seq<Byte>>): seq<Byte> {
    if |chunks| == 0 then [] else chunks[0] + Flatten(chunks[1..])
  }

  /**
   * `<[u8]>::chunks(8)`: consecutive pieces of 8 bytes, the last one
   * shorter when the length is not a multiple of 8; none for no bytes.
   */
  function Chunks(msg: seq<Byte>): (r: seq<seq<Byte>>)
    ensures |r| == (|msg| + CHUNK - 1) / CHUNK
    ensures forall i :: 0 <= i < |r| ==> 1 <= |r[i]| <= CHUNK
    ensures forall i :: 0 <= i < |r| - 1 ==> |r[i]| == CHUNK
    decreases |msg|
  {
    if |msg| == 0 then []
    else if |msg| <= CHUNK then [msg]
    else [msg[..CHUNK]] + Chunks(msg[CHUNK..])
  }

  /** Chunking loses and reorders nothing. */
  lemma {:induction false} ChunksFlatten(msg: seq<Byte>)
    ensures Flatten(Chunks(msg)) == msg
    decreases |msg|
  {
    if |msg| > CHUNK {
      ChunksFlatten(msg[CHUNK..]);
      assert Chunks(msg)[1..] == Chunks(msg[CHUNK..]);
      assert msg == msg[..CHUNK] + msg[CHUNK..];
    } else if |msg| > 0 {
      assert Chunks(msg)[1..] == [];
      assert msg + [] == msg;
    }
  }

  /** The first chunk is the first (up to) 8 bytes; the rest chunk the remainder. */
  lemma ChunksStep(msg: seq<Byte>)
    requires |msg| > 0
    ensures var n := if |msg| < CHUNK then |msg| else CHUNK;
      Chunks(msg) == [msg[..n]] + Chunks(msg[n..])
  {
    if |msg| <= CHUNK {
      assert msg[..|msg|] == msg;
      assert msg[|msg|..] == [];
    }
  }

  /** `[b' '; 8]` with the chunk copied over its front. */
  function Pad(chunk: seq<Byte>): (b: seq<Byte>)
    requires |chunk| <= CHUNK
    ensures |b| == CHUNK && b[..|chunk|] == chunk
    ensures forall i :: |chunk| <= i < CHUNK ==> b[i] == SPACE
  {
    chunk + seq(CHUNK - |chunk|, _ => SPACE)
  }

  // ---------------------------------------------------------------- the calls

  /** An `ecall` to the kernel: the selector in `a0`, the argument in `a1`. */
  datatype Ecall = Ecall(selector: Word, arg: Word)

  /** The calls `main` makes for `msg`: one print per chunk, in order, then shutdown. */
  function Calls(msg: seq<Byte>): (r: seq<Ecall>)
    ensures |r| == |Chunks(msg)| + 1 && r[|r| - 1] == Ecall(0x0, 0x0)
    ensures forall i :: 0 <= i < |r| - 1 ==> r[i].selector == 0x1
  {
    PrintCalls(Chunks(msg)) + [Ecall(0x0, 0x0)]
  }

  /** One print call per chunk, carrying the chunk's padded bytes read big-endian. */
  function PrintCalls(chunks: seq<seq<Byte>>): (r: seq<Ecall>)
    requires forall i :: 0 <= i < |chunks| ==> |chunks[i]| <= CHUNK
    ensures |r| == |chunks|
    ensures forall i :: 0 <= i < |r| ==> r[i] == Ecall(0x1, Kernel.FromBeBytes(Pad(chunks[i])))
  {
    if |chunks| == 0 then []
    else [Ecall(0x1, Kernel.FromBeBytes(Pad(chunks[0])))] + PrintCalls(chunks[1..])
  }

  /**
   * `main`'s loop: for each chunk, fill a space-filled buffer with it, read
   * the buffer big-endian and send it with selector 1; finally send
   * selector 0. The calls are returned in the order they are made.
   */
  method Checkin(msg: seq<Byte>) returns (calls: seq<Ecall>)
    ensures calls == Calls(msg)
  {
    ghost var chunks := Chunks(msg);
    calls := [];
    var rest := msg;
    while |rest| > 0
      invariant |calls| <= |chunks| && chunks[|calls|..] == Chunks(rest)
      invariant forall i :: 0 <= i < |calls| ==> calls[i] == Ecall(0x1, Kernel.FromBeBytes(Pad(chunks[i])))
      decreases |rest|
    {
      var n := if |rest| < CHUNK then |rest| else CHUNK;
      var chunk := rest[..n];
      ChunksStep(rest);
      assert chunks[|calls|] == chunk && chunks[|calls| + 1..] == Chunks(rest[n..]);
      var bytes := PadBuffer(chunk);
      var value := Kernel.FromBeBytes(bytes[..]);
      assert value == Kernel.FromBeBytes(Pad(chunks[|calls|]));
      calls := calls + [Ecall(0x1, value)];
      rest := rest[n..];
    }
    assert |calls| == |chunks|;
    assert calls == PrintCalls(chunks);
    calls := calls + [Ecall(0x0, 0x0)];
  }

  /** The word buffer of `main`'s loop: eight spaces, with the chunk copied over its front byte by byte. */
  method PadBuffer(chunk: seq<Byte>) returns (bytes: array<Byte>)
    requires |chunk| <= CHUNK
    ensures fresh(bytes) && bytes[..] == Pad(chunk)
  {
    bytes := new Byte[CHUNK](_ => SPACE);
    var i := 0;
    while i < |chunk|
      invariant i <= |chunk|
      invariant forall k :: 0 <= k < i ==> bytes[k] == chunk[k]
      invariant forall k :: i <= k < CHUNK ==> bytes[k] == SPACE
    {
      bytes[i] := chunk[i];
      i := i + 1;
    }
  }

  // ---------------------------------------------------------------- what the kernel prints

  /**
   * The bytes the kernel prints when it serves `calls` in order
   * (`Kernel.Dispatch`): printed bytes accumulate, and shutdown ends the run.
   */
  function Printed(calls: seq<Ecall>): seq<Byte> {
    if |calls| == 0 then []
    else
      match Kernel.Dispatch(calls[0].selector, calls[0].arg)
      case Shutdown => []
      case Print(bytes) => bytes + Printed(calls[1..])
      case LogContext => Printed(calls[1..])
  }

  /** The kernel's `to_be_bytes` gives back exactly each padded chunk. */
  lemma PrintRecoversChunk(chunk: seq<Byte>)
    requires |chunk| <= CHUNK
    ensures Kernel.Dispatch(0x1, Kernel.FromBeBytes(Pad(chunk))) == Kernel.Print(Pad(chunk))
  {
    Kernel.FromBeBytesRoundTrip(Pad(chunk));
  }

  /** A print call for a chunk prints the padded chunk, then whatever follows prints. */
  lemma PrintedChunk(chunk: seq<Byte>, rest: seq<Ecall>)
    requires |chunk| <= CHUNK
    ensures Printed([Ecall(0x1, Kernel.FromBeBytes(Pad(chunk)))] + rest) == Pad(chunk) + Printed(rest)
  {
    PrintRecoversChunk(chunk);
    assert ([Ecall(0x1, Kernel.FromBeBytes(Pad(chunk)))] + rest)[1..] == rest;
  }

  lemma {:induction false} PrintedPrintCalls(chunks: seq<seq<Byte>>, tail: seq<Ecall>)
    requires forall i :: 0 <= i < |chunks| ==> |chunks[i]| <= CHUNK
    ensures Printed(PrintCalls(chunks) + tail) == PadAll(chunks) + Printed(tail)
    decreases |chunks|
  {
    if |chunks| > 0 {
      var call := Ecall(0x1, Kernel.FromBeBytes(Pad(chunks[0])));
      var rest := PrintCalls(chunks[1..]) + tail;
      assert PrintCalls(chunks) + tail == [call] + rest;
      calc {
        Printed(PrintCalls(chunks) + tail);
        Printed([call] + rest);
        { PrintedChunk(chunks[0], rest); }
        Pad(chunks[0]) + Printed(rest);
        { PrintedPrintCalls(chunks[1..], tail); }
        Pad(chunks[0]) + (PadAll(chunks[1..]) + Printed(tail));
        (Pad(chunks[0]) + PadAll(chunks[1..])) + Printed(tail);
        PadAll(chunks) + Printed(tail);
      }
    } else {
      assert PrintCalls(chunks) + tail == tail;
    }
  }

  /** Every chunk padded, in order. */
  function PadAll(chunks: seq<seq<Byte>>): seq<Byte>
    requires forall i :: 0 <= i < |chunks| ==> |chunks[i]| <= CHUNK
  {
    if |chunks| == 0 then [] else Pad(chunks[0]) + PadAll(chunks[1..])
  }

  /** `n` padding bytes. */
  function Spaces(n: nat): (r: seq<Byte>)
    ensures |r| == n && forall i :: 0 <= i < n ==> r[i] == SPACE
  {
    seq(n, _ => SPACE)
  }

  /** How many spaces fill the last word of an `len`-byte message. */
  function Fill(len: nat): nat {
    (CHUNK - len % CHUNK) % CHUNK
  }

  lemma PadLast(msg: seq<Byte>)
    requires 0 < |msg| <= CHUNK
    ensures Pad(msg) == msg + Spaces(Fill(|msg|))
  {
    assert Fill(|msg|) == CHUNK - |msg|;
  }

  lemma FillStep(len: nat)
    requires len > CHUNK
    ensures Fill(len) == Fill(len - CHUNK)
  {
  }

  /** Padding every chunk pads only the message's end, to a whole number of words. */
  lemma {:induction false} PadAllChunks(msg: seq<Byte>)
    ensures PadAll(Chunks(msg)) == msg + Spaces(Fill(|msg|))
    decreases |msg|
  {
    if |msg| > CHUNK {
      var head, tail := msg[..CHUNK], msg[CHUNK..];
      PadAllChunks(tail);
      FillStep(|msg|);
      assert Chunks(msg)[1..] == Chunks(tail);
      assert Pad(head) == head;
      calc {
        PadAll(Chunks(msg));
        Pad(head) + PadAll(Chunks(tail));
        head + (tail + Spaces(Fill(|msg|)));
        { assert head + tail == msg; }
        msg + Spaces(Fill(|msg|));
      }
    } else if |msg| > 0 {
      assert Chunks(msg)[1..] == [];
      PadLast(msg);
    }
  }

  /**
   * End to end: the kernel prints the whole message, in order, followed by
   * the spaces that fill its last word, and then shuts down.
   */
  lemma KernelPrintsMessage(msg: seq<Byte>)
    ensures Printed(Calls(msg)) == msg + Spaces(Fill(|msg|))
  {
    PrintedPrintCalls(Chunks(msg), [Ecall(0x0, 0x0)]);
    PadAllChunks(msg);
  }

  /** "Hello, world!" goes out in two words; the second is padded with three spaces. */
  lemma CheckinPrints()
    ensures |Calls(CHECKIN)| == 3
    ensures Printed(Calls(CHECKIN)) == CHECKIN + [SPACE, SPACE, SPACE]
  {
    KernelPrintsMessage(CHECKIN);
    assert Fill(|CHECKIN|) == 3;
    assert Spaces(3) == [SPACE, SPACE, SPACE];
  }
}
