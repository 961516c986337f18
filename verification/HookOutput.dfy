/** Reading a hook's pipes in bounded memory: the last bytes for a message, the first bytes for data. */
module HookOutput {
  import opened Utf8

  /** One read of a pipe: some bytes (none at the end of the pipe), or a failure. */
  datatype PipeRead = Ok(chunk: string) | Failed

  /** Everything a reader takes before it stops: at the end of the pipe, or at a failure. */
  function Received(pipe: seq<PipeRead>): string {
    if pipe == [] || pipe[0].Failed? || pipe[0].chunk == [] then []
    else pipe[0].chunk + Received(pipe[1..])
  }

  function First(s: string, n: nat): string {
    if |s| <= n then s else s[..n]
  }

  function Last(s: string, n: nat): string {
    if |s| <= n then s else s[|s| - n..]
  }

  lemma LastAppend(s: string, n: nat, chunk: string)
    ensures Last(s, n) + chunk == Last(s + chunk, n + |chunk|)
  {
  }

  lemma LastOfLast(s: string, n: nat, m: nat)
    requires m <= n
    ensures Last(Last(s, n), m) == Last(s, m)
  {
  }

  lemma DropIsLast(s: string, n: nat)
    requires n <= |s|
    ensures s[|s| - n..] == Last(s, n)
  {
  }

  predicate More(pipe: seq<PipeRead>, i: nat) {
    i < |pipe| && pipe[i].Ok? && pipe[i].chunk != []
  }

  lemma ReceivedStep(pipe: seq<PipeRead>, i: nat, before: string)
    requires More(pipe, i)
    ensures before + pipe[i].chunk + Received(pipe[i + 1..]) == before + Received(pipe[i..])
  {
    assert pipe[i..][1..] == pipe[i + 1..];
  }

  lemma ReceivedEnd(pipe: seq<PipeRead>, i: nat)
    requires i <= |pipe| && !More(pipe, i)
    ensures Received(pipe[i..]) == []
  {
  }

  /** What is shared with the reader thread: a buffer that keeps the end of what came. */
  class TailBuffer {
    const cap: nat
    var bytes: string
    ghost var received: string

    /** The last bytes received, at least `cap` of them if so many came, never more than twice that. */
    ghost predicate Valid()
      reads this
    {
      |bytes| <= 2 * cap && exists n: nat :: cap <= n && bytes == Last(received, n)
    }

    constructor (cap: nat)
      ensures Valid() && received == [] && this.cap == cap
    {
      this.cap := cap;
      bytes, received := [], [];
      new;
      assert bytes == Last(received, cap);
    }

    /** One read by the reader thread, under the lock. */
    method Append(chunk: string)
      requires Valid()
      modifies this
      ensures Valid() && received == old(received) + chunk
      ensures |bytes| <= 2 * cap && |bytes| >= (if |received| < cap then |received| else cap)
    {
      hide Last;
      ghost var n: nat :| cap <= n && bytes == Last(received, n);
      LastAppend(received, n, chunk);
      FirstAndLast(received + chunk, n + |chunk|);
      received := received + chunk;
      bytes := bytes + chunk;
      assert bytes == Last(received, n + |chunk|);
      if |bytes| > cap * 2 {
        var excess := |bytes| - cap;
        LastOfLast(received, n + |chunk|, cap);
        DropIsLast(bytes, cap);
        bytes := bytes[excess..];
        assert bytes == Last(received, cap);
      }
    }

    /** At any moment, the last `cap` bytes of all that was received, read as UTF-8 lossily. */
    method Tail() returns (r: string)
      requires Valid()
      ensures r == Lossy(Last(received, cap))
    {
      hide Lossy;
      var start := if |bytes| < cap then 0 else |bytes| - cap;
      assert bytes[start..] == Last(received, cap);
      r := Lossy(bytes[start..]);
    }
  }

  method DrainTail(pipe: seq<PipeRead>, buffer: TailBuffer)
    requires buffer.Valid() && buffer.received == []
    modifies buffer
    ensures buffer.Valid() && buffer.received == Received(pipe)
  {
    hide Received, TailBuffer.Valid;
    var i := 0;
    while More(pipe, i)
      invariant i <= |pipe|
      invariant buffer.Valid()
      invariant buffer.received + Received(pipe[i..]) == Received(pipe)
      decreases |pipe| - i
    {
      ReceivedStep(pipe, i, buffer.received);
      buffer.Append(pipe[i].chunk);
      i := i + 1;
    }
    ReceivedEnd(pipe, i);
  }

  /** A buffer that keeps the start of what came, with one byte over to tell whether more came. */
  class HeadBuffer {
    const cap: nat
    var bytes: string
    ghost var received: string

    ghost predicate Valid()
      reads this
    {
      bytes == First(received, cap + 1)
    }

    constructor (cap: nat)
      ensures Valid() && received == [] && this.cap == cap
    {
      this.cap := cap;
      bytes, received := [], [];
    }

    method Append(chunk: string)
      requires Valid()
      modifies this
      ensures Valid() && received == old(received) + chunk
      ensures |bytes| <= cap + 1 && bytes <= received
    {
      var room := if cap + 1 < |bytes| then 0 else cap + 1 - |bytes|;
      var taken := if |chunk| < room then |chunk| else room;
      bytes := bytes + chunk[..taken];
      received := received + chunk;
    }

    /** Take the data: its first `cap` bytes, and whether there was more. */
    method Collect() returns (collected: string, truncated: bool)
      requires Valid()
      modifies this`bytes
      ensures collected == First(received, cap) && (truncated <==> |received| > cap)
    {
      collected := bytes;
      bytes := [];
      truncated := |collected| > cap;
      collected := First(collected, cap);
    }
  }

  method DrainHead(pipe: seq<PipeRead>, buffer: HeadBuffer)
    requires buffer.Valid() && buffer.received == []
    modifies buffer
    ensures buffer.Valid() && buffer.received == Received(pipe)
  {
    hide Received, HeadBuffer.Valid;
    var i := 0;
    while More(pipe, i)
      invariant i <= |pipe|
      invariant buffer.Valid()
      invariant buffer.received + Received(pipe[i..]) == Received(pipe)
      decreases |pipe| - i
    {
      ReceivedStep(pipe, i, buffer.received);
      buffer.Append(pipe[i].chunk);
      i := i + 1;
    }
    ReceivedEnd(pipe, i);
  }

  /** What the hook runner keeps of standard output as data, however it arrived. */
  method CollectStdout(pipe: seq<PipeRead>, cap: nat) returns (collected: string, truncated: bool)
    ensures collected == First(Received(pipe), cap)
    ensures truncated <==> |Received(pipe)| > cap
  {
    var buffer := new HeadBuffer(cap);
    DrainHead(pipe, buffer);
    collected, truncated := buffer.Collect();
  }

  /** What it keeps of an output it only reports. */
  method TailOfOutput(pipe: seq<PipeRead>, cap: nat) returns (text: string)
    ensures text == Lossy(Last(Received(pipe), cap))
  {
    hide Lossy;
    var buffer := new TailBuffer(cap);
    DrainTail(pipe, buffer);
    text := buffer.Tail();
  }

  /** Of a well-formed output the reported text is the tail but for the character it begins within. */
  lemma TailOfText(received: string, cap: nat) returns (k: nat)
    requires IsUtf8(received)
    ensures k <= 3 && k <= |Last(received, cap)| && IsUtf8(Last(received, cap)[k..])
    ensures Lossy(Last(received, cap)) == Replacements(k) + Last(received, cap)[k..]
  {
    hide Lossy, IsUtf8, Replacements;
    var cut := |received| - |Last(received, cap)|;
    assert Last(received, cap) == received[cut..];
    k := LossyOfSuffix(received, cut);
    assert received[cut..][k..] == received[cut + k..];
  }

  function AllOf(chunks: seq<string>): string {
    if chunks == [] then [] else chunks[0] + AllOf(chunks[1..])
  }

  /** What is received is all the reads together up to the first that fails or brings nothing. */
  lemma {:induction false} ReceivedIs(pipe: seq<PipeRead>, chunks: seq<string>)
    requires |chunks| <= |pipe|
    requires forall i :: 0 <= i < |chunks| ==> chunks[i] != [] && pipe[i] == Ok(chunks[i])
    requires |chunks| < |pipe| ==> pipe[|chunks|] == Failed || pipe[|chunks|] == Ok([])
    ensures Received(pipe) == AllOf(chunks)
    decreases |chunks|
  {
    if chunks != [] {
      ReceivedIs(pipe[1..], chunks[1..]);
    }
  }

  /** The first and the last `n` bytes: that many, or all there are, from the right end. */
  lemma FirstAndLast(s: string, n: nat)
    ensures First(s, n) <= s && |First(s, n)| == (if n < |s| then n else |s|)
    ensures |Last(s, n)| == (if n < |s| then n else |s|) && s[|s| - |Last(s, n)|..] == Last(s, n)
  {
  }
}
