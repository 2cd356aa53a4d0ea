/**
 * The packet deframer: `assemble` rebuilds fixed-size packets from byte chunks
 * of any length, keeping its cursor and the surplus bytes of the next packet
 * between calls; `deserialize` hands a completed packet out and `serialize`
 * copies a packet's bytes onto the wire.
 *
 * First an abstract specification on sequences (Feed, FeedAll) and what it
 * guarantees about a whole stream; then the imperative assembler, proved to
 * follow that specification one call at a time.
 */
module Serialization {
  import opened Bytes

  /** `result_t`. */
  datatype Status = PacketOk | PacketIncomplete | PacketComplete

  /** What one chunk does to the bytes awaiting framing. */
  datatype Step = Step(complete: bool, packet: seq<byte>, pending: seq<byte>)

  /**
   * Feeding `input` when `pending` bytes are already waiting: once `size`
   * bytes are available the first `size` of them form a packet and the rest
   * wait for the next one; at most one packet comes out per call.
   */
  function Feed(size: nat, pending: seq<byte>, input: seq<byte>): (st: Step)
    requires size > 0
    ensures st.complete <==> |pending| + |input| >= size
    ensures st.complete ==> |st.packet| == size
    ensures !st.complete ==> st.packet == []
    ensures st.packet + st.pending == pending + input
  {
    var s := pending + input;
    if |s| >= size then Step(true, s[..size], s[size..]) else Step(false, [], s)
  }

  /** The packets produced by a sequence of calls, and the bytes still waiting. */
  datatype Run = Run(packets: seq<seq<byte>>, pending: seq<byte>)

  /** The concatenation of a sequence of chunks. */
  function Flatten(cs: seq<seq<byte>>): (s: seq<byte>)
    decreases |cs|
  {
    if cs == [] then [] else Flatten(cs[..|cs| - 1]) + cs[|cs| - 1]
  }

  /** Every packet has `size` bytes. */
  predicate Uniform(packets: seq<seq<byte>>, size: nat)
  {
    forall i :: 0 <= i < |packets| ==> |packets[i]| == size
  }

  lemma UniformSnoc(packets: seq<seq<byte>>, p: seq<byte>, size: nat)
    requires Uniform(packets, size) && |p| == size
    ensures Uniform(packets + [p], size)
  {
  }

  lemma FlattenSnoc(cs: seq<seq<byte>>, c: seq<byte>)
    ensures Flatten(cs + [c]) == Flatten(cs) + c
  {
    assert (cs + [c])[..|cs|] == cs;
  }

  /**
   * Feeding `chunks` one call each, from the initial state: every packet has
   * `size` bytes and no byte is lost, duplicated or reordered.
   */
  function FeedAll(size: nat, chunks: seq<seq<byte>>): (run: Run)
    requires size > 0
    ensures Uniform(run.packets, size)
    ensures Flatten(run.packets) + run.pending == Flatten(chunks)
    decreases |chunks|
  {
    if chunks == [] then Run([], [])
    else
      var prev := FeedAll(size, chunks[..|chunks| - 1]);
      var last := chunks[|chunks| - 1];
      var st := Feed(size, prev.pending, last);
      assert Flatten(chunks) == Flatten(chunks[..|chunks| - 1]) + last;
      StepKeepsStream(size, prev.packets, prev.pending, last);
      if st.complete then Run(prev.packets + [st.packet], st.pending)
      else Run(prev.packets, st.pending)
  }

  /** One call keeps packets uniform and the stream intact. */
  lemma StepKeepsStream(size: nat, packets: seq<seq<byte>>, pending: seq<byte>, input: seq<byte>)
    requires size > 0 && Uniform(packets, size)
    ensures var st := Feed(size, pending, input);
      var after := if st.complete then packets + [st.packet] else packets;
      Uniform(after, size) && Flatten(after) + st.pending == Flatten(packets) + pending + input
  {
    var st := Feed(size, pending, input);
    if st.complete {
      FlattenSnoc(packets, st.packet);
      UniformSnoc(packets, st.packet, size);
      assert Flatten(packets + [st.packet]) + st.pending ==
        Flatten(packets) + (st.packet + st.pending);
    }
  }

  /**
   * Every call of the sequence meets the assembler's precondition: the bytes
   * waiting plus the new chunk never exceed two packets.
   */
  predicate Admissible(size: nat, chunks: seq<seq<byte>>)
    requires size > 0
    decreases |chunks|
  {
    chunks == [] ||
    (Admissible(size, chunks[..|chunks| - 1]) &&
     |FeedAll(size, chunks[..|chunks| - 1]).pending| + |chunks[|chunks| - 1]| <= 2 * size)
  }

  /** After admissible calls at most one packet's worth of bytes is waiting. */
  lemma PendingBound(size: nat, chunks: seq<seq<byte>>)
    requires size > 0 && Admissible(size, chunks)
    ensures |FeedAll(size, chunks).pending| <= size
  {
  }

  /** A prefix of an admissible sequence of calls is admissible. */
  lemma {:induction false} AdmissiblePrefix(size: nat, chunks: seq<seq<byte>>, j: nat)
    requires size > 0 && Admissible(size, chunks) && j <= |chunks|
    ensures Admissible(size, chunks[..j])
    decreases |chunks|
  {
    if j < |chunks| {
      assert chunks[..|chunks| - 1][..j] == chunks[..j];
      AdmissiblePrefix(size, chunks[..|chunks| - 1], j);
    } else {
      assert chunks[..j] == chunks;
    }
  }

  /** Chunks of at most one packet each, one byte at a time included, are always admissible. */
  lemma {:induction false} SmallChunksAdmissible(size: nat, chunks: seq<seq<byte>>)
    requires size > 0
    requires forall i :: 0 <= i < |chunks| ==> |chunks[i]| <= size
    ensures Admissible(size, chunks)
    decreases |chunks|
  {
    if chunks != [] {
      var init := chunks[..|chunks| - 1];
      assert forall i :: 0 <= i < |init| ==> init[i] == chunks[i];
      SmallChunksAdmissible(size, init);
      PendingBound(size, init);
    }
  }

  /** The number of bytes in `n` packets of `size` bytes, counted packet by packet. */
  function Span(n: nat, size: nat): (bytes: nat)
  {
    if n == 0 then 0 else Span(n - 1, size) + size
  }

  lemma {:induction false} SpanIsProduct(n: nat, size: nat)
    ensures Span(n, size) == n * size
  {
    if n > 0 {
      SpanIsProduct(n - 1, size);
      assert (n - 1) * size + size == n * size;
    }
  }

  /** More packets span more bytes: at least one packet more for each packet more. */
  lemma {:induction false} SpanOrder(m: nat, n: nat, size: nat)
    ensures m <= n ==> Span(m, size) <= Span(n, size)
    ensures m < n ==> Span(m, size) + size <= Span(n, size)
    decreases n
  {
    if m < n {
      SpanOrder(m, n - 1, size);
    }
  }

  /** If `Span(a)` lies at most one packet above `Span(b)`, then `a` is `b` or `b + 1`. */
  lemma SpanBetween(a: nat, b: nat, size: nat)
    requires size > 0 && Span(b, size) <= Span(a, size) <= Span(b, size) + size
    ensures a == b || a == b + 1
  {
    SpanOrder(a, b, size);
    SpanOrder(b + 1, a, size);
  }

  /** Packets of `size` bytes each concatenate to `size` bytes per packet. */
  lemma {:induction false} FlattenLength(packets: seq<seq<byte>>, size: nat)
    requires Uniform(packets, size)
    ensures |Flatten(packets)| == Span(|packets|, size)
    decreases |packets|
  {
    if packets != [] {
      var n := |packets| - 1;
      assert Uniform(packets[..n], size);
      FlattenLength(packets[..n], size);
    }
  }

  lemma SliceOfPrefix(a: seq<byte>, b: seq<byte>, lo: nat, hi: nat)
    requires lo <= hi <= |a|
    ensures (a + b)[lo..hi] == a[lo..hi]
  {
  }

  lemma SliceOfSuffix(a: seq<byte>, b: seq<byte>)
    ensures (a + b)[|a|..|a| + |b|] == b
  {
  }

  /** The `i`-th of packets of `size` bytes each is the `i`-th `size`-byte slice of their concatenation. */
  lemma {:induction false} FlattenSlice(packets: seq<seq<byte>>, size: nat, i: nat)
    requires Uniform(packets, size) && i < |packets|
    ensures Span(i, size) + size <= |Flatten(packets)|
    ensures Flatten(packets)[Span(i, size)..Span(i, size) + size] == packets[i]
    decreases |packets|
  {
    var n := |packets| - 1;
    var init := packets[..n];
    var last := packets[n];
    assert Uniform(init, size);
    var whole := Flatten(packets);
    var front := Flatten(init);
    assert whole == front + last;
    FlattenLength(init, size);
    var lo, hi := Span(i, size), Span(i, size) + size;
    if i < n {
      assert init[i] == packets[i];
      FlattenSlice(init, size, i);
      SliceOfPrefix(front, last, lo, hi);
    } else {
      SliceOfSuffix(front, last);
    }
  }

  /** `packet` is bytes `i * size` up to `(i + 1) * size` of `stream`. */
  ghost predicate IsCut(stream: seq<byte>, size: nat, i: nat, packet: seq<byte>)
  {
    (i + 1) * size <= |stream| && packet == stream[i * size..(i + 1) * size]
  }

  /** The same slice, located by products of `size`. */
  lemma PacketAtProduct(packets: seq<seq<byte>>, size: nat, i: nat)
    requires Uniform(packets, size) && i < |packets|
    ensures IsCut(Flatten(packets), size, i, packets[i])
  {
    FlattenSlice(packets, size, i);
    SpanIsProduct(i, size);
    SpanIsProduct(i + 1, size);
    assert Span(i + 1, size) == Span(i, size) + size;
  }

  /** An empty call completes the waiting packet, if a whole one is waiting, and changes nothing else. */
  lemma EmptyCall(size: nat, chunks: seq<seq<byte>>)
    requires size > 0
    ensures var before := FeedAll(size, chunks);
      var run := FeedAll(size, chunks + [[]]);
      (|before.pending| >= size ==>
        run.packets == before.packets + [before.pending[..size]] && run.pending == before.pending[size..]) &&
      (|before.pending| < size ==> run == before)
  {
    var all := chunks + [[]];
    assert all[..|all| - 1] == chunks;
    assert FeedAll(size, chunks).pending + [] == FeedAll(size, chunks).pending;
  }

  /**
   * A stream of `k` packets' worth of bytes, cut into admissible chunks and
   * followed by one empty call, comes out as `k` packets with nothing left
   * waiting.
   */
  lemma DrainedStream(size: nat, chunks: seq<seq<byte>>, k: nat)
    requires size > 0 && Admissible(size, chunks)
    requires |Flatten(chunks)| == Span(k, size)
    ensures var run := FeedAll(size, chunks + [[]]);
      |run.packets| == k && run.pending == [] && Flatten(run.packets) == Flatten(chunks)
  {
    var before := FeedAll(size, chunks);
    var p := |before.packets|;
    PendingBound(size, chunks);
    FlattenLength(before.packets, size);
    SpanBetween(k, p, size);
    EmptyCall(size, chunks);
    var run := FeedAll(size, chunks + [[]]);
    if k == p {
      assert |before.pending| == 0;
      assert run == before;
    } else {
      assert |before.pending| == size;
      assert run.pending == [];
      assert |run.packets| == p + 1;
    }
    FlattenSnoc(chunks, []);
    assert Flatten(run.packets) + [] == Flatten(run.packets);
  }

  /**
   * Framing exactness: a stream of `k` packets' worth of bytes, cut into any
   * admissible chunks and followed by one empty call, yields exactly `k`
   * packets, the `i`-th being bytes `i * size` to `(i + 1) * size` of the
   * stream, with nothing left waiting. (The empty call is needed because a
   * call returns at most one packet: without it the last packet can still
   * be waiting.)
   */
  lemma FramingExact(size: nat, chunks: seq<seq<byte>>, k: nat)
    requires size > 0 && Admissible(size, chunks)
    requires |Flatten(chunks)| == k * size
    ensures var run := FeedAll(size, chunks + [[]]);
      |run.packets| == k && run.pending == [] &&
      forall i :: 0 <= i < k ==> IsCut(Flatten(chunks), size, i, run.packets[i])
  {
    SpanIsProduct(k, size);
    DrainedStream(size, chunks, k);
    var packets := FeedAll(size, chunks + [[]]).packets;
    assert Uniform(packets, size) && Flatten(packets) == Flatten(chunks);
    forall i | 0 <= i < k
      ensures IsCut(Flatten(packets), size, i, packets[i])
    {
      PacketAtProduct(packets, size, i);
    }
  }

  /**
   * A packet's worth of bytes sent from the initial state, in one chunk or
   * cut into any number of chunks, comes out as exactly that one packet.
   */
  lemma ChunkedRoundTrip(size: nat, chunks: seq<seq<byte>>)
    requires size > 0 && |Flatten(chunks)| == size
    ensures FeedAll(size, chunks).packets == [Flatten(chunks)]
    ensures FeedAll(size, chunks).pending == []
  {
    var run := FeedAll(size, chunks);
    FlattenLength(run.packets, size);
    assert Span(|run.packets|, size) + |run.pending| == size;
    assert chunks != [];
    var prev := FeedAll(size, chunks[..|chunks| - 1]);
    var st := Feed(size, prev.pending, chunks[|chunks| - 1]);
    assert run.pending == st.pending;
    assert !st.complete ==> run.packets == prev.packets && |run.pending| < size;
    SpanBetween(|run.packets|, 0, size);
    assert |run.packets| == 1;
    assert run.pending == [];
    assert run.packets[..0] == [];
    assert Flatten(run.packets) == Flatten(run.packets[..0]) + run.packets[0] == run.packets[0];
    assert Flatten(run.packets) + run.pending == Flatten(run.packets);
    assert run.packets[0] == Flatten(chunks);
    assert run.packets == [run.packets[0]];
  }

  /**
   * How one call of the assembler splits its input: the first `avail` bytes
   * complete the waiting ones, the rest start the next packet.
   */
  lemma FeedSplit(size: nat, pending: seq<byte>, input: seq<byte>, avail: int)
    requires size > 0 && |pending| <= size
    requires avail == if |pending| + |input| >= size then size - |pending| else |input|
    ensures 0 <= avail <= |input|
    ensures var st := Feed(size, pending, input);
      (st.complete <==> |pending| + avail == size) &&
      (st.complete ==> st.packet == pending + input[..avail] && st.pending == input[avail..]) &&
      (!st.complete ==> st.pending == pending + input[..avail])
  {
    var s := pending + input;
    if |s| >= size {
      assert s[..size] == pending + input[..avail];
      assert s[size..] == input[avail..];
    } else {
      assert input[..avail] == input;
    }
  }

  /**
   * The assembler's function-static state, one instance per byte stream:
   * `counter`, `leftoverFlag`, `bytesLeftover` and `leftoverBuffer`, with the
   * file-static `_privateBuffer` in which the packet is built.
   */
  class Assembler {
    /** `PACKET_SIZE`. */
    const packetSize: nat
    /** `_privateBuffer`: the packet being assembled. */
    const buffer: array<byte>
    /** `leftoverBuffer`: surplus bytes that start the next packet. */
    const leftoverBuffer: array<byte>
    /** `counter`: bytes of the current packet already in `buffer`. */
    var counter: int
    /** `leftoverFlag`: `leftoverBuffer` is to be drained on the next call. */
    var leftoverFlag: bool
    /** `bytesLeftover`: bytes held in `leftoverBuffer`. */
    var bytesLeftover: int

    /** The state between calls. */
    ghost predicate Valid()
      reads this
    {
      packetSize > 0 &&
      buffer.Length == packetSize && leftoverBuffer.Length == packetSize &&
      buffer != leftoverBuffer &&
      0 <= counter < packetSize && 0 <= bytesLeftover <= packetSize &&
      (!leftoverFlag ==> bytesLeftover == 0) &&
      (leftoverFlag ==> counter == 0)
    }

    /** The bytes received and not yet handed out as a packet, in arrival order. */
    ghost function Pending(): (s: seq<byte>)
      reads this, buffer, leftoverBuffer
      requires Valid()
      ensures |s| == counter + bytesLeftover
    {
      buffer[..counter] + leftoverBuffer[..bytesLeftover]
    }

    /** The zero-initialised statics at start-up. */
    constructor (size: nat)
      requires size > 0
      ensures Valid() && fresh(buffer) && fresh(leftoverBuffer)
      ensures packetSize == size && counter == 0 && !leftoverFlag && bytesLeftover == 0
      ensures Pending() == []
    {
      packetSize := size;
      buffer := new byte[size](_ => 0);
      leftoverBuffer := new byte[size](_ => 0);
      counter := 0;
      leftoverFlag := false;
      bytesLeftover := 0;
    }

    /**
     * `assemble`: drain the leftover bytes of the previous call into the
     * packet, then take from `input` what the packet still needs and stash
     * the surplus in `leftoverBuffer` for the next packet. Returns
     * `PacketComplete`, with the packet in `buffer`, when the cursor reaches
     * `packetSize`, and `PacketIncomplete` otherwise.
     *
     * The precondition keeps the surplus within `leftoverBuffer`.
     */
    method Assemble(input: seq<byte>) returns (r: Status)
      requires Valid()
      requires counter + bytesLeftover + |input| <= 2 * packetSize
      modifies this, buffer, leftoverBuffer
      ensures Valid()
      ensures var st := Feed(packetSize, old(Pending()), input);
        (r == PacketComplete <==> st.complete) &&
        (r == PacketComplete || r == PacketIncomplete) &&
        (st.complete ==> buffer[..] == st.packet) &&
        Pending() == st.pending
      ensures leftoverFlag <==> r == PacketComplete
      ensures counter ==
        if r == PacketComplete then 0 else old(counter) + old(bytesLeftover) + |input|
      ensures bytesLeftover ==
        if r == PacketComplete then old(counter) + old(bytesLeftover) + |input| - packetSize else 0
    {
      ghost var pending := Pending();
      DrainLeftover();
      var avail := StashSurplus(input);
      ghost var stash := leftoverBuffer[..bytesLeftover];
      CopyInput(input, avail);
      FeedSplit(packetSize, pending, input, avail);
      if counter == packetSize {
        assert buffer[..] == buffer[..counter];
        counter := 0;
        r := PacketComplete;
        assert Pending() == [] + stash;
      } else {
        r := PacketIncomplete;
        assert Pending() == buffer[..counter] + [];
      }
    }

    /**
     * The first phase of `assemble`: when the leftover flag is set, copy the
     * leftover bytes, in order, into the packet at the cursor, and clear the
     * flag and the leftover count. Afterwards the packet holds every byte
     * waiting before the call.
     */
    method DrainLeftover()
      requires Valid()
      modifies this`counter, this`leftoverFlag, this`bytesLeftover, buffer
      ensures !leftoverFlag && bytesLeftover == 0
      ensures counter == old(counter) + old(bytesLeftover) <= packetSize
      ensures buffer[..counter] == old(Pending())
      ensures old(leftoverFlag) ==> buffer[..counter] == leftoverBuffer[..old(bytesLeftover)]
      ensures !old(leftoverFlag) ==> unchanged(this, buffer)
    {
      ghost var pending := Pending();
      if leftoverFlag {
        var toCopy: int;
        if bytesLeftover <= packetSize {
          leftoverFlag := false;
          toCopy := bytesLeftover;
        } else {
          toCopy := packetSize;
        }
        bytesLeftover := bytesLeftover - toCopy;
        var i := 0;
        while i < toCopy
          modifies this`counter, buffer
          invariant 0 <= i <= toCopy == |pending| <= packetSize
          invariant counter == i
          invariant buffer[..i] == pending[..i]
        {
          buffer[counter] := leftoverBuffer[i];
          counter := counter + 1;
          i := i + 1;
          assert buffer[..i] == buffer[..i - 1] + [pending[i - 1]];
        }
      }
    }

    /**
     * The second phase of `assemble`: when the bytes in the packet and the
     * input reach `packetSize`, only `packetSize - counter` input bytes are
     * for this packet; the rest are appended, in order, to the leftover
     * buffer after its `bytesLeftover` entries and the leftover flag is set.
     * Returns how many input bytes go to the packet.
     */
    method StashSurplus(input: seq<byte>) returns (avail: int)
      requires leftoverBuffer.Length == packetSize && 0 <= counter <= packetSize
      requires 0 <= bytesLeftover && bytesLeftover + counter + |input| <= 2 * packetSize
      modifies this`leftoverFlag, this`bytesLeftover, leftoverBuffer
      ensures counter + |input| >= packetSize ==>
        avail == packetSize - counter && leftoverFlag &&
        bytesLeftover == old(bytesLeftover) + |input| - avail &&
        leftoverBuffer[..bytesLeftover] == old(leftoverBuffer[..bytesLeftover]) + input[avail..]
      ensures counter + |input| < packetSize ==>
        avail == |input| && unchanged(this, leftoverBuffer)
    {
      if counter + |input| >= packetSize {
        avail := packetSize - counter;
        leftoverFlag := true;
        var toLeftover := |input| - avail;
        ghost var kept := leftoverBuffer[..bytesLeftover];
        for i := 0 to toLeftover
          modifies leftoverBuffer
          invariant leftoverBuffer[..bytesLeftover + i] == kept + input[avail..avail + i]
        {
          leftoverBuffer[bytesLeftover + i] := input[avail + i];
          assert leftoverBuffer[..bytesLeftover + i + 1] ==
            leftoverBuffer[..bytesLeftover + i] + [input[avail + i]];
          assert input[avail..avail + i + 1] == input[avail..avail + i] + [input[avail + i]];
        }
        bytesLeftover := bytesLeftover + toLeftover;
      } else {
        avail := |input|;
      }
    }

    /**
     * The third phase of `assemble`: append the first `avail` input bytes, in
     * order, to the packet at the cursor, advancing the cursor by `avail`.
     */
    method CopyInput(input: seq<byte>, avail: int)
      requires buffer.Length == packetSize
      requires 0 <= avail <= |input| && 0 <= counter && counter + avail <= packetSize
      modifies this`counter, buffer
      ensures counter == old(counter) + avail
      ensures buffer[..counter] == old(buffer[..counter]) + input[..avail]
    {
      ghost var front := buffer[..counter];
      for i := 0 to avail
        invariant counter == old(counter) + i
        invariant buffer[..counter] == front + input[..i]
      {
        buffer[counter] := input[i];
        counter := counter + 1;
        assert buffer[..counter] == buffer[..counter - 1] + [input[i]];
        assert input[..i + 1] == input[..i] + [input[i]];
      }
    }

    /**
     * `deserialize`: assemble `input`; when that completes a packet, copy its
     * `packetSize` bytes to `output` and return `PacketOk`, otherwise return
     * `PacketIncomplete` and leave `output` alone.
     */
    method Deserialize(input: seq<byte>, output: array<byte>) returns (r: Status)
      requires Valid()
      requires counter + bytesLeftover + |input| <= 2 * packetSize
      requires output.Length >= packetSize && output != buffer && output != leftoverBuffer
      modifies this, buffer, leftoverBuffer, output
      ensures Valid()
      ensures var st := Feed(packetSize, old(Pending()), input);
        (r == PacketOk <==> st.complete) &&
        (r == PacketOk || r == PacketIncomplete) &&
        (st.complete ==> output[..packetSize] == st.packet) &&
        (!st.complete ==> output[..] == old(output[..])) &&
        Pending() == st.pending
      ensures output[packetSize..] == old(output[packetSize..])
    {
      var result := Assemble(input);
      if result == PacketComplete {
        forall i | 0 <= i < packetSize {
          output[i] := buffer[i];
        }
        return PacketOk;
      }
      return result;
    }
  }

  /** `serialize`: copy `size` bytes of a packet to `buffer` and return `size`. */
  method Serialize(buffer: array<byte>, data: seq<byte>, size: nat) returns (n: int)
    requires size <= |data| && size <= buffer.Length
    modifies buffer
    ensures buffer[..size] == data[..size]
    ensures buffer[size..] == old(buffer[size..])
    ensures n == size
  {
    forall i | 0 <= i < size {
      buffer[i] := data[i];
    }
    n := size;
  }

  /** Feeding one more chunk of an admissible sequence: the call's precondition holds, and the run grows by that call's step. */
  lemma FeedAllStep(size: nat, chunks: seq<seq<byte>>, i: nat)
    requires size > 0 && Admissible(size, chunks) && i < |chunks|
    ensures var prev := FeedAll(size, chunks[..i]);
      var st := Feed(size, prev.pending, chunks[i]);
      |prev.pending| + |chunks[i]| <= 2 * size &&
      FeedAll(size, chunks[..i + 1]) ==
        if st.complete then Run(prev.packets + [st.packet], st.pending) else Run(prev.packets, st.pending)
  {
    AdmissiblePrefix(size, chunks, i + 1);
    assert chunks[..i + 1][..i] == chunks[..i];
  }

  /**
   * One assembler fed an admissible sequence of chunks through `deserialize`
   * hands out exactly the packets of the specification, in order.
   */
  method DeframeStream(size: nat, chunks: seq<seq<byte>>) returns (packets: seq<seq<byte>>)
    requires size > 0 && Admissible(size, chunks)
    ensures packets == FeedAll(size, chunks).packets
  {
    var a := new Assembler(size);
    var out := new byte[size](_ => 0);
    packets := [];
    for i := 0 to |chunks|
      invariant a.Valid() && a.packetSize == size
      invariant out != a.buffer && out != a.leftoverBuffer && out.Length == size
      invariant a.Pending() == FeedAll(size, chunks[..i]).pending
      invariant packets == FeedAll(size, chunks[..i]).packets
    {
      ghost var prev := FeedAll(size, chunks[..i]);
      ghost var st := Feed(size, prev.pending, chunks[i]);
      FeedAllStep(size, chunks, i);
      var r := a.Deserialize(chunks[i], out);
      if r == PacketOk {
        assert out[..] == out[..size] == st.packet;
        packets := packets + [out[..]];
      }
    }
    assert chunks[..|chunks|] == chunks;
  }

  /**
   * A packet serialized into a wire buffer and fed to a fresh assembler in
   * one call comes back as `PacketOk` with the same bytes.
   */
  method TransferPacket(size: nat, packet: seq<byte>) returns (r: Status, received: seq<byte>)
    requires size > 0 && |packet| == size
    ensures r == PacketOk && received == packet
  {
    var wire := new byte[size](_ => 0);
    var n := Serialize(wire, packet, size);
    var a := new Assembler(size);
    var out := new byte[size](_ => 0);
    r := a.Deserialize(wire[..n], out);
    received := out[..];
  }

  /** An empty call after admissible calls is admissible too. */
  lemma AdmissibleEmptyCall(size: nat, chunks: seq<seq<byte>>)
    requires size > 0 && Admissible(size, chunks)
    ensures Admissible(size, chunks + [[]])
  {
    var all := chunks + [[]];
    assert all[..|all| - 1] == chunks;
    PendingBound(size, chunks);
  }

  /**
   * One assembler fed `k` packets' worth of bytes in admissible chunks through
   * `deserialize`, followed by one empty call, hands out exactly `k` packets,
   * the `i`-th being bytes `i * size` to `(i + 1) * size` of the stream.
   */
  method DeframeExact(size: nat, chunks: seq<seq<byte>>, k: nat) returns (packets: seq<seq<byte>>)
    requires size > 0 && Admissible(size, chunks)
    requires |Flatten(chunks)| == k * size
    ensures |packets| == k
    ensures forall i :: 0 <= i < k ==> IsCut(Flatten(chunks), size, i, packets[i])
  {
    AdmissibleEmptyCall(size, chunks);
    packets := DeframeStream(size, chunks + [[]]);
    FramingExact(size, chunks, k);
  }
}
