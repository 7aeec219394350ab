/** GIF data sub-blocks: a length byte and that many bytes, ended by an empty sub-block (section 15 of GIF89a). */
module GifBlocks {
  import opened Basics
  import opened BitStream

  function Slice(input: seq<Byte>, i: nat, n: nat): (s: seq<Byte>)
    ensures |s| == n
    decreases n, input
  {
    if n == 0 then [] else [ByteAt(input, i)] + Slice(input, i + 1, n - 1)
  }

  lemma {:induction false} SliceIs(input: seq<Byte>, i: nat, n: nat)
    requires i + n <= |input|
    ensures Slice(input, i, n) == input[i..i + n]
    decreases n
  {
    if n > 0 {
      SliceIs(input, i + 1, n - 1);
      assert input[i..i + n] == [input[i]] + input[i + 1..i + n];
    }
  }

  lemma {:induction false} SlicePastEnd(input: seq<Byte>, i: nat, j: nat, n: nat)
    requires i >= |input| && j >= |input|
    ensures Slice(input, i, n) == Slice(input, j, n)
    decreases n
  {
    if n > 0 {
      SlicePastEnd(input, i + 1, j + 1, n - 1);
    }
  }

  /** The data carried by the sub-blocks from position i. */
  function Payload(input: seq<Byte>, i: nat): seq<Byte>
    decreases |input| - i
  {
    if i >= |input| || input[i] == 0 then [] else Slice(input, i + 1, input[i]) + Payload(input, i + 1 + input[i])
  }

  /** The position after the empty sub-block. */
  function ChainEnd(input: seq<Byte>, i: nat): nat
    decreases |input| - i
  {
    if i >= |input| then i else if input[i] == 0 then i + 1 else ChainEnd(input, i + 1 + input[i])
  }

  /** What is left inside a sub-block with n bytes to go, and after it. */
  function Remaining(input: seq<Byte>, i: nat, n: nat): seq<Byte>
  {
    Slice(input, i, n) + Payload(input, i + n)
  }

  lemma {:induction false} PayloadPastEnd(input: seq<Byte>, i: nat)
    requires i >= |input|
    ensures Payload(input, i) == []
  {
  }

  /** Taking one byte of a sub-block; at the end of input the position stays put. */
  lemma TakeByte(input: seq<Byte>, i: nat, n: nat)
    requires n > 0
    ensures var next := if i < |input| then i + 1 else i;
            Remaining(input, i, n) == [ByteAt(input, i)] + Remaining(input, next, n - 1)
  {
    if i < |input| {
    } else {
      SlicePastEnd(input, i, i + 1, n - 1);
      PayloadPastEnd(input, i + n);
      PayloadPastEnd(input, i + n - 1);
    }
  }

  // ---------- framing ----------

  /** Any split of the data into sub-blocks of 1 to 255 bytes. */
  predicate Chunks(chunks: seq<seq<Byte>>)
  {
    forall i :: 0 <= i < |chunks| ==> 1 <= |chunks[i]| <= 255
  }

  function Framed(chunks: seq<seq<Byte>>): seq<Byte>
    requires Chunks(chunks)
  {
    if chunks == [] then [0] else [|chunks[0]| as Byte] + chunks[0] + Framed(chunks[1..])
  }

  function Joined(chunks: seq<seq<Byte>>): seq<Byte>
  {
    if chunks == [] then [] else chunks[0] + Joined(chunks[1..])
  }

  lemma Unfold(input: seq<Byte>, i: nat, n: nat)
    requires i < |input| && input[i] == n > 0
    ensures Payload(input, i) == Slice(input, i + 1, n) + Payload(input, i + 1 + n)
    ensures ChainEnd(input, i) == ChainEnd(input, i + 1 + n)
  {
    hide Slice;
  }

  lemma EmptyChunk(input: seq<Byte>, i: nat)
    requires i < |input| && input[i] == 0
    ensures Payload(input, i) == [] && ChainEnd(input, i) == i + 1
  {
  }

  /** Framing is undone however the data was split, and reading stops right after the terminator. */
  lemma {:induction false} FramedPayload(input: seq<Byte>, i: nat, chunks: seq<seq<Byte>>, tail: seq<Byte>)
    requires Chunks(chunks) && i <= |input| && input[i..] == Framed(chunks) + tail
    ensures Payload(input, i) == Joined(chunks) && ChainEnd(input, i) == i + |Framed(chunks)|
    decreases |chunks|
  {
    hide Payload, ChainEnd, Slice;
    if chunks == [] {
      assert input[i] == input[i..][0] == 0;
      EmptyChunk(input, i);
    } else {
      var n := |chunks[0]|;
      var rest := Framed(chunks[1..]);
      var s := input[i..];
      assert s == [n as Byte] + (chunks[0] + (rest + tail));
      TwoParts(n as Byte, chunks[0], rest + tail);
      DropThenSlice(input, i, 1, 1 + n);
      Unfold(input, i, n);
      SliceIs(input, i + 1, n);
      FramedPayload(input, i + 1 + n, chunks[1..], tail);
    }
  }

  lemma DropThenSlice(s: seq<Byte>, i: nat, a: nat, b: nat)
    requires i + b <= |s| && a <= b
    ensures s[i..][a..b] == s[i + a..i + b] && s[i..][b..] == s[i + b..]
  {
  }

  lemma TwoParts(b: Byte, c: seq<Byte>, r: seq<Byte>)
    ensures var s := [b] + (c + r); s[0] == b && s[1..1 + |c|] == c && s[1 + |c|..] == r
  {
  }
}
