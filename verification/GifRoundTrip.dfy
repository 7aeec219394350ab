/** GIF rasters written by an encoder. */
module GifRoundTrip {
  import opened Basics
  import opened Bits
  import opened BitStream
  import opened GifBlocks
  import opened GifCode

  /** A raster written with any choice of strings, packed and cut into sub-blocks in any way, decodes to its pixels
      exactly when no run of strings between clear codes outgrows the decoder's table; otherwise it is refused. */
  lemma RasterDecodes(cs: nat, pixels: seq<Byte>, actions: seq<Action>, chunks: seq<seq<Byte>>, tail: seq<Byte>,
                      input: seq<Byte>, start: nat)
    requires 2 <= cs <= 8 && actions != [] && actions[0] == Clear
    requires Encodes(cs, Encoder(Initial(cs), pixels, 0), actions)
    requires Chunks(chunks) && Joined(chunks) == Pack(CodeBits(cs, Encoder(Initial(cs), pixels, 0), actions))
    requires start <= |input| && input[start..] == Framed(chunks) + tail
    ensures StateOk(cs, Start(cs)) && ChainEnd(input, start) == start + |Framed(chunks)|
    ensures Decode(cs, Start(cs), Payload(input, start), 0, []) == if RunsFit(cs, 0, actions) then Image(pixels) else Corrupt
  {
    hide Initial, Encodes, CodeBits, Pack, Framed, Payload, ChainEnd, Decode, RunsFit, Carries, StateOk;
    var bits := CodeBits(cs, Encoder(Initial(cs), pixels, 0), actions);
    FramedPayload(input, start, chunks, tail);
    PackedCarries(bits, []);
    assert Pack(bits) + [] == Pack(bits);
    ImageDecodes(cs, pixels, actions, Pack(bits), 0);
  }

  /** A clear code, then longest matches (Appendix F). */
  ghost function GreedyImage(cs: nat, pixels: seq<Byte>): (actions: seq<Action>)
    requires 2 <= cs <= 8 && Pixels(cs, pixels)
    ensures Encodes(cs, Encoder(Initial(cs), pixels, 0), actions) && RunsFit(cs, 0, actions)
    ensures actions != [] && actions[0] == Clear
  {
    hide Initial, Encodes, RunsFit, Greedy, Pixels;
    var e := Encoder(Initial(cs), pixels, 0);
    InitialSingles(cs);
    GreedyEncodes(cs, e);
    ClearEncoder(cs, e);
    Prepend(cs, e, Clear, Greedy(cs, e));
    [Clear] + Greedy(cs, e)
  }

  /** Every image written by the longest-match encoder round-trips. */
  lemma GreedyRasterDecodes(cs: nat, pixels: seq<Byte>, chunks: seq<seq<Byte>>, tail: seq<Byte>, input: seq<Byte>, start: nat)
    requires 2 <= cs <= 8 && Pixels(cs, pixels) && Chunks(chunks)
    requires Joined(chunks) == Pack(CodeBits(cs, Encoder(Initial(cs), pixels, 0), GreedyImage(cs, pixels)))
    requires start <= |input| && input[start..] == Framed(chunks) + tail
    ensures StateOk(cs, Start(cs))
    ensures Decode(cs, Start(cs), Payload(input, start), 0, []) == Image(pixels)
  {
    hide Initial, Encodes, CodeBits, Pack, Framed, Payload, ChainEnd, Decode, RunsFit, Carries, StateOk, GreedyImage, Pixels;
    RasterDecodes(cs, pixels, GreedyImage(cs, pixels), chunks, tail, input, start);
  }

  // ---------- the exact limit ----------

  /** The encoding that names every pixel by its own single-index code. */
  function Singly(pixels: seq<Byte>): seq<Action>
  {
    if pixels == [] then [] else [Emit(pixels[0])] + Singly(pixels[1..])
  }

  lemma {:induction false} SinglyEncodes(cs: nat, e: Encoder)
    requires Singles(cs, e.table) && Pixels(cs, e.rest)
    ensures Encodes(cs, e, Singly(e.rest))
    ensures RunsFit(cs, e.n, Singly(e.rest)) <==> e.rest == [] || Pow2(cs) + 1 + e.n + |e.rest| <= MAX_CODES
    decreases |e.rest|
  {
    hide Initial;
    if e.rest != [] {
      var c: nat := e.rest[0];
      EmittedSingles(cs, e, c);
      var next := Emitted(cs, e, Emit(c));
      assert next.rest == e.rest[1..];
      SinglyEncodes(cs, next);
      assert Singly(e.rest)[1..] == Singly(next.rest);
    }
  }

  lemma SinglyAfterClear(cs: nat, pixels: seq<Byte>)
    requires 2 <= cs <= 8 && Pixels(cs, pixels) && pixels != []
    ensures Encodes(cs, Encoder(Initial(cs), pixels, 0), [Clear] + Singly(pixels))
    ensures RunsFit(cs, 0, [Clear] + Singly(pixels)) <==> |pixels| <= MAX_CODES - Pow2(cs) - 1
  {
    hide Initial, Encodes, RunsFit, Singly, Pixels;
    var e := Encoder(Initial(cs), pixels, 0);
    InitialSingles(cs);
    ClearEncoder(cs, e);
    SinglyEncodes(cs, e);
    ClearFirst(cs, e, Singly(pixels));
  }

  /** A clear code, then every pixel by its own code. */
  ghost function DeferredImage(cs: nat, pixels: seq<Byte>): (actions: seq<Action>)
    requires 2 <= cs <= 8 && Pixels(cs, pixels) && pixels != []
    ensures Encodes(cs, Encoder(Initial(cs), pixels, 0), actions) && actions != [] && actions[0] == Clear
    ensures RunsFit(cs, 0, actions) <==> |pixels| <= MAX_CODES - Pow2(cs) - 1
  {
    hide Initial, Encodes, RunsFit, Singly, Pixels;
    SinglyAfterClear(cs, pixels);
    [Clear] + Singly(pixels)
  }

  /** Encoders that never clear after the table is full meet the decoder's limit: such an encoding of an image, cut into
      sub-blocks in any way, decodes to the image up to 8192 - 2^cs - 1 pixels, and is refused for every larger one,
      although Appendix F sets no limit. */
  lemma DeferredClear(cs: nat, pixels: seq<Byte>, chunks: seq<seq<Byte>>, tail: seq<Byte>, input: seq<Byte>, start: nat)
    requires 2 <= cs <= 8 && Pixels(cs, pixels) && pixels != [] && Chunks(chunks)
    requires Joined(chunks) == Pack(CodeBits(cs, Encoder(Initial(cs), pixels, 0), DeferredImage(cs, pixels)))
    requires start <= |input| && input[start..] == Framed(chunks) + tail
    ensures StateOk(cs, Start(cs))
    ensures Decode(cs, Start(cs), Payload(input, start), 0, []) ==
            if |pixels| <= MAX_CODES - Pow2(cs) - 1 then Image(pixels) else Corrupt
  {
    hide Initial, Encodes, CodeBits, Pack, Framed, Payload, ChainEnd, Decode, RunsFit, StateOk, Pixels, DeferredImage;
    RasterDecodes(cs, pixels, DeferredImage(cs, pixels), chunks, tail, input, start);
  }

  lemma ClearFirst(cs: nat, e: Encoder, rest: seq<Action>)
    requires cs <= 8 && e.n == 0 && e.table == Initial(cs) && Encodes(cs, e, rest)
    ensures Encodes(cs, e, [Clear] + rest)
    ensures RunsFit(cs, 0, [Clear] + rest) <==> RunsFit(cs, 0, rest)
  {
    hide Initial;
    assert ([Clear] + rest)[1..] == rest;
  }
}
