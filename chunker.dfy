/** The text chunker: page text cut into pieces small enough for one model call. */
module Chunker {
  import opened Basics

  /** The chunk size the finder uses: 32 * 1024 characters. */
  const ModelChunkSize := 32 * 1024

  /** The chunks of `text`: consecutive slices of `size` characters, the last one possibly shorter. */
  function Chunks(text: string, size: nat): seq<string>
    requires size > 0
    decreases |text|
  {
    if text == [] then []
    else if |text| <= size then [text]
    else [text[..size]] + Chunks(text[size..], size)
  }

  /**
    The chunks put back together are the text, every chunk but the last is
    full, none is empty, and empty text has no chunks.
   */
  lemma {:induction false} ChunksShape(text: string, size: nat)
    requires size > 0
    ensures Flatten(Chunks(text, size)) == text
    ensures forall k :: 0 <= k < |Chunks(text, size)| ==> 0 < |Chunks(text, size)[k]| <= size
    ensures forall k :: 0 <= k < |Chunks(text, size)| - 1 ==> |Chunks(text, size)[k]| == size
    ensures Chunks(text, size) == [] <==> text == []
    decreases |text|
  {
    if text != [] {
      var chunks := Chunks(text, size);
      if |text| <= size {
        assert chunks[1..] == [];
      } else {
        var rest := Chunks(text[size..], size);
        ChunksShape(text[size..], size);
        assert chunks[1..] == rest;
        assert text[..size] + text[size..] == text;
        assert forall k :: 1 <= k < |chunks| ==> chunks[k] == rest[k - 1];
      }
    }
  }

  /**
    `splitIntoChunks`: the loop that slices the text from the front computes
    `Chunks`, so its chunks rebuild the text and none is empty or too long.
   */
  method SplitIntoChunks(text: string, chunkSize: nat) returns (chunks: seq<string>)
    requires chunkSize > 0
    ensures chunks == Chunks(text, chunkSize)
    ensures Flatten(chunks) == text
    ensures forall k :: 0 <= k < |chunks| ==> 0 < |chunks[k]| <= chunkSize
  {
    chunks := [];
    var i := 0;
    while i < |text|
      invariant 0 <= i
      invariant chunks + Chunks(text[if i < |text| then i else |text|..], chunkSize) == Chunks(text, chunkSize)
      decreases |text| - i
    {
      var endIndex := if i + chunkSize < |text| then i + chunkSize else |text|;
      ChunksAt(text, i, chunkSize);
      assert endIndex == |text| ==> text[i..endIndex] == text[i..];
      ghost var before := chunks;
      chunks := chunks + [text[i..endIndex]];
      assert before + ([text[i..endIndex]] + Chunks(text[endIndex..], chunkSize))
          == chunks + Chunks(text[endIndex..], chunkSize);
      i := i + chunkSize;
    }
    assert chunks + Chunks(text[|text|..], chunkSize) == chunks;
    ChunksShape(text, chunkSize);
  }

  /** The chunks from index `i` on: the slice up to `i + size` or the end, then the chunks after it. */
  lemma ChunksAt(text: string, i: nat, size: nat)
    requires size > 0 && i < |text|
    ensures i + size < |text| ==> Chunks(text[i..], size) == [text[i..i + size]] + Chunks(text[i + size..], size)
    ensures i + size >= |text| ==> Chunks(text[i..], size) == [text[i..]] + Chunks(text[|text|..], size)
  {
    assert Chunks(text[|text|..], size) == [];
    if i + size < |text| {
      assert text[i..][..size] == text[i..i + size];
      assert text[i..][size..] == text[i + size..];
    }
  }
}
