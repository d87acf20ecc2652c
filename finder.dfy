/**
  The per-company search: the leading search results are fetched, their body
  text is cut into chunks, each chunk goes to the extraction model, and the
  names it returns are merged into the company's founder list.
 */
module Finder {
  import opened Basics
  import opened JavaText
  import opened FounderList
  import PageBody
  import Chunker
  import ReplyParser

  /** How many search results are visited at most. */
  const MaxResults := 5

  /** The search results that are visited: the first `MaxResults` links, or all when there are fewer. */
  function Leading(links: seq<string>): (visited: seq<string>)
    ensures |visited| <= |links| && |visited| <= MaxResults && visited == links[..|visited|]
    ensures |links| >= MaxResults || visited == links
    ensures |links| >= MaxResults ==> |visited| == MaxResults
  {
    if MaxResults < |links| then links[..MaxResults] else links
  }

  /** The names the model returns for each chunk, chunk by chunk. */
  function ChunkNames(chunks: seq<string>, ask: string -> (int, string)): (perChunk: seq<seq<string>>)
    ensures |perChunk| == |chunks|
    ensures forall j :: 0 <= j < |chunks| ==>
              perChunk[j] == ReplyParser.FounderNames(ask(chunks[j]).0, ask(chunks[j]).1)
  {
    seq(|chunks|, j requires 0 <= j < |chunks| => ReplyParser.FounderNames(ask(chunks[j]).0, ask(chunks[j]).1))
  }

  /**
    The names one search result contributes, chunk by chunk: nothing for an
    empty link or a page with no kept text, otherwise the names of each
    chunk of the kept text.
   */
  function LinkNames(url: string, fetch: string -> (int, string), ask: string -> (int, string)): seq<seq<string>>
  {
    if url == [] then []
    else
      var body := PageBody.FetchedText(fetch(url).0, fetch(url).1);
      if body == [] then [] else ChunkNames(Chunker.Chunks(body, Chunker.ModelChunkSize), ask)
  }

  /** The per-chunk names of the given links, in link order and then chunk order. */
  function VisitedNames(links: seq<string>, fetch: string -> (int, string), ask: string -> (int, string)): seq<seq<string>>
    decreases |links|
  {
    if links == [] then []
    else VisitedNames(links[..|links| - 1], fetch, ask) + LinkNames(links[|links| - 1], fetch, ask)
  }

  /**
    The loop of `searchForFounders` over the search results, once the links
    are known. `fetch` stands for the page download (status and page text)
    and `ask` for the model call on one chunk (status and reply content).
    The list is the merge, from empty, of the names of every chunk of every
    page among the first five links, in that order; so every such name is in
    it, none twice, and each is a trimmed name that is neither empty nor the
    sentinel.
   */
  method SearchForFounders(links: seq<string>, fetch: string -> (int, string), ask: string -> (int, string))
    returns (founders: seq<string>)
    ensures founders == MergeNew([], Flatten(VisitedNames(Leading(links), fetch, ask)))
    ensures forall names, n :: (names in VisitedNames(Leading(links), fetch, ask) && n in names) ==> n in founders
    ensures NoDup(founders)
    ensures forall n :: n in founders ==> ReplyParser.IsFounderName(n) && IsTrimmed(n)
    ensures (forall k :: 0 <= k < |links| && k < MaxResults ==> links[k] == []) ==> founders == []
  {
    founders := [];
    var urlsToProcess := if MaxResults < |links| then MaxResults else |links|;
    for i := 0 to urlsToProcess
      invariant founders == MergeNew([], Flatten(VisitedNames(links[..i], fetch, ask)))
    {
      var url := links[i];
      ghost var visited := VisitedNames(links[..i], fetch, ask);
      VisitedStep(links, i, fetch, ask);
      if url != [] {
        var (status, html) := fetch(url);
        var bodyContent := PageBody.FetchBodyContent(status, html);
        if bodyContent != [] {
          var chunks := Chunker.SplitIntoChunks(bodyContent, Chunker.ModelChunkSize);
          assert LinkNames(url, fetch, ask) == ChunkNames(chunks, ask);
          founders := ProcessChunks(founders, chunks, ask);
          FlattenAppend(visited, ChunkNames(chunks, ask));
          MergeNewBatches([], Flatten(visited), Flatten(ChunkNames(chunks, ask)));
        } else {
          assert LinkNames(url, fetch, ask) == [];
          assert visited + [] == visited;
        }
      } else {
        assert visited + [] == visited;
      }
    }
    assert links[..urlsToProcess] == Leading(links);
    SearchOutcome(links, fetch, ask);
  }

  /**
    The loop over one page's chunks: each chunk goes to the model, and the
    names of its reply are merged into the list, chunk after chunk.
   */
  method ProcessChunks(founders: seq<string>, chunks: seq<string>, ask: string -> (int, string))
    returns (merged: seq<string>)
    ensures merged == MergeNew(founders, Flatten(ChunkNames(chunks, ask)))
  {
    ghost var perChunk := ChunkNames(chunks, ask);
    merged := founders;
    for j := 0 to |chunks|
      invariant merged == MergeNew(founders, Flatten(perChunk[..j]))
    {
      var (replyStatus, content) := ask(chunks[j]);
      var foundInChunk := ReplyParser.GetFounderNames(replyStatus, content);
      assert foundInChunk == perChunk[j];
      MergeStep(founders, perChunk, j);
      merged := MergeFounders(merged, foundInChunk);
    }
    assert perChunk[..|chunks|] == perChunk;
  }

  /**
    What the search gives for the leading links: the merged chunk names are
    each there once, all pass the filter, and with no non-empty link among
    the leading ones the list is empty.
   */
  lemma SearchOutcome(links: seq<string>, fetch: string -> (int, string), ask: string -> (int, string))
    ensures var founders := MergeNew([], Flatten(VisitedNames(Leading(links), fetch, ask)));
            NoDup(founders)
            && (forall n :: n in founders ==> ReplyParser.IsFounderName(n) && IsTrimmed(n))
            && (forall names, n :: (names in VisitedNames(Leading(links), fetch, ask) && n in names) ==> n in founders)
            && ((forall k :: 0 <= k < |links| && k < MaxResults ==> links[k] == []) ==> founders == [])
  {
    MergedVisited(Leading(links), fetch, ask);
    if forall k :: 0 <= k < |links| && k < MaxResults ==> links[k] == [] {
      NoLinksNoNames(Leading(links), fetch, ask);
    }
  }

  /**
    The merged names of the visited chunks: each name of each chunk once, and
    only trimmed names that are neither empty nor the sentinel.
   */
  lemma MergedVisited(links: seq<string>, fetch: string -> (int, string), ask: string -> (int, string))
    ensures var founders := MergeNew([], Flatten(VisitedNames(links, fetch, ask)));
            NoDup(founders)
            && (forall n :: n in founders ==> ReplyParser.IsFounderName(n) && IsTrimmed(n))
            && forall names, n :: (names in VisitedNames(links, fetch, ask) && n in names) ==> n in founders
  {
    VisitedNamesValid(links, fetch, ask);
    MergedNames(VisitedNames(links, fetch, ask));
  }

  /** The next link adds its own chunk lists after those of the earlier links. */
  lemma VisitedStep(links: seq<string>, i: nat, fetch: string -> (int, string), ask: string -> (int, string))
    requires i < |links|
    ensures VisitedNames(links[..i + 1], fetch, ask) == VisitedNames(links[..i], fetch, ask) + LinkNames(links[i], fetch, ask)
  {
    assert links[..i + 1][..i] == links[..i];
  }

  /** Every name of every visited chunk is a trimmed name that is neither empty nor the sentinel. */
  lemma {:induction false} VisitedNamesValid(links: seq<string>, fetch: string -> (int, string), ask: string -> (int, string))
    ensures forall names, n :: (names in VisitedNames(links, fetch, ask) && n in names) ==>
              ReplyParser.IsFounderName(n) && IsTrimmed(n)
    decreases |links|
  {
    if links != [] {
      VisitedNamesValid(links[..|links| - 1], fetch, ask);
    }
  }

  /** With no usable link, no chunk is visited. */
  lemma {:induction false} NoLinksNoNames(links: seq<string>, fetch: string -> (int, string), ask: string -> (int, string))
    requires forall k :: 0 <= k < |links| ==> links[k] == []
    ensures VisitedNames(links, fetch, ask) == []
    decreases |links|
  {
    if links != [] {
      NoLinksNoNames(links[..|links| - 1], fetch, ask);
    }
  }

  /**
    The merge from empty of a sequence of chunk lists holds each of their
    names once, and nothing else.
   */
  lemma MergedNames(perChunk: seq<seq<string>>)
    ensures NoDup(MergeNew([], Flatten(perChunk)))
    ensures forall n :: n in MergeNew([], Flatten(perChunk)) <==> exists j :: 0 <= j < |perChunk| && n in perChunk[j]
    ensures forall names, n :: (names in perChunk && n in names) ==> n in MergeNew([], Flatten(perChunk))
  {
    forall n ensures n in MergeNew([], Flatten(perChunk)) <==> exists j :: 0 <= j < |perChunk| && n in perChunk[j] {
      FlattenMembership(perChunk, n);
    }
  }

  /** Merging one more chunk's names into the list merges the longer prefix of the chunk lists. */
  lemma MergeStep(founders: seq<string>, perChunk: seq<seq<string>>, j: nat)
    requires j < |perChunk|
    ensures MergeNew(MergeNew(founders, Flatten(perChunk[..j])), perChunk[j])
         == MergeNew(founders, Flatten(perChunk[..j + 1]))
  {
    assert perChunk[..j + 1] == perChunk[..j] + [perChunk[j]];
    FlattenSnoc(perChunk[..j], perChunk[j]);
    MergeNewBatches(founders, Flatten(perChunk[..j]), perChunk[j]);
  }
}
