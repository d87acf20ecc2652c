/**
  The aggregator: a company's founder list grows by appending each newly
  found name that is not in it yet (exact string match), across all chunks
  of all pages.
 */
module FounderList {
  import opened Basics

  /** No element occurs twice. */
  predicate NoDup(s: seq<string>)
  {
    forall i, j :: 0 <= i < j < |s| ==> s[i] != s[j]
  }

  /**
    `acc` after visiting `xs` in order and appending each element that the
    list does not contain yet.
   */
  function MergeNew(acc: seq<string>, xs: seq<string>): (r: seq<string>)
    ensures |acc| <= |r| && r[..|acc|] == acc
    ensures forall x :: x in r <==> x in acc || x in xs
    ensures NoDup(acc) ==> NoDup(r)
    decreases |xs|
  {
    if xs == [] then acc
    else
      var m := MergeNew(acc, xs[..|xs| - 1]);
      var x := xs[|xs| - 1];
      assert xs == xs[..|xs| - 1] + [x];
      if x in m then m else m + [x]
  }

  /**
    The elements of `xs` found neither in `acc` nor earlier in `xs`, in the
    order of `xs`: a definition by position, independent of any list being
    built.
   */
  function FirstOccurrences(acc: seq<string>, xs: seq<string>): seq<string>
    decreases |xs|
  {
    if xs == [] then []
    else
      var earlier := xs[..|xs| - 1];
      var x := xs[|xs| - 1];
      FirstOccurrences(acc, earlier) + (if x in acc || x in earlier then [] else [x])
  }

  /** One more name is appended exactly when the list does not hold it yet. */
  lemma MergeNewSnoc(acc: seq<string>, xs: seq<string>, x: string)
    ensures MergeNew(acc, xs + [x]) == if x in MergeNew(acc, xs) then MergeNew(acc, xs) else MergeNew(acc, xs) + [x]
  {
    assert (xs + [x])[..|xs|] == xs;
  }

  /** Merging keeps the old list in front and adds the first occurrences of new names in discovery order. */
  lemma {:induction false} MergeNewIsFirstOccurrences(acc: seq<string>, xs: seq<string>)
    ensures MergeNew(acc, xs) == acc + FirstOccurrences(acc, xs)
    decreases |xs|
  {
    if xs != [] {
      MergeNewIsFirstOccurrences(acc, xs[..|xs| - 1]);
    }
  }

  /** Merging two batches one after the other is merging them as one batch. */
  lemma {:induction false} MergeNewBatches(acc: seq<string>, xs: seq<string>, ys: seq<string>)
    ensures MergeNew(MergeNew(acc, xs), ys) == MergeNew(acc, xs + ys)
    decreases |ys|
  {
    if ys == [] {
      assert xs + ys == xs;
    } else {
      assert (xs + ys)[..|xs + ys| - 1] == xs + ys[..|ys| - 1];
      MergeNewBatches(acc, xs, ys[..|ys| - 1]);
    }
  }

  /** A name found again, in the same batch or a later one, is not added twice. */
  lemma {:induction false} MergeNewRepeated(acc: seq<string>, xs: seq<string>, x: string)
    requires x in xs
    ensures MergeNew(MergeNew(acc, xs), [x]) == MergeNew(acc, xs)
  {
    assert [x][..0] == [];
  }

  /**
    The dedup-append loop run on one chunk's names: existing entries keep
    their places, every name of the chunk ends up in the list, and a list
    without duplicates stays without.
   */
  method MergeFounders(founders: seq<string>, found: seq<string>) returns (merged: seq<string>)
    ensures merged == MergeNew(founders, found)
    ensures |founders| <= |merged| && merged[..|founders|] == founders
    ensures forall x :: x in merged <==> x in founders || x in found
    ensures NoDup(founders) ==> NoDup(merged)
  {
    merged := founders;
    for i := 0 to |found|
      invariant merged == MergeNew(founders, found[..i])
    {
      assert found[..i + 1][..i] == found[..i];
      if found[i] !in merged {
        merged := merged + [found[i]];
      }
    }
    assert found[..|found|] == found;
  }
}
