/**
  The extraction client's reply handling: the model's message content becomes
  the list of founder names found in one chunk.
 */
module ReplyParser {
  import opened JavaText
  import opened FounderList

  /** The literal the model is told to answer with when no founder is mentioned. */
  const Sentinel := "NONE"

  /** A trimmed piece worth keeping: not empty and not the sentinel in any letter case. */
  predicate IsFounderName(piece: string)
  {
    piece != [] && !EqualsIgnoreCase(piece, Sentinel)
  }

  /** Every string of `parts`, trimmed, in order. */
  function TrimAll(parts: seq<string>): (r: seq<string>)
    ensures |r| == |parts|
    ensures forall k :: 0 <= k < |parts| ==> r[k] == Trim(parts[k])
  {
    seq(|parts|, k requires 0 <= k < |parts| => Trim(parts[k]))
  }

  /**
    The comma-separated pieces of the trimmed reply, each trimmed: no piece
    holds a comma or has blank margins, and a reply without a comma is one
    piece, the trimmed reply itself.
   */
  function ReplyPieces(content: string): (pieces: seq<string>)
    ensures forall k :: 0 <= k < |pieces| ==> IsTrimmed(pieces[k]) && ',' !in pieces[k]
    ensures ',' !in Trim(content) ==> pieces == [Trim(content)]
  {
    var parts := JavaSplit(Trim(content), ',');
    TrimAllLacks(parts, ',');
    TrimTwice(content);
    TrimAll(parts)
  }

  /** Trimming every string keeps a character out of all of them. */
  lemma TrimAllLacks(parts: seq<string>, c: char)
    requires forall k :: 0 <= k < |parts| ==> c !in parts[k]
    ensures forall k :: 0 <= k < |parts| ==> c !in TrimAll(parts)[k]
  {
    forall k | 0 <= k < |parts| ensures c !in TrimAll(parts)[k] {
      TrimLacks(parts[k], c);
    }
  }

  /** The names one reply yields: none unless the status is 200, otherwise each passing piece at its first occurrence. */
  function FounderNames(status: int, content: string): (names: seq<string>)
    ensures NoDup(names)
    ensures forall n :: n in names ==> IsFounderName(n) && IsTrimmed(n) && n in ReplyPieces(content)
    ensures status == 200 ==> forall n :: n in ReplyPieces(content) && IsFounderName(n) ==> n in names
    ensures status != 200 ==> names == []
  {
    if status == 200 then
      ParsedNames(content);
      MergeNew([], Candidates(ReplyPieces(content)))
    else []
  }

  /**
    The sentinel test of the filter: a piece equals `NONE` ignoring case
    exactly when it is four letters spelling `none` in any mix of cases.
   */
  lemma SentinelSpellings(piece: string)
    ensures EqualsIgnoreCase(piece, Sentinel) <==>
              |piece| == 4 && piece[0] in "Nn" && piece[1] in "Oo" && piece[2] in "Nn" && piece[3] in "Ee"
  {
  }

  /** The pieces that pass the filter, in order, repeats included. */
  function Candidates(pieces: seq<string>): (r: seq<string>)
    ensures forall x :: x in r <==> x in pieces && IsFounderName(x)
    decreases |pieces|
  {
    if pieces == [] then []
    else
      var earlier := pieces[..|pieces| - 1];
      var p := pieces[|pieces| - 1];
      assert pieces == earlier + [p];
      Candidates(earlier) + (if IsFounderName(p) then [p] else [])
  }

  /**
    The reply-parsing part of `getFounderNames`: nothing unless the response
    status is 200; otherwise the trimmed comma-separated pieces of the trimmed
    content that are neither empty nor the sentinel in any case, each kept at
    its first occurrence. A reply that is exactly the sentinel yields nothing.
   */
  method GetFounderNames(status: int, content: string) returns (names: seq<string>)
    ensures names == FounderNames(status, content)
    ensures status == 200 ==> names == MergeNew([], Candidates(ReplyPieces(content)))
    ensures status != 200 ==> names == []
    ensures NoDup(names)
    ensures forall n :: n in names ==> IsFounderName(n) && n in ReplyPieces(content)
    ensures status == 200 ==> forall n :: n in ReplyPieces(content) && IsFounderName(n) ==> n in names
    ensures Trim(content) == Sentinel ==> names == []
  {
    names := [];
    if status != 200 {
      return;
    }
    var reply := Trim(content);
    if reply == Sentinel {
      SentinelReply(content);
      return;
    }
    var parts := JavaSplit(reply, ',');
    for i := 0 to |parts|
      invariant names == MergeNew([], Candidates(TrimAll(parts[..i])))
    {
      var name := Trim(parts[i]);
      FounderStep(parts, i, names);
      if name != [] && !EqualsIgnoreCase(name, Sentinel) && name !in names {
        names := names + [name];
      }
    }
    assert parts[..|parts|] == parts;
    ParsedNames(content);
  }

  /** One more reply piece: the merged candidates grow as the loop body grows them. */
  lemma FounderStep(parts: seq<string>, i: nat, names: seq<string>)
    requires i < |parts| && names == MergeNew([], Candidates(TrimAll(parts[..i])))
    ensures var name := Trim(parts[i]);
            MergeNew([], Candidates(TrimAll(parts[..i + 1])))
              == if IsFounderName(name) && name !in names then names + [name] else names
  {
    var name := Trim(parts[i]);
    var before := Candidates(TrimAll(parts[..i]));
    TrimAllSnoc(parts, i);
    CandidatesSnoc(TrimAll(parts[..i]), name);
    if IsFounderName(name) {
      MergeNewSnoc([], before, name);
    } else {
      assert before + [] == before;
    }
  }

  lemma TrimAllSnoc(parts: seq<string>, i: nat)
    requires i < |parts|
    ensures TrimAll(parts[..i + 1]) == TrimAll(parts[..i]) + [Trim(parts[i])]
  {
    var longer := TrimAll(parts[..i + 1]);
    var shorter := TrimAll(parts[..i]) + [Trim(parts[i])];
    forall k | 0 <= k < i + 1
      ensures longer[k] == shorter[k]
    {
      if k < i {
        assert parts[..i + 1][k] == parts[..i][k];
      }
    }
  }

  /** What the merged candidates of a reply are, whatever the reply. */
  lemma ParsedNames(content: string)
    ensures NoDup(MergeNew([], Candidates(ReplyPieces(content))))
    ensures forall n :: n in MergeNew([], Candidates(ReplyPieces(content)))
                    <==> n in ReplyPieces(content) && IsFounderName(n)
  {
  }

  lemma CandidatesSnoc(pieces: seq<string>, p: string)
    ensures Candidates(pieces + [p]) == Candidates(pieces) + (if IsFounderName(p) then [p] else [])
  {
    assert (pieces + [p])[..|pieces|] == pieces;
  }

  /** The sentinel reply has one piece, the sentinel, which the filter drops. */
  lemma SentinelReply(content: string)
    requires Trim(content) == Sentinel
    ensures Candidates(ReplyPieces(content)) == []
  {
    SentinelSplit();
    SentinelTrimmed();
    var pieces := TrimAll([Sentinel]);
    assert pieces == [Sentinel] by {
      assert [Sentinel][..0] == [];
    }
    assert EqualsIgnoreCase(Sentinel, Sentinel);
    assert Candidates([Sentinel]) == Candidates([]) by {
      assert [Sentinel][..0] == [];
    }
  }

  lemma SentinelSplit()
    ensures JavaSplit(Sentinel, ',') == [Sentinel]
  {
    assert ',' !in Sentinel;
  }

  lemma SentinelTrimmed()
    ensures Trim(Sentinel) == Sentinel
  {
    TrimPadded([], Sentinel, []);
    assert [] + Sentinel + [] == Sentinel;
  }
}
