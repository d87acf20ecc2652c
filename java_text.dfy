/**
  The part of `java.lang.String` that the founder finder relies on, written out
  so that the model has the same edge cases: `indexOf`, `trim`, `split` with a
  one-character pattern, `replace` of one character by nothing, and
  `equalsIgnoreCase`.
 */
module JavaText {

  /** `p` occurs in `s` starting at index `j`. */
  predicate OccursAt(s: string, p: string, j: int)
  {
    0 <= j && j + |p| <= |s| && s[j..j + |p|] == p
  }

  /** A character of `p` at offset `m` is the character of `s` at `j + m` wherever `p` occurs at `j`. */
  lemma OccursAtChar(s: string, p: string, j: int, m: int)
    requires OccursAt(s, p, j) && 0 <= m < |p|
    ensures s[j + m] == p[m]
  {
    assert s[j..j + |p|][m] == s[j + m];
  }

  /**
    `s.indexOf(p, from)` for a non-empty `p`: the least index at or after
    `from` where `p` occurs, or -1 when there is none.
   */
  function IndexOfFrom(s: string, p: string, from: nat): (r: int)
    requires p != []
    ensures r == -1 || (from <= r && OccursAt(s, p, r))
    ensures forall j :: from <= j && (r == -1 || j < r) ==> !OccursAt(s, p, j)
    decreases |s| - from
  {
    if from + |p| > |s| then -1
    else if s[from..from + |p|] == p then from
    else IndexOfFrom(s, p, from + 1)
  }

  /** `s.indexOf(p)`. */
  function IndexOf(s: string, p: string): (r: int)
    requires p != []
  {
    IndexOfFrom(s, p, 0)
  }

  /** An occurrence at `k` with none between `from` and `k` is the one `indexOf` finds. */
  lemma FirstOccurrence(s: string, p: string, from: nat, k: nat)
    requires p != [] && from <= k && OccursAt(s, p, k)
    requires forall j :: from <= j < k ==> !OccursAt(s, p, j)
    ensures IndexOfFrom(s, p, from) == k
  {
  }

  /** An occurrence in a string is an occurrence in any extension of it. */
  lemma OccursAtPrefix(a: string, b: string, p: string, j: int)
    requires OccursAt(a, p, j)
    ensures OccursAt(a + b, p, j)
  {
    assert (a + b)[j..j + |p|] == a[j..j + |p|];
  }

  /** One mismatching character rules out an occurrence. */
  lemma NotOccursAt(s: string, p: string, j: int, m: int)
    requires 0 <= m < |p| && 0 <= j + m < |s| && s[j + m] != p[m]
    ensures !OccursAt(s, p, j)
  {
    if 0 <= j && j + |p| <= |s| {
      assert s[j..j + |p|][m] == s[j + m];
    }
  }

  /** `indexOf` finds nothing in a string without the first character of `p`. */
  lemma AbsentFirstChar(s: string, p: string, from: nat)
    requires p != [] && p[0] !in s
    ensures IndexOfFrom(s, p, from) == -1
  {
    var r := IndexOfFrom(s, p, from);
    if r != -1 {
      OccursAtChar(s, p, r, 0);
    }
  }

  /** `trim()` removes every leading and trailing character at or below U+0020. */
  predicate IsTrimChar(c: char)
  {
    c <= ' '
  }

  /** A string that `trim()` leaves alone. */
  predicate IsTrimmed(s: string)
  {
    s == [] || (!IsTrimChar(s[0]) && !IsTrimChar(s[|s| - 1]))
  }

  /** A string made only of characters that `trim()` removes. */
  predicate IsBlank(s: string)
  {
    forall k :: 0 <= k < |s| ==> IsTrimChar(s[k])
  }

  /** The suffix of `s` left after removing its leading trim characters. */
  function TrimStart(s: string): (r: string)
    ensures |r| <= |s|
    ensures r == [] || !IsTrimChar(r[0])
  {
    if s != [] && IsTrimChar(s[0]) then TrimStart(s[1..]) else s
  }

  /** The prefix of `s` left after removing its trailing trim characters. */
  function TrimEnd(s: string): (r: string)
    ensures |r| <= |s|
    ensures r == [] || (!IsTrimChar(r[|r| - 1]) && r[0] == s[0])
  {
    if s != [] && IsTrimChar(s[|s| - 1]) then
      var r := TrimEnd(s[..|s| - 1]);
      assert r != [] ==> r[0] == s[..|s| - 1][0];
      r
    else s
  }

  /** `s.trim()`: `s` without its leading and trailing trim characters. */
  function Trim(s: string): (r: string)
    ensures IsTrimmed(r) && |r| <= |s|
  {
    TrimEnd(TrimStart(s))
  }

  /** What `TrimStart` drops is a blank prefix. */
  lemma {:induction false} TrimStartIsSuffix(s: string)
    ensures s[|s| - |TrimStart(s)|..] == TrimStart(s) && IsBlank(s[..|s| - |TrimStart(s)|])
    decreases |s|
  {
    if s != [] && IsTrimChar(s[0]) {
      var r := TrimStart(s[1..]);
      TrimStartIsSuffix(s[1..]);
      assert s[1..][|s[1..]| - |r|..] == s[|s| - |r|..];
      assert s[..|s| - |r|] == [s[0]] + s[1..][..|s[1..]| - |r|];
    }
  }

  /** What `TrimEnd` drops is a blank suffix. */
  lemma {:induction false} TrimEndIsPrefix(s: string)
    ensures s[..|TrimEnd(s)|] == TrimEnd(s) && IsBlank(s[|TrimEnd(s)|..])
    decreases |s|
  {
    if s != [] && IsTrimChar(s[|s| - 1]) {
      var r := TrimEnd(s[..|s| - 1]);
      TrimEndIsPrefix(s[..|s| - 1]);
      assert s[..|s| - 1][..|r|] == s[..|r|];
      assert s[|r|..] == s[..|s| - 1][|r|..] + [s[|s| - 1]];
    }
  }

  /** Trimming adds no character. */
  lemma TrimLacks(s: string, c: char)
    requires c !in s
    ensures c !in Trim(s)
  {
    var t := TrimStart(s);
    TrimStartIsSuffix(s);
    TrimEndIsPrefix(t);
    assert forall k :: 0 <= k < |t| ==> t[k] == s[|s| - |t| + k];
  }

  /** Trimming twice is trimming once. */
  lemma TrimTwice(s: string)
    ensures Trim(Trim(s)) == Trim(s)
  {
    TrimPadded([], Trim(s), []);
    assert [] + Trim(s) + [] == Trim(s);
  }

  /** What `trim()` keeps is the middle of `s` from index `i` on, and what it removes on both sides is blank. */
  lemma TrimIsMiddle(s: string) returns (i: nat)
    ensures i + |Trim(s)| <= |s| && Trim(s) == s[i..i + |Trim(s)|]
    ensures IsBlank(s[..i]) && IsBlank(s[i + |Trim(s)|..])
  {
    var t := TrimStart(s);
    var r := TrimEnd(t);
    i := |s| - |t|;
    TrimStartIsSuffix(s);
    TrimEndIsPrefix(t);
    assert t == s[i..];
    assert r == t[..|r|] == s[i..i + |r|];
    BlankSuffix(s, t, i, |r|);
  }

  lemma BlankSuffix(s: string, t: string, i: nat, n: nat)
    requires i <= |s| && t == s[i..] && n <= |t| && IsBlank(t[n..])
    ensures IsBlank(s[i + n..])
  {
    assert s[i + n..] == t[n..];
  }

  /** Blank margins around a trimmed string are exactly what `trim()` removes. */
  lemma {:induction false} TrimPadded(w1: string, n: string, w2: string)
    requires IsBlank(w1) && IsBlank(w2) && IsTrimmed(n)
    ensures Trim(w1 + n + w2) == n
  {
    if n == [] {
      assert w1 + n + w2 == w1 + w2;
      BlankAppend(w1, w2);
      TrimStartBlank(w1 + w2);
    } else {
      assert w1 + n + w2 == w1 + (n + w2);
      TrimStartPadded(w1, n + w2);
      TrimEndPadded(n, w2);
    }
  }

  lemma {:induction false} TrimStartBlank(w: string)
    requires IsBlank(w)
    ensures TrimStart(w) == []
    decreases |w|
  {
    if w != [] {
      TrimStartBlank(w[1..]);
    }
  }

  lemma {:induction false} TrimStartPadded(w: string, t: string)
    requires IsBlank(w) && t != [] && !IsTrimChar(t[0])
    ensures TrimStart(w + t) == t
    decreases |w|
  {
    if w == [] {
      assert w + t == t;
    } else {
      assert (w + t)[1..] == w[1..] + t;
      TrimStartPadded(w[1..], t);
    }
  }

  lemma {:induction false} TrimEndPadded(n: string, w: string)
    requires IsBlank(w) && n != [] && !IsTrimChar(n[|n| - 1])
    ensures TrimEnd(n + w) == n
    decreases |w|
  {
    if w == [] {
      assert n + w == n;
    } else {
      assert (n + w)[..|n + w| - 1] == n + w[..|w| - 1];
      TrimEndPadded(n, w[..|w| - 1]);
    }
  }

  /** All pieces of `s` between occurrences of `sep`, empty ones included. */
  function SplitAll(s: string, sep: char): (parts: seq<string>)
    ensures |parts| >= 1
    ensures forall k :: 0 <= k < |parts| ==> sep !in parts[k]
    ensures Join(parts, sep) == s
    decreases |s|
  {
    if s == [] then [[]]
    else
      var rest := SplitAll(s[1..], sep);
      if s[0] == sep then
        assert [s[0]] + s[1..] == s;
        [[]] + rest
      else
        var parts := [[s[0]] + rest[0]] + rest[1..];
        assert parts[1..] == rest[1..];
        assert Join(parts, sep) == [s[0]] + Join(rest, sep) by {
          if |rest| > 1 {
            assert rest == [rest[0]] + rest[1..];
          }
        }
        assert [s[0]] + s[1..] == s;
        parts
  }

  /** The pieces joined back together with `sep` between them. */
  function Join(parts: seq<string>, sep: char): string
    requires |parts| >= 1
  {
    if |parts| == 1 then parts[0] else parts[0] + [sep] + Join(parts[1..], sep)
  }

  /** A character that `trim()` keeps is absent from a blank string. */
  lemma BlankLacks(w: string, c: char)
    requires IsBlank(w) && !IsTrimChar(c)
    ensures c !in w
  {
  }

  lemma BlankAppend(w1: string, w2: string)
    requires IsBlank(w1) && IsBlank(w2)
    ensures IsBlank(w1 + w2)
  {
    forall k | 0 <= k < |w1 + w2| ensures IsTrimChar((w1 + w2)[k]) {
      if k >= |w1| { assert (w1 + w2)[k] == w2[k - |w1|]; }
    }
  }

  /** `count` empty strings. */
  function Empties(count: nat): (r: seq<string>)
    ensures |r| == count && forall k :: 0 <= k < count ==> r[k] == []
  {
    seq(count, _ => [])
  }

  /** `count` copies of the character `c`. */
  function Repeat(c: char, count: nat): (r: string)
    ensures |r| == count && forall k :: 0 <= k < count ==> r[k] == c
  {
    seq(count, _ => c)
  }

  lemma {:induction false} SplitAllNoSep(s: string, sep: char)
    requires sep !in s
    ensures SplitAll(s, sep) == [s]
    decreases |s|
  {
    if s != [] {
      SplitAllNoSep(s[1..], sep);
      assert [s[0]] + s[1..] == s;
    }
  }

  /** A first piece without `sep` is split off on its own. */
  lemma {:induction false} SplitAllFirst(a: string, sep: char, rest: string)
    requires sep !in a
    ensures SplitAll(a + [sep] + rest, sep) == [a] + SplitAll(rest, sep)
    decreases |a|
  {
    var s := a + [sep] + rest;
    if a == [] {
      assert s[1..] == rest;
    } else {
      assert s[1..] == a[1..] + [sep] + rest;
      SplitAllFirst(a[1..], sep, rest);
      assert [a[0]] + a[1..] == a;
    }
  }

  lemma {:induction false} SplitAllRepeat(sep: char, count: nat)
    ensures SplitAll(Repeat(sep, count), sep) == Empties(count + 1)
    decreases count
  {
    if count == 0 {
      assert Repeat(sep, 0) == [];
    } else {
      assert Repeat(sep, count) == [] + [sep] + Repeat(sep, count - 1);
      SplitAllFirst([], sep, Repeat(sep, count - 1));
      SplitAllRepeat(sep, count - 1);
    }
  }

  /** Pieces that are all empty join to a string made only of separators. */
  lemma {:induction false} JoinEmpties(parts: seq<string>, sep: char)
    requires |parts| >= 1 && forall k :: 0 <= k < |parts| ==> parts[k] == []
    ensures forall i :: 0 <= i < |Join(parts, sep)| ==> Join(parts, sep)[i] == sep
    decreases |parts|
  {
    if |parts| > 1 {
      JoinEmpties(parts[1..], sep);
    }
  }

  /** A string with a character other than `sep` has a non-empty piece. */
  lemma SplitAllNonEmptyPiece(s: string, sep: char, m: nat) returns (q: nat)
    requires m < |s| && s[m] != sep
    ensures q < |SplitAll(s, sep)| && SplitAll(s, sep)[q] != []
  {
    var parts := SplitAll(s, sep);
    if forall k :: 0 <= k < |parts| ==> parts[k] == [] {
      JoinEmpties(parts, sep);
      assert false;
    }
    q :| 0 <= q < |parts| && parts[q] != [];
  }

  /**
    The list without its trailing empty strings: what `split` does to its
    pieces when called without a limit.
   */
  function DropTrailingEmpty(parts: seq<string>): (r: seq<string>)
    ensures |r| <= |parts| && r == parts[..|r|]
    ensures forall k :: |r| <= k < |parts| ==> parts[k] == []
    ensures r == [] || r[|r| - 1] != []
  {
    if parts != [] && parts[|parts| - 1] == [] then DropTrailingEmpty(parts[..|parts| - 1]) else parts
  }

  /**
    `s.split(sep)` for a one-character pattern: the string itself when `sep`
    does not occur, otherwise its pieces without the trailing empty ones.
   */
  function JavaSplit(s: string, sep: char): (pieces: seq<string>)
    ensures sep !in s ==> pieces == [s]
    ensures forall k :: 0 <= k < |pieces| ==> sep !in pieces[k]
    ensures sep in s ==> |pieces| <= |SplitAll(s, sep)| && pieces == SplitAll(s, sep)[..|pieces|]
    ensures sep in s ==> forall k :: |pieces| <= k < |SplitAll(s, sep)| ==> SplitAll(s, sep)[k] == []
    ensures sep in s ==> pieces == [] || pieces[|pieces| - 1] != []
  {
    if sep !in s then [s] else DropTrailingEmpty(SplitAll(s, sep))
  }

  /** `s.replace(c, "")`: `s` without any occurrence of `c`. */
  function RemoveChar(s: string, c: char): (r: string)
    ensures c !in r
    ensures |r| <= |s|
  {
    if s == [] then []
    else (if s[0] == c then [] else [s[0]]) + RemoveChar(s[1..], c)
  }

  lemma {:induction false} RemoveCharAppend(a: string, b: string, c: char)
    ensures RemoveChar(a + b, c) == RemoveChar(a, c) + RemoveChar(b, c)
    decreases |a|
  {
    if a != [] {
      assert (a + b)[1..] == a[1..] + b;
      RemoveCharAppend(a[1..], b, c);
    } else {
      assert a + b == b;
    }
  }

  lemma {:induction false} RemoveCharAbsent(s: string, c: char)
    requires c !in s
    ensures RemoveChar(s, c) == s
    decreases |s|
  {
    if s != [] {
      RemoveCharAbsent(s[1..], c);
      assert [s[0]] + s[1..] == s;
    }
  }

  /** `Character.toLowerCase` restricted to ASCII letters. */
  function ToLowerAscii(c: char): char
  {
    if 'A' <= c <= 'Z' then (c as int + 32) as char else c
  }

  /** `a.equalsIgnoreCase(b)`: same length, and equal characters up to letter case. */
  predicate EqualsIgnoreCase(a: string, b: string)
    ensures a == b ==> EqualsIgnoreCase(a, b)
    ensures EqualsIgnoreCase(a, b) ==> |a| == |b|
  {
    |a| == |b| && forall k :: 0 <= k < |a| ==> ToLowerAscii(a[k]) == ToLowerAscii(b[k])
  }
}
