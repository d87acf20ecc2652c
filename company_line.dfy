/**
  The input reader: one line of the companies file, `Name (URL)`, becomes a
  company record, or the parse fails with the line's format error.
 */
module CompanyLine {
  import opened Basics
  import opened JavaText

  /** A company read from one input line. */
  datatype CompanyData = CompanyData(name: string, url: string)

  /** The exception thrown for a line that does not split into exactly two pieces. */
  datatype LineError = InvalidLineFormat(line: string)

  /**
    Splits `line` on `(` the way `String.split` does; exactly two pieces must
    remain. The name is the first piece trimmed, the URL the second with every
    `)` removed, trimmed.
   */
  function ParseCompanyData(line: string): (r: Result<CompanyData, LineError>)
    ensures r.Err? ==> r.error == InvalidLineFormat(line)
    ensures r.Ok? ==> '(' in line && IsTrimmed(r.value.name) && IsTrimmed(r.value.url) && ')' !in r.value.url
  {
    var parts := JavaSplit(line, '(');
    if |parts| != 2 then Err(InvalidLineFormat(line))
    else
      TrimLacks(RemoveChar(parts[1], ')'), ')');
      Ok(CompanyData(Trim(parts[0]), Trim(RemoveChar(parts[1], ')'))))
  }

  /** The splitting of a line shaped `a(b` followed by any number of `(`. */
  lemma {:induction false} SplitShape(a: string, b: string, count: nat)
    requires '(' !in a && '(' !in b
    ensures SplitAll(a + "(" + b + Repeat('(', count), '(') == [a, b] + Empties(count)
  {
    var rest := b + Repeat('(', count);
    assert a + "(" + b + Repeat('(', count) == a + ['('] + rest;
    SplitAllFirst(a, '(', rest);
    if count == 0 {
      assert rest == b;
      SplitAllNoSep(b, '(');
    } else {
      assert rest == b + ['('] + Repeat('(', count - 1);
      SplitAllFirst(b, '(', Repeat('(', count - 1));
      SplitAllRepeat('(', count - 1);
    }
  }

  /**
    A line `a(b`, where neither piece has `(` and `b` is not empty, is
    accepted with its trimmed pieces, and so is one with any number of `(`
    after `b`, because `split` drops trailing empty pieces.
   */
  lemma {:induction false} ParseAccepts(a: string, b: string, count: nat)
    requires '(' !in a && '(' !in b && b != []
    ensures ParseCompanyData(a + "(" + b + Repeat('(', count))
         == Ok(CompanyData(Trim(a), Trim(RemoveChar(b, ')'))))
  {
    var line := a + "(" + b + Repeat('(', count);
    assert line[|a|] == '(';
    SplitShape(a, b, count);
    var parts := [a, b] + Empties(count);
    var r := DropTrailingEmpty(parts);
    assert parts[1] == b && forall k :: 2 <= k < |parts| ==> parts[k] == [];
    assert |r| == 2;
    assert r == parts[..2] == [a, b];
  }

  /** A line without `(` is rejected. */
  lemma ParseRejectsNoParen(line: string)
    requires '(' !in line
    ensures ParseCompanyData(line).Err?
  {
  }

  /** A line whose first `(` is followed only by more `(` (or by nothing) is rejected. */
  lemma {:induction false} ParseRejectsEmptyGroup(a: string, count: nat)
    requires '(' !in a
    ensures ParseCompanyData(a + "(" + Repeat('(', count)).Err?
  {
    var line := a + "(" + Repeat('(', count);
    assert line[|a|] == '(';
    assert a + "(" + Repeat('(', count) == a + ['('] + Repeat('(', count);
    SplitAllFirst(a, '(', Repeat('(', count));
    SplitAllRepeat('(', count);
    var parts := [a] + Empties(count + 1);
    assert forall k :: 1 <= k < |parts| ==> parts[k] == [];
    var r := DropTrailingEmpty(parts);
    assert |r| <= 1;
  }

  /**
    A line with a second `(` that is followed by anything other than `(` is
    rejected: a third piece survives the split.
   */
  lemma {:induction false} ParseRejectsSecondGroup(a: string, b: string, c: string, m: nat)
    requires '(' !in a && '(' !in b
    requires m < |c| && c[m] != '('
    ensures ParseCompanyData(a + "(" + b + "(" + c).Err?
  {
    var line := a + "(" + b + "(" + c;
    assert line[|a|] == '(';
    assert line == a + ['('] + (b + ['('] + c);
    SplitAllFirst(a, '(', b + ['('] + c);
    SplitAllFirst(b, '(', c);
    var tail := SplitAll(c, '(');
    var q := SplitAllNonEmptyPiece(c, '(', m);
    var parts := [a, b] + tail;
    assert parts[q + 2] == tail[q];
    var r := DropTrailingEmpty(parts);
    assert |r| > q + 2;
  }

  /**
    A line written as `name (url)`, with any blank padding around the name,
    the `(`, the URL and the `)`, parses back to the same name and URL.
   */
  lemma {:induction false} ParseFormatted(c: CompanyData, w1: string, w2: string, w3: string, w4: string, w5: string)
    requires IsTrimmed(c.name) && IsTrimmed(c.url)
    requires '(' !in c.name && '(' !in c.url && ')' !in c.url
    requires IsBlank(w1) && IsBlank(w2) && IsBlank(w3) && IsBlank(w4) && IsBlank(w5)
    ensures ParseCompanyData(w1 + c.name + w2 + "(" + w3 + c.url + w4 + ")" + w5) == Ok(c)
  {
    var a := w1 + c.name + w2;
    var b := w3 + c.url + w4 + ")" + w5;
    var line := w1 + c.name + w2 + "(" + w3 + c.url + w4 + ")" + w5;
    BlankLacks(w2, '(');
    BlankLacks(w4, '(');
    BlankLacks(w5, '(');
    PaddedLacks(w1, c.name, w2, '(');
    PaddedLacks(w3, c.url, w4 + ")" + w5, '(');
    assert b != [];
    assert line == a + "(" + b + Repeat('(', 0);
    ParseAccepts(a, b, 0);
    TrimPadded(w1, c.name, w2);
    UrlPieceUnwrapped(c.url, w3, w4, w5);
  }

  lemma PaddedLacks(w1: string, n: string, w2: string, ch: char)
    requires IsBlank(w1) && !IsTrimChar(ch) && ch !in n && ch !in w2
    ensures ch !in w1 + n + w2
  {
  }

  /** Removing `)` from the padded URL piece and trimming gives back the URL. */
  lemma {:induction false} UrlPieceUnwrapped(url: string, w3: string, w4: string, w5: string)
    requires IsTrimmed(url) && ')' !in url
    requires IsBlank(w3) && IsBlank(w4) && IsBlank(w5)
    ensures Trim(RemoveChar(w3 + url + w4 + ")" + w5, ')')) == url
  {
    BlankLacks(w3, ')');
    BlankLacks(w4, ')');
    BlankLacks(w5, ')');
    var x := w3 + url + w4;
    assert ')' !in x;
    assert w3 + url + w4 + ")" + w5 == x + (")" + w5);
    RemoveCloser(x, w5);
    assert x + w5 == w3 + url + (w4 + w5);
    BlankAppend(w4, w5);
    TrimPadded(w3, url, w4 + w5);
  }

  /** The one `)` between two pieces without `)` is all that `replace` removes. */
  lemma {:induction false} RemoveCloser(x: string, w: string)
    requires ')' !in x && ')' !in w
    ensures RemoveChar(x + (")" + w), ')') == x + w
  {
    RemoveCharAppend(x, ")" + w, ')');
    RemoveCharAbsent(x, ')');
    RemoveLeading(w, ')');
    RemoveCharAbsent(w, ')');
  }

  lemma RemoveLeading(w: string, c: char)
    ensures RemoveChar([c] + w, c) == RemoveChar(w, c)
  {
    assert ([c] + w)[1..] == w;
  }
}
