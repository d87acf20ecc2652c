/**
  The driver: every line of the companies file is parsed, its founders are
  looked up, and the list is stored under the company's name. A line that
  does not parse ends the run with its format error, since only I/O errors
  are caught around the loop.
 */
module Results {
  import opened Basics
  import opened CompanyLine

  /** What the run produces: company name to founder list, or the first bad line's error. */
  type Outcome = Result<map<string, seq<string>>, LineError>

  /** The parse of every line, in order. */
  function ParseAll(lines: seq<string>): (parsed: seq<Result<CompanyData, LineError>>)
    ensures |parsed| == |lines|
    ensures forall i :: 0 <= i < |lines| ==> parsed[i] == ParseCompanyData(lines[i])
  {
    seq(|lines|, i requires 0 <= i < |lines| => ParseCompanyData(lines[i]))
  }

  /** Every line parsed. */
  predicate AllOk(parsed: seq<Result<CompanyData, LineError>>)
  {
    forall i :: 0 <= i < |parsed| ==> parsed[i].Ok?
  }

  /**
    The outcome of storing the parsed lines in order, with `search` standing
    for `searchForFounders(url, name)`: the first failed parse ends the run,
    and a later company with the same name replaces the earlier entry.
   */
  function Store(parsed: seq<Result<CompanyData, LineError>>, search: (string, string) -> seq<string>): Outcome
    decreases |parsed|
  {
    if parsed == [] then Ok(map[])
    else
      match Store(parsed[..|parsed| - 1], search)
      case Err(e) => Err(e)
      case Ok(m) =>
        match parsed[|parsed| - 1]
        case Err(e) => Err(e)
        case Ok(c) => Ok(m[c.name := search(c.url, c.name)])
  }

  /** The outcome of the loop of `main` over the file's lines. */
  function Collect(lines: seq<string>, search: (string, string) -> seq<string>): Outcome
  {
    Store(ParseAll(lines), search)
  }

  /** The loop of `main` over the file's lines, up to the export. */
  method CollectResults(lines: seq<string>, search: (string, string) -> seq<string>) returns (outcome: Outcome)
    ensures outcome == Collect(lines, search)
  {
    ghost var parsed := ParseAll(lines);
    var results: map<string, seq<string>> := map[];
    for i := 0 to |lines|
      invariant Store(parsed[..i], search) == Ok(results)
    {
      var company := ParseCompanyData(lines[i]);
      assert company == parsed[i];
      if company.Err? {
        outcome := Err(company.error);
        StoreStopsAt(parsed, i, search);
        return;
      }
      StoreStep(parsed, i, search, results);
      results := results[company.value.name := search(company.value.url, company.value.name)];
    }
    assert parsed[..|lines|] == parsed;
    outcome := Ok(results);
  }

  /**
    The run fails exactly when some line does not parse, and then with the
    format error of the first such line; otherwise every line's name is a key.
   */
  lemma CollectFails(lines: seq<string>, search: (string, string) -> seq<string>)
    ensures Collect(lines, search).Err? <==> exists i :: 0 <= i < |lines| && ParseCompanyData(lines[i]).Err?
    ensures Collect(lines, search).Err? ==>
              exists i :: 0 <= i < |lines| && Collect(lines, search).error == InvalidLineFormat(lines[i])
                       && forall k :: 0 <= k < i ==> ParseCompanyData(lines[k]).Ok?
  {
    var parsed := ParseAll(lines);
    StoreFails(parsed, search);
    if Store(parsed, search).Err? {
      var i :| 0 <= i < |parsed| && parsed[i].Err? && Store(parsed, search).error == parsed[i].error
               && AllOk(parsed[..i]);
      assert parsed[i].error == InvalidLineFormat(lines[i]);
      forall k | 0 <= k < i
        ensures ParseCompanyData(lines[k]).Ok?
      {
        assert parsed[..i][k] == parsed[k];
      }
    }
  }

  /** A line that parses stores its company's founders under its name. */
  lemma StoreStep(parsed: seq<Result<CompanyData, LineError>>, i: nat, search: (string, string) -> seq<string>,
                  results: map<string, seq<string>>)
    requires i < |parsed| && Store(parsed[..i], search) == Ok(results) && parsed[i].Ok?
    ensures var c := parsed[i].value;
            Store(parsed[..i + 1], search) == Ok(results[c.name := search(c.url, c.name)])
  {
    assert parsed[..i + 1][..i] == parsed[..i];
  }

  /** Once a line fails to parse, the outcome is that line's error, whatever follows. */
  lemma {:induction false} StoreStopsAt(parsed: seq<Result<CompanyData, LineError>>, i: nat, search: (string, string) -> seq<string>)
    requires i < |parsed| && Store(parsed[..i], search).Ok? && parsed[i].Err?
    ensures Store(parsed, search) == Err(parsed[i].error)
    decreases |parsed|
  {
    var init := parsed[..|parsed| - 1];
    if |parsed| == i + 1 {
      assert init == parsed[..i];
    } else {
      assert init[..i] == parsed[..i] && init[i] == parsed[i];
      StoreStopsAt(init, i, search);
    }
  }

  /** The run fails exactly when some line fails to parse, and the error is the first such line's. */
  lemma {:induction false} StoreFails(parsed: seq<Result<CompanyData, LineError>>, search: (string, string) -> seq<string>)
    ensures Store(parsed, search).Ok? <==> AllOk(parsed)
    ensures Store(parsed, search).Err? ==>
              exists i :: 0 <= i < |parsed| && parsed[i].Err? && Store(parsed, search).error == parsed[i].error
                       && AllOk(parsed[..i])
    decreases |parsed|
  {
    if parsed != [] {
      var init := parsed[..|parsed| - 1];
      var last := |parsed| - 1;
      StoreFails(init, search);
      if Store(init, search).Err? {
        var i :| 0 <= i < |init| && init[i].Err? && Store(init, search).error == init[i].error && AllOk(init[..i]);
        assert parsed[i] == init[i] && parsed[..i] == init[..i];
        assert !AllOk(parsed);
      } else if parsed[last].Err? {
        assert parsed[..last] == init;
      } else {
        assert forall k :: 0 <= k < last ==> parsed[k] == init[k];
      }
    }
  }

  /** A successful run has an entry for the name of every line, and no other entries. */
  lemma {:induction false} StoreKeys(parsed: seq<Result<CompanyData, LineError>>, search: (string, string) -> seq<string>)
    requires AllOk(parsed)
    ensures Store(parsed, search).Ok?
    ensures forall n :: n in Store(parsed, search).value <==>
              exists i :: 0 <= i < |parsed| && parsed[i].value.name == n
    decreases |parsed|
  {
    StoreFails(parsed, search);
    if parsed != [] {
      var init := parsed[..|parsed| - 1];
      var last := |parsed| - 1;
      assert forall k :: 0 <= k < last ==> parsed[k] == init[k];
      StoreKeys(init, search);
      forall n ensures n in Store(parsed, search).value <==>
                 exists i :: 0 <= i < |parsed| && parsed[i].value.name == n
      {
        if n in Store(init, search).value {
          var i :| 0 <= i < |init| && init[i].value.name == n;
          assert parsed[i].value.name == n;
        }
      }
    }
  }

  /**
    The last line naming a company decides its entry: the founders stored
    under that name are the ones searched for with that line's URL.
   */
  lemma {:induction false} StoreLastWins(parsed: seq<Result<CompanyData, LineError>>, search: (string, string) -> seq<string>, i: nat)
    requires AllOk(parsed) && i < |parsed|
    requires forall j :: i < j < |parsed| ==> parsed[j].value.name != parsed[i].value.name
    ensures Store(parsed, search).Ok?
    ensures var c := parsed[i].value;
            c.name in Store(parsed, search).value && Store(parsed, search).value[c.name] == search(c.url, c.name)
    decreases |parsed|
  {
    StoreKeys(parsed, search);
    var init := parsed[..|parsed| - 1];
    if i < |parsed| - 1 {
      assert forall k :: 0 <= k < |init| ==> init[k] == parsed[k];
      StoreLastWins(init, search, i);
    }
  }

  /**
    In a run where every line parses, every company name is a key, and the
    entry of a name is the search for the URL on the last line with that name.
   */
  lemma CollectLastWins(lines: seq<string>, search: (string, string) -> seq<string>, i: nat)
    requires forall j :: 0 <= j < |lines| ==> ParseCompanyData(lines[j]).Ok?
    requires i < |lines|
    requires forall j :: i < j < |lines| ==>
               ParseCompanyData(lines[j]).value.name != ParseCompanyData(lines[i]).value.name
    ensures Collect(lines, search).Ok?
    ensures var c := ParseCompanyData(lines[i]).value;
            c.name in Collect(lines, search).value && Collect(lines, search).value[c.name] == search(c.url, c.name)
  {
    StoreLastWins(ParseAll(lines), search, i);
  }
}
