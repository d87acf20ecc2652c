/**
  The page fetcher's text handling: the slice between the body tags of a
  fetched page, and the removal of script elements from it.
 */
module PageBody {
  import opened Basics
  import opened JavaText

  const BodyOpen := "<body"
  const BodyClose := "</body>"
  const TagEnd := ">"
  const ScriptOpen := "<script"
  const ScriptClose := "</script"
  /** How far past the start of `</script` a removal reaches: the token and one more character, normally `>`. */
  const ScriptSkip := 9

  /**
    The body slice of a page: from one past the first `>` at or after the
    first `<body` up to the first `</body>`, both searched as the source does
    (the closing tag from the start of the page). Missing tags give the empty
    string, and so does a slice whose start lies past its end, where the
    substring call throws and the exception is caught.
   */
  function ExtractBody(html: string): (body: string)
    ensures |body| <= |html|
    ensures IndexOf(html, BodyOpen) == -1 || IndexOf(html, BodyClose) == -1 ==> body == []
  {
    var bodyStart := IndexOf(html, BodyOpen);
    var bodyEnd := IndexOf(html, BodyClose);
    if bodyStart == -1 || bodyEnd == -1 then []
    else
      var contentStart := IndexOfFrom(html, TagEnd, bodyStart) + 1;
      if contentStart <= bodyEnd then html[contentStart..bodyEnd] else []
  }

  /** A page laid out as `pre <body attrs> content </body> post`. */
  function Page(pre: string, attrs: string, content: string, post: string): string
  {
    pre + BodyOpen + attrs + TagEnd + content + BodyClose + post
  }

  /**
    A page laid out as `pre <body attrs> content </body> post`, where the
    opening tag is the first `<body`, the attributes hold no `>` and no
    `</body>` starts before the content ends, yields exactly `content`.
   */
  lemma ExtractBodyOfPage(pre: string, attrs: string, content: string, post: string)
    requires TagEnd[0] !in attrs
    requires forall j :: 0 <= j < |pre| ==> !OccursAt(Page(pre, attrs, content, post), BodyOpen, j)
    requires forall j :: 0 <= j < |pre| + |BodyOpen| + |attrs| + |TagEnd| + |content| ==>
               !OccursAt(Page(pre, attrs, content, post), BodyClose, j)
    ensures ExtractBody(Page(pre, attrs, content, post)) == content
  {
    var g := |pre| + |BodyOpen| + |attrs|;
    PageBodyOpen(pre, attrs, content, post);
    PageBodyClose(pre, attrs, content, post);
    PageTagEnd(pre, attrs, content, post);
    PageContent(pre, attrs, content, post);
    ExtractBodyAt(Page(pre, attrs, content, post), |pre|, g, g + 1 + |content|);
  }

  lemma PageBodyOpen(pre: string, attrs: string, content: string, post: string)
    requires forall j :: 0 <= j < |pre| ==> !OccursAt(Page(pre, attrs, content, post), BodyOpen, j)
    ensures IndexOf(Page(pre, attrs, content, post), BodyOpen) == |pre|
  {
    var html := Page(pre, attrs, content, post);
    assert html == pre + BodyOpen + (attrs + TagEnd + content + BodyClose + post);
    MiddleSlice(pre, BodyOpen, attrs + TagEnd + content + BodyClose + post);
    FirstOccurrence(html, BodyOpen, 0, |pre|);
  }

  lemma PageBodyClose(pre: string, attrs: string, content: string, post: string)
    requires forall j :: 0 <= j < |pre| + |BodyOpen| + |attrs| + |TagEnd| + |content| ==>
               !OccursAt(Page(pre, attrs, content, post), BodyClose, j)
    ensures IndexOf(Page(pre, attrs, content, post), BodyClose) == |pre| + |BodyOpen| + |attrs| + |TagEnd| + |content|
  {
    var html := Page(pre, attrs, content, post);
    var front := pre + BodyOpen + attrs + TagEnd + content;
    assert html == front + BodyClose + post;
    MiddleSlice(front, BodyClose, post);
    FirstOccurrence(html, BodyClose, 0, |front|);
  }

  lemma PageTagEnd(pre: string, attrs: string, content: string, post: string)
    requires TagEnd[0] !in attrs
    ensures IndexOfFrom(Page(pre, attrs, content, post), TagEnd, |pre|) == |pre| + |BodyOpen| + |attrs|
  {
    var front := pre + BodyOpen + attrs + TagEnd;
    AppendAssoc(front + content, BodyClose, post);
    AppendAssoc(front, content, BodyClose + post);
    FirstTagEnd(pre, attrs, content + (BodyClose + post));
  }

  /** The first `>` at or after `<body` ends the attributes when they hold no `>`. */
  lemma FirstTagEnd(pre: string, attrs: string, rest: string)
    requires TagEnd[0] !in attrs
    ensures IndexOfFrom(pre + BodyOpen + attrs + TagEnd + rest, TagEnd, |pre|) == |pre| + |BodyOpen| + |attrs|
  {
    var html := pre + BodyOpen + attrs + TagEnd + rest;
    var s := |pre|;
    var g := s + |BodyOpen| + |attrs|;
    forall j | s <= j < g ensures !OccursAt(html, TagEnd, j) {
      if j < s + |BodyOpen| {
        assert html[j] == BodyOpen[j - s];
      } else {
        assert html[j] == attrs[j - s - |BodyOpen|];
      }
      NotOccursAt(html, TagEnd, j, 0);
    }
    assert html[g..g + 1] == TagEnd;
    FirstOccurrence(html, TagEnd, s, g);
  }

  lemma AppendAssoc(a: string, b: string, c: string)
    ensures a + b + c == a + (b + c)
  {
  }

  lemma PageContent(pre: string, attrs: string, content: string, post: string)
    ensures var g := |pre| + |BodyOpen| + |attrs|;
            Page(pre, attrs, content, post)[g + 1..g + 1 + |content|] == content
  {
    var front := pre + BodyOpen + attrs + TagEnd;
    assert Page(pre, attrs, content, post) == front + content + (BodyClose + post);
    MiddleSlice(front, content, BodyClose + post);
  }

  /** The slice `ExtractBody` takes, given where the three searches end up. */
  lemma ExtractBodyAt(html: string, s: int, g: int, e: int)
    requires s == IndexOf(html, BodyOpen) && s != -1
    requires e == IndexOf(html, BodyClose) && e != -1
    requires g == IndexOfFrom(html, TagEnd, s) && g + 1 <= e
    ensures ExtractBody(html) == html[g + 1..e]
  {
  }

  /** A page whose first `</body>` comes before its first `<body`: `pre </body> mid <body attrs> rest`. */
  function MisorderedPage(pre: string, mid: string, attrs: string, rest: string): string
  {
    pre + BodyClose + mid + BodyOpen + attrs + TagEnd + rest
  }

  /**
    When the first `</body>` precedes the first `<body`, the content would
    start after its end: the substring call throws, the exception is caught,
    and the body is empty, whatever the attributes hold.
   */
  lemma ExtractBodyCloseFirst(pre: string, mid: string, attrs: string, rest: string)
    requires forall j :: 0 <= j < |pre| ==> !OccursAt(MisorderedPage(pre, mid, attrs, rest), BodyClose, j)
    requires forall j :: 0 <= j < |pre| + |BodyClose| + |mid| ==>
               !OccursAt(MisorderedPage(pre, mid, attrs, rest), BodyOpen, j)
    ensures ExtractBody(MisorderedPage(pre, mid, attrs, rest)) == []
  {
    MisorderedClose(pre, mid, attrs, rest);
    MisorderedOpen(pre, mid, attrs, rest);
    MisorderedTagEnd(pre, mid, attrs, rest);
  }

  lemma MisorderedClose(pre: string, mid: string, attrs: string, rest: string)
    requires forall j :: 0 <= j < |pre| ==> !OccursAt(MisorderedPage(pre, mid, attrs, rest), BodyClose, j)
    ensures IndexOf(MisorderedPage(pre, mid, attrs, rest), BodyClose) == |pre|
  {
    var html := MisorderedPage(pre, mid, attrs, rest);
    var tail := mid + BodyOpen + attrs + TagEnd + rest;
    assert html == pre + BodyClose + tail;
    MiddleSlice(pre, BodyClose, tail);
    FirstOccurrence(html, BodyClose, 0, |pre|);
  }

  lemma MisorderedOpen(pre: string, mid: string, attrs: string, rest: string)
    requires forall j :: 0 <= j < |pre| + |BodyClose| + |mid| ==>
               !OccursAt(MisorderedPage(pre, mid, attrs, rest), BodyOpen, j)
    ensures IndexOf(MisorderedPage(pre, mid, attrs, rest), BodyOpen) == |pre| + |BodyClose| + |mid|
  {
    var html := MisorderedPage(pre, mid, attrs, rest);
    var front := pre + BodyClose + mid;
    var tail := attrs + TagEnd + rest;
    assert html == front + BodyOpen + tail;
    MiddleSlice(front, BodyOpen, tail);
    FirstOccurrence(html, BodyOpen, 0, |front|);
  }

  lemma MisorderedTagEnd(pre: string, mid: string, attrs: string, rest: string)
    ensures IndexOfFrom(MisorderedPage(pre, mid, attrs, rest), TagEnd, |pre| + |BodyClose| + |mid|) != -1
  {
    var html := MisorderedPage(pre, mid, attrs, rest);
    var front := pre + BodyClose + mid + BodyOpen + attrs;
    assert html == front + TagEnd + rest;
    MiddleSlice(front, TagEnd, rest);
    assert OccursAt(html, TagEnd, |front|);
  }

  /** The middle piece of a three-piece concatenation is its slice between the piece boundaries. */
  lemma MiddleSlice(a: string, m: string, b: string)
    ensures (a + m + b)[|a|..|a| + |m|] == m
  {
  }

  /** The first `<script` of `html` has no `</script` after it, or there is no `<script` at all. */
  predicate ScriptsDone(html: string)
  {
    var s := IndexOf(html, ScriptOpen);
    s == -1 || IndexOfFrom(html, ScriptClose, s) == -1
  }

  /**
    What the script-removal loop computes: repeatedly splice out the span from
    the first `<script` to nine characters past the next `</script`, until no
    `<script` is left or the first one has no `</script` after it. `None`
    stands for the exception thrown when fewer than nine characters remain
    from `</script` on.
   */
  function StripScripts(html: string): (r: Option<string>)
    ensures r.Some? ==> |r.value| <= |html| && ScriptsDone(r.value)
    decreases |html|
  {
    var s := IndexOf(html, ScriptOpen);
    if s == -1 then Some(html)
    else
      var e := IndexOfFrom(html, ScriptClose, s);
      if e == -1 then Some(html)
      else if e + ScriptSkip > |html| then None
      else StripScripts(html[..s] + html[e + ScriptSkip..])
  }

  /**
    `removeScriptTags`: the loop that reassigns the text at each pass. Each
    pass keeps what precedes the first `<script` and what follows the removed
    span, and the span is never empty, so the text shrinks.
   */
  method RemoveScriptTags(html: string) returns (r: Option<string>)
    ensures r == StripScripts(html)
    ensures r.Some? ==> |r.value| <= |html| && ScriptsDone(r.value)
  {
    var text := html;
    while IndexOf(text, ScriptOpen) != -1
      invariant StripScripts(text) == StripScripts(html)
      decreases |text|
    {
      var scriptStart := IndexOf(text, ScriptOpen);
      var scriptEnd := IndexOfFrom(text, ScriptClose, scriptStart);
      if scriptStart != -1 && scriptEnd != -1 {
        if scriptEnd + ScriptSkip > |text| {
          return None;
        }
        StripScriptsStep(text, scriptStart, scriptEnd);
        text := text[..scriptStart] + text[scriptEnd + ScriptSkip..];
      } else {
        break;
      }
    }
    return Some(text);
  }

  /** Once the loop has stopped, running it again changes nothing. */
  lemma StripScriptsIdempotent(html: string)
    requires StripScripts(html).Some?
    ensures StripScripts(StripScripts(html).value) == StripScripts(html)
  {
  }

  /**
    The text kept from a downloaded page: nothing for a response other than
    200, otherwise the body slice with its scripts removed, or nothing when
    the removal throws. It is never longer than the page, and its first
    `<script`, if any, has no `</script` after it.
   */
  function FetchedText(status: int, html: string): (body: string)
    ensures |body| <= |html| && ScriptsDone(body)
  {
    if status != 200 then []
    else
      match StripScripts(ExtractBody(html))
      case Some(text) => text
      case None => []
  }

  /**
    `fetchBodyContent` after the download: a response other than 200 gives
    the empty string, otherwise the body slice with its scripts removed, or
    the empty string when the removal throws.
   */
  method FetchBodyContent(status: int, html: string) returns (body: string)
    ensures body == FetchedText(status, html)
    ensures status != 200 ==> body == []
    ensures status == 200 ==> body == (match StripScripts(ExtractBody(html))
                                       case Some(text) => text
                                       case None => [])
    ensures |body| <= |html| && ScriptsDone(body)
  {
    if status != 200 {
      return [];
    }
    var slice := ExtractBody(html);
    var cleaned := RemoveScriptTags(slice);
    match cleaned
    case Some(text) =>
      body := text;
    case None =>
      body := [];
  }

  /** A page body of texts with script elements between them: `t0 <script b0</script> t1 ... tn`. */
  function ScriptPage(texts: seq<string>, scripts: seq<string>): string
    requires |texts| == |scripts| + 1
    decreases |scripts|
  {
    if scripts == [] then texts[0]
    else texts[0] + ScriptOpen + scripts[0] + ScriptClose + TagEnd + ScriptPage(texts[1..], scripts[1..])
  }

  /**
    Script elements are removed whole and the text around them is kept in
    order, when the text joined has no `<script` and no script content holds
    `</script`. The text may hold any other markup.
   */
  lemma {:induction false} StripScriptPage(texts: seq<string>, scripts: seq<string>)
    requires |texts| == |scripts| + 1
    requires forall j :: !OccursAt(Flatten(texts), ScriptOpen, j)
    requires forall k, j :: 0 <= k < |scripts| ==> !OccursAt(scripts[k], ScriptClose, j)
    ensures StripScripts(ScriptPage(texts, scripts)) == Some(Flatten(texts))
    decreases |scripts|
  {
    assert Flatten(texts) == texts[0] + Flatten(texts[1..]);
    if scripts == [] {
      assert texts[1..] == [];
      assert Flatten(texts) == texts[0];
      assert IndexOf(texts[0], ScriptOpen) == -1;
    } else {
      forall j ensures !OccursAt(texts[0], ScriptOpen, j) {
        if OccursAt(texts[0], ScriptOpen, j) {
          OccursAtPrefix(texts[0], Flatten(texts[1..]), ScriptOpen, j);
        }
      }
      StripScriptElement(texts[0], scripts[0], ScriptPage(texts[1..], scripts[1..]));
      var texts' := JoinFirstTexts(texts, scripts);
      StripScriptPage(texts', scripts[1..]);
    }
  }

  /**
    A fetched page laid out as `pre <body attrs> content </body> post`, whose
    content is text with script elements between the pieces, yields exactly
    the text pieces joined: the body slice is the content, and the removal
    takes out the script elements whole.
   */
  lemma FetchedScriptPage(pre: string, attrs: string, texts: seq<string>, scripts: seq<string>, post: string)
    requires |texts| == |scripts| + 1
    requires TagEnd[0] !in attrs
    requires forall j :: 0 <= j < |pre| ==> !OccursAt(Page(pre, attrs, ScriptPage(texts, scripts), post), BodyOpen, j)
    requires forall j :: 0 <= j < |pre| + |BodyOpen| + |attrs| + |TagEnd| + |ScriptPage(texts, scripts)| ==>
               !OccursAt(Page(pre, attrs, ScriptPage(texts, scripts), post), BodyClose, j)
    requires forall j :: !OccursAt(Flatten(texts), ScriptOpen, j)
    requires forall k, j :: 0 <= k < |scripts| ==> !OccursAt(scripts[k], ScriptClose, j)
    ensures FetchedText(200, Page(pre, attrs, ScriptPage(texts, scripts), post)) == Flatten(texts)
  {
    ExtractBodyOfPage(pre, attrs, ScriptPage(texts, scripts), post);
    StripScriptPage(texts, scripts);
  }

  /**
    Once the first script element is gone, the text before it and the text
    after it form the first text of a page with one script fewer.
   */
  lemma JoinFirstTexts(texts: seq<string>, scripts: seq<string>) returns (texts': seq<string>)
    requires |texts| == |scripts| + 1 && scripts != []
    requires forall k, j :: 0 <= k < |scripts| ==> !OccursAt(scripts[k], ScriptClose, j)
    ensures |texts'| == |scripts[1..]| + 1
    ensures forall k, j :: 0 <= k < |scripts[1..]| ==> !OccursAt(scripts[1..][k], ScriptClose, j)
    ensures texts[0] + ScriptPage(texts[1..], scripts[1..]) == ScriptPage(texts', scripts[1..])
    ensures Flatten(texts') == Flatten(texts)
  {
    var t0 := texts[0];
    texts' := [t0 + texts[1]] + texts[2..];
    ScriptPageJoin(t0, texts[1..], scripts[1..]);
    assert texts[1..][1..] == texts[2..];
    assert forall k :: 1 <= k < |texts'| ==> texts'[k] == texts[k + 1];
    assert forall k :: 0 <= k < |scripts[1..]| ==> scripts[1..][k] == scripts[k + 1];
    assert texts'[1..] == texts[2..];
    assert Flatten(texts[1..]) == texts[1] + Flatten(texts[2..]);
  }

  /** Text in front of a script page joins its first text. */
  lemma ScriptPageJoin(t: string, texts: seq<string>, scripts: seq<string>)
    requires |texts| == |scripts| + 1
    ensures t + ScriptPage(texts, scripts) == ScriptPage([t + texts[0]] + texts[1..], scripts)
  {
    var texts' := [t + texts[0]] + texts[1..];
    assert texts'[1..] == texts[1..];
  }

  /** One pass of the loop removes one whole script element and keeps the text on both sides. */
  lemma StripScriptElement(t: string, b: string, rest: string)
    requires forall j :: !OccursAt(t, ScriptOpen, j)
    requires forall j :: !OccursAt(b, ScriptClose, j)
    ensures StripScripts(t + ScriptOpen + b + ScriptClose + TagEnd + rest) == StripScripts(t + rest)
  {
    var front := t + ScriptOpen + b + ScriptClose + TagEnd;
    var html := front + rest;
    var s := |t|;
    var e := s + |ScriptOpen| + |b|;
    assert html == t + ScriptOpen + (b + ScriptClose + TagEnd + rest);
    FirstScriptOpen(t, b + ScriptClose + TagEnd + rest);
    assert html == t + ScriptOpen + b + ScriptClose + (TagEnd + rest);
    FirstScriptClose(t, b, TagEnd + rest);
    assert |front| == e + ScriptSkip;
    assert html[..s] == t;
    assert html[e + ScriptSkip..] == rest;
    StripScriptsStep(html, s, e);
  }

  /** A pass of the loop with both tokens found and enough text after `</script`. */
  lemma StripScriptsStep(html: string, s: int, e: int)
    requires s == IndexOf(html, ScriptOpen) && s != -1
    requires e == IndexOfFrom(html, ScriptClose, s) && e != -1
    requires e + ScriptSkip <= |html|
    ensures StripScripts(html) == StripScripts(html[..s] + html[e + ScriptSkip..])
  {
  }

  /**
    In `t <script...` with no `<script` in `t`, the first `<script` follows
    `t`: one starting inside `t` would have to run into the `<` that follows
    it, and `<` is only the first character of `<script`.
   */
  lemma FirstScriptOpen(t: string, tail: string)
    requires forall j :: !OccursAt(t, ScriptOpen, j)
    ensures IndexOf(t + ScriptOpen + tail, ScriptOpen) == |t|
  {
    var html := t + ScriptOpen + tail;
    assert html[|t|..|t| + |ScriptOpen|] == ScriptOpen;
    forall j | 0 <= j < |t| ensures !OccursAt(html, ScriptOpen, j) {
      if j + |ScriptOpen| <= |t| {
        assert html[j..j + |ScriptOpen|] == t[j..j + |ScriptOpen|];
        assert !OccursAt(t, ScriptOpen, j);
      } else {
        assert html[|t|] == '<';
        assert ScriptOpen[|t| - j] != '<';
        NotOccursAt(html, ScriptOpen, j, |t| - j);
      }
    }
    FirstOccurrence(html, ScriptOpen, 0, |t|);
  }

  /**
    In `t <script b </script...` with no `</script` in `b`, the first
    `</script` after the `<script` is the one that follows `b`.
   */
  lemma FirstScriptClose(t: string, b: string, tail: string)
    requires forall j :: !OccursAt(b, ScriptClose, j)
    ensures IndexOfFrom(t + ScriptOpen + b + ScriptClose + tail, ScriptClose, |t|) == |t| + |ScriptOpen| + |b|
  {
    var html := t + ScriptOpen + b + ScriptClose + tail;
    var s := |t|;
    var bs := s + |ScriptOpen|;
    var e := bs + |b|;
    assert html[e..e + |ScriptClose|] == ScriptClose;
    forall j | s <= j < e ensures !OccursAt(html, ScriptClose, j) {
      if j == s {
        assert html[j + 1] == ScriptOpen[1];
        NotOccursAt(html, ScriptClose, j, 1);
      } else if j < bs {
        assert html[j] == ScriptOpen[j - s];
        NotOccursAt(html, ScriptClose, j, 0);
      } else if j + |ScriptClose| <= e {
        assert html[j..j + |ScriptClose|] == b[j - bs..j - bs + |ScriptClose|];
        assert !OccursAt(b, ScriptClose, j - bs);
      } else {
        assert html[e] == '<';
        assert ScriptClose[e - j] != '<';
        NotOccursAt(html, ScriptClose, j, e - j);
      }
    }
    FirstOccurrence(html, ScriptClose, s, e);
  }
}
