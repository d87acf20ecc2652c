# Company founder finder: the text-processing core in Dafny

The finder reads a file of companies, one per line, written as `Name (URL)`. For each company it runs a site-restricted web search for founder pages. It fetches the leading results and keeps the text between the body tags, with script elements removed. That text is cut into chunks of 32 * 1024 characters. Each chunk goes to a language model that answers with a comma-separated list of names or `NONE`. The names are merged into a per-company list without duplicates, and the lists are stored under the company names.

This project models every step of that pipeline that is not a network, file or JSON call:

- `CompanyLine` (`company_line.dfy`) parses an input line.
- `SearchHost` (`search_host.dfy`) drops the `www.` prefix from a host.
- `PageBody` (`page_body.dfy`) slices out the page body and removes script elements.
- `Chunker` (`chunker.dfy`) cuts text into chunks.
- `ReplyParser` (`reply_parser.dfy`) parses the model's reply.
- `FounderList` (`founder_list.dfy`) merges names into a founder list.
- `Finder` (`finder.dfy`) runs the per-company loop over search results.
- `Results` (`results.dfy`) runs the driver loop that fills the results map.

`JavaText` (`java_text.dfy`) gives the exact meaning of the Java string operations the code relies on:

- `indexOf` returns -1 when the pattern is absent.
- `trim` removes characters up to U+0020 from both ends.
- `split` with a one-character pattern drops trailing empty pieces. When the separator does not occur, it returns the whole string as the only piece.
- `replace` removes every occurrence of a character.
- `equalsIgnoreCase` compares with case folded.

`Basics` (`basics.dfy`) holds `Option`, `Result` and sequence flattening.

Failures are values in the model:

- An invalid line makes `parseCompanyData` throw `IllegalArgumentException`. Nothing catches it, because `main` catches only `IOException`, so the run ends there. `ParseCompanyData` returns `Err(InvalidLineFormat(line))`, and the driver loop ends with that error.
- In `removeScriptTags`, a `substring` that reaches past the end of the text throws. `StripScripts` gives `None` there, and `fetchBodyContent` catches the exception and returns the empty string.
- In the body slice, a content start past the closing tag makes `substring` throw, and the same catch returns the empty string. `ExtractBody` returns the empty string directly.

The code's loops (script removal, chunking, reply parsing, merging, the search-result loop and the driver loop) are methods with loop invariants. Each is proved to compute a specification function, and lemmas are proved about those functions. The search-result loop computes the merge of the names of every chunk of every visited page, in page order and then chunk order.

Behaviour of the code that is easy to miss, which the model keeps:

- The removed script span runs to 9 characters past the start of `</script`. That is the 8-character token plus the next character, normally `>`, so the `>` is removed too.
- `</body>` is searched from the start of the page, not from after `<body`. If a `</body>` comes before the content start, the substring throws and the body is empty.
- If no `>` follows `<body`, the content starts at index 0.
- An empty line is rejected, because splitting `""` gives one piece.
- A line such as `a(b((` is accepted, because `split` drops the trailing empty pieces.

## Model

| member | source | states |
|---|---|---|
| JavaText.IndexOfFrom | CompanyFounderFinder.java:223-228 | `indexOf(p, from)`: -1 or an occurrence at or after `from`, with no earlier occurrence from `from` on |
| JavaText.FirstOccurrence | CompanyFounderFinder.java:223-228 | an occurrence with none before it from `from` on is exactly what `indexOf` returns |
| JavaText.Trim | CompanyFounderFinder.java:89 | `trim()` gives a string with no trim character at either end, never longer than the input |
| JavaText.TrimIsMiddle | CompanyFounderFinder.java:89 | what `trim()` keeps is a contiguous middle of the input, and both removed margins are blank |
| JavaText.TrimPadded | CompanyFounderFinder.java:89 | trimming a trimmed string padded with blanks on both sides gives it back |
| JavaText.TrimLacks | CompanyFounderFinder.java:92 | trimming never introduces a character, so a URL without `)` stays without after `trim()` |
| JavaText.TrimTwice | CompanyFounderFinder.java:332-338 | trimming an already trimmed string changes nothing |
| JavaText.SplitAll | CompanyFounderFinder.java:83 | splitting gives at least one piece, no piece holds the separator, and joining the pieces with the separator rebuilds the input |
| JavaText.SplitAllFirst | CompanyFounderFinder.java:83 | the piece before the first separator is the first piece, and the rest splits on its own |
| JavaText.DropTrailingEmpty | CompanyFounderFinder.java:83 | what `split` keeps is a prefix of the pieces ending in a non-empty piece, and every dropped piece is empty |
| JavaText.JavaSplit | CompanyFounderFinder.java:83 | without the separator the whole string is the only piece, so an empty line gives one piece and is rejected; otherwise the pieces are the leading pieces up to the last non-empty one, only empty pieces are dropped, and no piece holds the separator |
| JavaText.RemoveChar | CompanyFounderFinder.java:92 | `replace(")", "")` leaves no `)` and never lengthens the string |
| JavaText.EqualsIgnoreCase | CompanyFounderFinder.java:341 | equal strings compare equal ignoring case, and strings that compare equal have the same length |
| CompanyLine.ParseCompanyData | CompanyFounderFinder.java:82-94 | a rejected line carries its own format error; an accepted line contains `(`, and its name and URL are trimmed and the URL has no `)` |
| CompanyLine.ParseAccepts | CompanyFounderFinder.java:83-93 | `a(b` followed by any number of `(`, with `b` non-empty and no `(` in `a` or `b`, parses to the trimmed `a` and the trimmed `b` without `)` |
| CompanyLine.ParseRejectsNoParen | CompanyFounderFinder.java:83-86 | a line without `(` is rejected |
| CompanyLine.ParseRejectsEmptyGroup | CompanyFounderFinder.java:83-86 | a line whose first `(` is followed only by `(` characters, or by nothing, is rejected |
| CompanyLine.ParseRejectsSecondGroup | CompanyFounderFinder.java:83-86 | a line with a second `(` followed by any character other than `(` is rejected |
| CompanyLine.ParseFormatted | CompanyFounderFinder.java:82-94 | `name (url)` with any blank padding parses back to the same name and URL |
| SearchHost.StripWww | CompanyFounderFinder.java:115-117 | a host starting with `www.` loses exactly those four characters; any other host is unchanged |
| SearchHost.StripWwwOnce | CompanyFounderFinder.java:115-117 | only one `www.` is dropped: `www.www.x` becomes `www.x` |
| PageBody.ExtractBody | CompanyFounderFinder.java:223-230 | the body slice is never longer than the page, and it is empty when either body tag is missing |
| PageBody.ExtractBodyOfPage | CompanyFounderFinder.java:223-230 | for `pre <body attrs> content </body> post`, with the first tags where expected, the slice is exactly `content` |
| PageBody.ExtractBodyCloseFirst | CompanyFounderFinder.java:223-246 | for `pre </body> mid <body attrs> rest` with those tags the first ones, the slice would start past its end, the exception is caught and the body is empty, whatever `attrs` holds |
| PageBody.StripScripts | CompanyFounderFinder.java:254-271 | the script-free text is never longer than the input, and its first `<script` (if any) has no `</script` after it |
| PageBody.RemoveScriptTags | CompanyFounderFinder.java:254-271 | the loop computes `StripScripts`; `None` stands for the exception when fewer than nine characters follow `</script` |
| PageBody.StripScriptsIdempotent | CompanyFounderFinder.java:257-270 | removing scripts from already-stripped text changes nothing |
| PageBody.FetchedText | CompanyFounderFinder.java:219-246 | the text kept from a page is never longer than the page, and its first `<script`, if any, has no `</script` after it |
| PageBody.StripScriptPage | CompanyFounderFinder.java:254-271 | text pieces, which may hold any markup but no `<script` even across their joins, separated by `<script …</script>` elements whose contents hold no `</script`, come back as the text pieces joined |
| PageBody.FetchBodyContent | CompanyFounderFinder.java:219-246 | computes `FetchedText`: non-200 gives the empty string; 200 gives the body slice with scripts removed, or the empty string when the removal throws |
| PageBody.FetchedScriptPage | CompanyFounderFinder.java:219-271 | a 200 page `pre <body attrs> t0 <script b0</script> t1 … </body> post`, with the first tags where expected, no `<script` in the joined text and no `</script` in a script body, yields exactly the text pieces joined |
| Chunker.ChunksShape | CompanyFounderFinder.java:280-291 | the chunks put back together are the text; each is 1 to `chunkSize` long; all but the last are full; empty text gives no chunks |
| Chunker.SplitIntoChunks | CompanyFounderFinder.java:280-291 | the loop that slices from the front computes `Chunks`, so its chunks rebuild the text and none is empty or longer than `chunkSize` |
| FounderList.MergeNew | CompanyFounderFinder.java:175-179 | merging keeps the old list as a prefix, holds exactly the old names and the new ones, and keeps a duplicate-free list duplicate-free |
| FounderList.MergeNewIsFirstOccurrences | CompanyFounderFinder.java:175-179 | the appended names are the first occurrences of names not yet in the list, in discovery order |
| FounderList.MergeNewBatches | CompanyFounderFinder.java:170-179 | merging two chunks' names one after the other equals merging them as one batch |
| FounderList.MergeNewRepeated | CompanyFounderFinder.java:175-179 | a name found again is not added again |
| FounderList.MergeFounders | CompanyFounderFinder.java:175-179 | the dedup-append loop computes `MergeNew`: existing entries keep their places, every new name ends up in the list, and no duplicate appears |
| ReplyParser.Candidates | CompanyFounderFinder.java:341 | a name passes the filter exactly when it is a piece that is non-empty and not `NONE` in any case |
| ReplyParser.ReplyPieces | CompanyFounderFinder.java:332-338 | the pieces of the trimmed reply split on commas are trimmed and hold no comma, and a reply without a comma is one piece, the trimmed reply |
| ReplyParser.SentinelSpellings | CompanyFounderFinder.java:341 | a piece equals `NONE` ignoring case exactly when it is four letters spelling `none` in any mix of cases |
| ReplyParser.FounderNames | CompanyFounderFinder.java:328-346 | the names of one reply have no duplicates, are trimmed pieces of the reply that are non-empty and not `NONE` in any case, and under status 200 include every such piece |
| ReplyParser.GetFounderNames | CompanyFounderFinder.java:328-346 | computes `FounderNames`: non-200 gives no names; otherwise the names are the trimmed comma pieces of the trimmed reply that are non-empty and not `NONE` in any case, each at its first occurrence, without duplicates, and every such piece is present; a reply of exactly `NONE` gives no names |
| ReplyParser.SentinelReply | CompanyFounderFinder.java:335 | a reply that trims to `NONE` yields no candidates |
| Finder.Leading | CompanyFounderFinder.java:150-152 | the visited links are a prefix of the search results: exactly the first five when there are at least five, or all of them when there are fewer |
| Finder.SearchForFounders | CompanyFounderFinder.java:150-191 | the company's list is the merge, from empty, of the names each chunk of each of the first five links' pages yields, in page order and then chunk order; so every such name is in it once, and it holds only trimmed names that are non-empty and not `NONE`; it stays empty when none of the first five links is non-empty |
| Finder.ProcessChunks | CompanyFounderFinder.java:170-179 | the loop over one page's chunks merges, chunk after chunk, the names each chunk's reply yields, which is merging all of them as one batch |
| Finder.SearchOutcome | CompanyFounderFinder.java:150-179 | the merged names of the leading links' chunks hold each such name once, all pass the filter and are trimmed, and are empty when no leading link is non-empty |
| Finder.MergedVisited | CompanyFounderFinder.java:170-179 | the merged names of the visited chunks hold each chunk name exactly once, and every one of them is a trimmed name that is non-empty and not `NONE` |
| Finder.NoLinksNoNames | CompanyFounderFinder.java:157 | empty links contribute no chunk |
| Results.CollectResults | CompanyFounderFinder.java:44-64 | the driver loop computes `Collect`: the parse of each line in turn, stored under the company name |
| Results.StoreStopsAt | CompanyFounderFinder.java:52 | the first line that fails to parse ends the run with that line's error, whatever follows |
| Results.StoreFails | CompanyFounderFinder.java:49-64 | over parsed lines, the run succeeds exactly when every line parsed, and a failure carries the error of a failed line with all earlier lines parsed |
| Results.CollectFails | CompanyFounderFinder.java:49-64 | the run fails exactly when some line does not parse, and then with the format error of the first such line |
| Results.StoreKeys | CompanyFounderFinder.java:63 | a successful run has an entry for every line's company name and no other entry |
| Results.StoreLastWins | CompanyFounderFinder.java:57-63 | over parsed lines, the entry of a name is the search result of the last line with that name |
| Results.CollectLastWins | CompanyFounderFinder.java:57-63 | a company's entry is the search result for the URL on the last line with that name |

## Left out

- The web search request, the page download and the model request are network calls. Each is a parameter or a `(status, text)` argument.
  - `Finder.SearchForFounders` takes `fetch` and `ask` functions.
  - `Results.CollectResults` takes `search`.
  - A download that throws is treated as a non-200 response.
- JSON parsing of the search response and the model response, and building the model request, are library calls. `Finder.SearchForFounders` starts from the list of result links, and the reply parser starts from the message content.
- URL host extraction with `java.net.URL` is a library parser. The host strip starts from a host string.
- Reading the companies file and `writeResultsToJSON` are I/O and library serialisation. The driver starts from the sequence of lines and ends with the map. The map's JSON output order depends on hash iteration and is not modelled.
- `Thread.sleep` pacing between model calls, logging and the prompt text have no logic worth verifying.
- Finder.SearchForFounders: exceptions from the JSON library inside the per-company loop, which end the loop early with the names gathered so far, are not modelled.
- Chunker.SplitIntoChunks: does not model 32-bit overflow of `i + chunkSize`, which needs text near 2^31 characters long.
- ReplyParser.GetFounderNames: `equalsIgnoreCase` folds ASCII letters only. Java also folds other Unicode letters. Only a comparison with the ASCII sentinel `NONE` is made.
- Chunker.SplitIntoChunks: Java strings are UTF-16 code units, so a Java chunk is 32768 code units and can split a surrogate pair. The model indexes characters, which agrees with the code on any text of 16-bit characters. The body-tag and script-tag searches are unaffected, because every token they look for is ASCII.
