# REX popup scan pipeline, in Dafny

REX is a browser extension. Its popup keeps a list of regular-expression patterns. It
fetches the current tab's document and every script whose `script[src]` element is in the
page's DOM when the popup collects them. It matches every pattern against every fetched
text, removes duplicate matches and lists the rest grouped by pattern and URL. This project models that pipeline from `popup.js` and
proves properties of it:

- **Pattern list** (`Popup.PatternList`, `Popup.Without`): saving a pattern appends it.
  Deleting a pattern filters out every entry equal to it.
- **Contents assembly** (`Records.Assemble`): the settled responses are zipped with the URLs
  they were fetched from. Response 0 belongs to the tab, and response i to script i-1.
- **Matching** (`Matcher.MatchWordsWithRegex`): patterns form the outer loop and resources
  the inner loop. Each element of a match result gives one `{pattern, content, match}`
  record. A null result gives no records. The regular-expression engine is a
  function-valued parameter:
  `engine(pattern, text)` stands for `text.match(new RegExp(pattern, "gi"))`, and `None`
  means a null result.
- **Deduplication** (`Deduplicator.RemoveDuplicates`): a stable filter keyed by the string
  `pattern|url|match`. The key is modelled as that string, not as a triple.
- **Grouping** (`Grouping.DisplayMatchedWords`): the loop of `displayMatchedWords` without
  the DOM. A new group opens whenever a record's (pattern, URL) pair differs from the
  previous record's pair. An empty input gives the "No matched words found." item
  (`NoMatches`).
- **One run** (`Popup.Scan`, `Popup.PatternList.Apply`): assembly, matching, deduplication
  and grouping in sequence.

The three loops of the source, `MatchWordsWithRegex`, `RemoveDuplicates` and
`DisplayMatchedWords`, are methods with loops. Each is proved equal to a specification
function (`AllRecords`, `Dedup`, `Runs`), and the properties are lemmas about those
functions. The pattern list is a class whose methods are specified by `Without` and `Scan`.

Behaviours of `popup.js` that are easy to misread:

- `deleteRegexPattern` removes every entry equal to the pattern, not only the first one
  (`Popup.Without`, `Popup.DeleteIdempotent`).
- A resource whose fetch failed is not skipped. Its content is `undefined`, so
  `content.content.match` throws as soon as there is at least one pattern. The promise's
  catch handler then logs the error, and the word list keeps the previous run's listing,
  because only `displayMatchedWords` clears it. After a deletion, the deleted pattern's
  groups may therefore stay on screen. The model states this as the outcome `Failed`
  (`Popup.Scan`). `MatchWordsWithRegex` itself requires fetched contents
  whenever the pattern list is non-empty.
- The deduplication key is a string, so two different triples can share a key when a
  pattern or URL contains `|`. In that case the second record is dropped
  (`Deduplicator.KeyCollision`). The triple claims hold once patterns and URLs contain no
  `|` (`Deduplicator.KeyInjective`, `Deduplicator.DedupKeepsEveryTriple`).
- It is not true in general that the raw records of a (pattern, URL) pair are contiguous: a
  pattern saved twice splits them (`Popup.RawRecordsNotContiguous`). After deduplication,
  though, each pair gets at most one group whenever the tab and script URLs are distinct,
  repeated patterns included (`Popup.GroupsDistinct`, via `Popup.DedupNub`). Saving a pattern
  that is already in the list leaves the word list unchanged (`Popup.ReAddInvisible`),
  while the pattern list then shows it twice, with two Delete buttons.
- A group is split by its pattern, but only its URL and matched texts are rendered. Two
  adjacent groups with different patterns over one URL therefore look like two items with
  the same URL.

## Model

| member | source | states |
|---|---|---|
| `Records.Assemble` | popup.js:36-39 | one resource per settled response |
| `Records.AssembleUnzips` | popup.js:31-39 | the URLs of the contents are the tab URL followed by the script URLs in order, and their contents are the responses in order |
| `Records.AssembleOfUnzipped` | popup.js:36-39 | any non-empty contents list is the assembly of its own URLs and responses, so assembly loses nothing |
| `Matcher.MatchWordsWithRegex` | popup.js:74-91 | the result is exactly the concatenation over patterns (outer) and resources (inner) of one record per element of each non-null match result |
| `Matcher.MatchPattern` | popup.js:77-88 | the outer callback for one pattern appends exactly that pattern's records over all resources, in resource order |
| `Matcher.PushMatches` | popup.js:80-87 | the records pushed for one resource are one per element of its match result, in order, appended after the earlier records; a null result pushes none |
| `Matcher.ResourceRecords` | popup.js:81-86 | one record per matched text of the resource |
| `Matcher.AllRecordsAppend` | popup.js:77-88 | the records for a concatenated pattern list are the first list's records followed by the second's (pattern-major order) |
| `Matcher.PatternRecordsAppend` | popup.js:80-87 | one pattern's records for a concatenated contents list are those of the first part followed by those of the second (resource-minor order) |
| `Matcher.SingletonRecords` | popup.js:81-86 | one pattern on one resource gives that resource's match records |
| `Matcher.AllRecordsEmpty` | popup.js:74-91 | an empty pattern list or an empty contents list gives no records |
| `Matcher.PatternRecordsSound` | popup.js:80-86 | each record of one pattern carries that pattern, a listed resource and an element of a non-null match result |
| `Matcher.AllRecordsSound` | popup.js:77-86 | each record's pattern is listed, its resource is listed and fetched, and its text is an element of a non-null match result |
| `Matcher.PatternRecordsComplete` | popup.js:80-86 | every matched text of the pattern in a listed resource has a record |
| `Matcher.AllRecordsComplete` | popup.js:77-86 | every matched text of every listed pattern in every listed resource has a record |
| `Deduplicator.RemoveDuplicates` | popup.js:104-117 | the loop with the set of seen keys returns exactly the stable first-occurrence filter `Dedup` |
| `Deduplicator.DedupKeys` | popup.js:108-114 | the kept records have exactly the keys of the input, so every input key appears in the output |
| `Deduplicator.DedupUnique` | popup.js:109-113 | no two kept records share a key |
| `Deduplicator.DedupTriplesUnique` | popup.js:109-113 | no two kept records share a (pattern, URL, text) triple |
| `Deduplicator.DedupSubsequence` | popup.js:108-114 | the output is a subsequence of the input, so relative order is preserved |
| `Deduplicator.DedupKeepsFirst` | popup.js:110-113 | the first record with each key is kept |
| `Deduplicator.DedupOnlyFirst` | popup.js:110-113 | each kept record is the first input record with its key |
| `Deduplicator.DedupOfUnique` | popup.js:104-117 | input whose keys are already unique comes back unchanged |
| `Deduplicator.DedupIdempotent` | popup.js:104-117 | deduplicating twice gives the same result as deduplicating once |
| `Deduplicator.DedupAppendSeen` | popup.js:108-114 | appending records whose keys were already seen does not change the result |
| `Deduplicator.DedupAppendCongruent` | popup.js:108-114 | records appended after two blocks with the same deduplicated form are kept or dropped alike |
| `Deduplicator.KeyInjective` | popup.js:109 | when patterns and URLs contain no `\|`, two records have the same key exactly when they have the same triple |
| `Deduplicator.DedupKeepsEveryTriple` | popup.js:108-114 | under that condition, every input triple is carried by a kept record |
| `Deduplicator.KeyCollision` | popup.js:109 | without that condition, records with different triples can share a key, and the second one is dropped |
| `Grouping.DisplayMatchedWords` | popup.js:168-213 | an empty input gives exactly the "No matched words found." state; otherwise the loop over `currentPattern`/`currentUrl` gives exactly the groups `Runs` |
| `Grouping.ShowMatch` | popup.js:183-211 | the callback for one record performs one step of the pass, and `currentPattern`/`currentUrl` then hold the last item's pair |
| `Grouping.RunsFlatten` | popup.js:183-211 | each group's pair paired with each of its texts, group after group, is exactly the records' (pattern, URL, text) sequence, so every record is in a group with its own pair |
| `Grouping.RunsWords` | popup.js:207-210 | the groups' match lists, concatenated in order, are exactly the input match sequence |
| `Grouping.RunsMaximal` | popup.js:184-205 | every group is non-empty and adjacent groups never have the same (pattern, URL) pair |
| `Grouping.RunsUnique` | popup.js:183-211 | any non-empty, adjacent-distinct group sequence with the records' entries is the pass's result |
| `Grouping.RunsLast` | popup.js:184-187 | the last group's pair is the last record's pair |
| `Grouping.RunsPairsDistinct` | popup.js:184-205 | when each pair's records are contiguous, no pair is listed in two groups |
| `Grouping.ContiguousSubsequence` | popup.js:108-114 | deduplication, like any subsequence, keeps contiguous pairs contiguous |
| `Popup.Without` | popup.js:145 | the result holds exactly the entries different from the pattern, and it has the multiset of the list with the pattern's count set to zero |
| `Popup.WithoutSubsequence` | popup.js:145 | deletion keeps the other patterns in their original order |
| `Popup.WithoutAbsent` | popup.js:145 | deleting a pattern that is not listed changes nothing |
| `Popup.AddThenDelete` | popup.js:95 | deleting a pattern just after saving it gives the list without the pattern |
| `Popup.DeleteIdempotent` | popup.js:133-158 | deleting twice is the same as deleting once; one click on a Delete button runs the deletion twice, once from the button's listener and once from the list's delegated listener |
| `Popup.Scan` | popup.js:34-46 | a run fails (the catch handler logs, and the word list keeps its previous listing) exactly when there is at least one pattern and some response is missing |
| `Popup.DeleteDropsItsRecords` | popup.js:145 | after a deletion, the match records are the earlier records without that pattern's records, in the same order |
| `Popup.PatternRecordsIncluded` | popup.js:77-88 | the records of a listed pattern are among all records |
| `Popup.ReAddInvisible` | popup.js:94-95 | saving a pattern that is already listed leaves the run's outcome unchanged |
| `Popup.NothingFoundIff` | popup.js:172-176 | "No matched words found." is shown exactly when no listed pattern matches in any listed resource |
| `Popup.PatternRecordsContiguous` | popup.js:80-87 | one pattern's records over resources with distinct URLs keep each pair contiguous |
| `Popup.AllRecordsContiguous` | popup.js:77-88 | with distinct patterns and distinct URLs, each pair's records are contiguous |
| `Popup.Nub` | popup.js:95 | the pattern list without repeats has the same patterns, each once |
| `Popup.DedupNub` | popup.js:95-117 | after deduplication, the records of a pattern list with repeats (which saving allows) equal those of the list without repeats |
| `Popup.GroupsDistinct` | popup.js:40-42 | with distinct tab and script URLs, each (pattern, URL) pair is shown in at most one group, whether or not a pattern was saved twice |
| `Popup.RawRecordsNotContiguous` | popup.js:77-88 | before deduplication, patterns "p", "q", "p" over one resource give records in which the two "p" records are separated |
| `Popup.TokenExample` | popup.js:40-42 | pattern `token` on a page whose text is `token TOKEN once` shows one group listing `token` and `TOKEN` |
| `Popup.PatternList.Load` | popup.js:4-5 | the list is the stored list, or empty when nothing was stored |
| `Popup.PatternList.Add` | popup.js:94-95 | the pattern is appended at the end and the earlier entries are unchanged |
| `Popup.PatternList.Delete` | popup.js:144-145 | the list becomes `Without` of the old list, so it no longer contains the pattern |
| `Popup.PatternList.Apply` | popup.js:34-43 | the callback's outcome, using the pattern list as it is when the callback runs, is `Scan` |

## Left out

- Browser APIs: the extension's synced storage (reading at load and writing after each
  change), the tab query, and the script injection with `captureScriptUrls`. These are host
  I/O. The model takes the stored list, the tab URL, the script URLs and the responses as
  parameters.
- `fetchUrlContent` and `fetch`: this is network I/O. A failed fetch is represented by a
  `None` response.
- `Promise.all`: the fan-out and fan-in are asynchronous. The model starts from the settled
  responses, in order.
- The regular-expression engine: it is a parameter. The model does not capture
  case-insensitive, global matching itself.
- `new RegExp` throwing on an invalid pattern: the engine is total in the model. In the
  source, such a pattern also ends the run in the catch handler.
- Re-running the pipeline after a save or delete: in the source this is the storage
  callback. The model keeps `Add`/`Delete` and `Apply` separate, and `ReAddInvisible` and
  `DeleteDropsItsRecords` relate them.
- Races between overlapping runs: a slower, older run can overwrite a newer run's display.
  This is concurrency and is not modelled.
- DOM work: `displayRegexPatterns`, `clearWordList`, the event listeners, the element
  creation and styling in `displayMatchedWords`, and the log messages. This is user
  interface only; the grouping logic is kept.

In `Grouping.DisplayMatchedWords` and `Grouping.ShowMatch`, the `None` start values stand for the initial `null`s of
`currentPattern` and `currentUrl`. A record's pattern and URL are strings, so they never
equal `null`, and the first record always opens a group.
