# AI GitHub Analyzer — a verified model of its core

The service takes a GitHub repository URL and fetches every readable file of
the repository through the GitHub contents API. It summarises each file chunk
by chunk with a Gemini model, then writes a project report built from batches
of five file summaries. When Gemini reports a quota or rate-limit failure, an
OpenAI model is asked instead. This project models three deterministic parts
of that service as pure Dafny functions and proves properties about them.

- **`Fetcher`** (`utils/github_fetcher.py`) models the tree fetch.
  - A listing is a tree: an error, a single file object, or a directory array of file, directory and other entries.
  - Each file carries its download outcome.
  - The insertion-ordered dict is a sequence of `(path, value)` pairs with Python's update semantics.
  - Two reassembly loops are modelled: the placeholder scan as written (`ScanForPlaceholders`), and a corrected one that gives each path its own task's result (`ZipByPath`).
  - `FetchFiles` and `App.AnalyzeRepo` take the loop as a parameter. The service as written is the `ScanForPlaceholders` instance, and every statement about the service is proved for both loops or for that one.
- **`Summarizer`**, **`Completion`** and **`Chunker`** (`utils/summarizer.py`) model the summaries.
  - `Completion` holds the quota/429 fallback rule.
  - `Summarizer` holds the per-file summary, the batching of the project report, its header and its file name.
  - `Chunker` is the chunker, a greedy word packer standing in for `textwrap.wrap`.
  - Model providers are total functions from a prompt to an outcome (`Ok(text)` or `Err(message)`).
  - Every call is recorded, so which provider was asked, and how often, can be stated.
- **`App`** (`main.py`) models the request handler.
  - It holds a recogniser for the repository-URL pattern.
  - It holds the ordered 400 / 500 / 404 decisions.
  - It builds the per-file summary list and the response fields.
- **`Text`**, **`Seqs`** and **`Wrappers`** hold the string, sequence and option helpers the other modules share.

What becomes a parameter:
- The contents API answers are a function from `(owner, repo)` to the root `Listing`.
- The clock is a `timestamp` string.
- The outcome of writing the report file is an optional error message.

Some behaviours of the code are easy to miss:
- Content made only of ASCII whitespace has no chunks, so its summary is empty and no model is asked.
- A root listing that is a single file object keeps that file only when its text is non-empty.
- A file whose download failed stays in the map as `None`. `summarize_file` then raises on it, and the request ends in 500 "Internal Server Error".
- With the reassembly loop as written, a failed download inside a subdirectory makes the parent directory raise `IndexError` when that parent has a file of its own. The request then ends in 500 "Error fetching files: list index out of range" (see "## Findings").

## Model

| member | source | states |
|---|---|---|
| `Text.Lower` | utils/github_fetcher.py:45 | `str.lower` keeps the length, leaves no ASCII capital, and changes a character exactly when it is a capital |
| `Text.LowerIdempotent` | utils/summarizer.py:69 | lower-casing an already lower-cased text changes nothing |
| `Text.StripBounds` | utils/summarizer.py:67 | everything `strip()` removes is whitespace, and what it keeps neither starts nor ends with whitespace |
| `Text.Decimal` | utils/summarizer.py:73 | the text of a chunk or batch number is a run of digits without leading zero whose value is the number |
| `Text.JoinConcat` | utils/summarizer.py:75 | joining two non-empty lists one after the other gives the first join, the separator, then the second join |
| `Chunker.Tokenize` | utils/summarizer.py:26-27 | the text is cut into (whitespace, word) pieces that spell it out up to trailing whitespace; there are no pieces exactly when the text is all whitespace |
| `Chunker.TokenizeFlatten` | utils/summarizer.py:26-27 | cutting the text that well-formed pieces make up gives back those pieces |
| `Chunker.Pack` | utils/summarizer.py:26-27 | greedy packing keeps every piece once and in order; a line is within the width unless it is a single word; no line could have taken the next line's first word |
| `Chunker.ChunkContent` | utils/summarizer.py:26-27 | chunks are non-empty and within the width unless a single long word; there are no chunks exactly when the content is all whitespace |
| `Chunker.ChunkContentWords` | utils/summarizer.py:26-27 | chunking never splits a word and keeps text order: the chunks' words, read in order, are the content's words |
| `Chunker.ChunkContentRebuild` | utils/summarizer.py:26-27 | putting back the dropped whitespace in front of each chunk rebuilds the content up to trailing whitespace |
| `Completion.Complete` | utils/summarizer.py:65-73 | the primary model is asked once; the fallback is asked once exactly on a quota/429 failure; the text is the stripped answer, the fallback text, or the error prefix followed by the message |
| `Completion.QuotaErrorIgnoresCase` | utils/summarizer.py:69 | the fallback test gives the same answer for a message and its lower-cased form |
| `Completion.QuotaErrorExamples` | utils/summarizer.py:69 | "QUOTA" and "429 rate limited" switch to the fallback; "timeout" does not |
| `Completion.RepliesTrace` | utils/summarizer.py:103-111 | one guarded call per prompt asks the primary model for exactly those prompts in order, and the fallback for exactly the quota/429 failures among them |
| `Summarizer.ChunkReplies` | utils/summarizer.py:47-73 | one reply per chunk in chunk order, each from the guarded call on the prompt numbered `i` of `len(chunks)` with that chunk's error prefix |
| `Summarizer.SummarizeFileCalls` | utils/summarizer.py:44-73 | `summarize_file` asks the file model exactly once per chunk, numbered 1..n, and the fallback exactly for the chunks that failed on quota/429 |
| `Summarizer.SummarizeFileText` | utils/summarizer.py:47-75 | the summary is one result per chunk, in chunk order, joined by a blank line; each result is the model text, the fallback text, or "Error summarizing chunk i of path: e" |
| `Summarizer.SummarizeBlankFile` | utils/summarizer.py:44-47 | content without a word gives the empty summary and makes no model call |
| `Summarizer.BatchBounds` | utils/summarizer.py:82-83 | batch k starts at 5k; every batch is non-empty, all but the last hold exactly five, and the bounds depend on the count alone |
| `Summarizer.BatchReplies` | utils/summarizer.py:82-111 | one reply per batch, in batch order, each from the guarded call on the batch's summaries joined by a blank line, numbered from 1 |
| `Summarizer.ReportFilename` | utils/summarizer.py:113 | the file name is the project name with each space replaced by "_", followed by "_summary.md", and it contains no space |
| `Summarizer.SummarizeProjectCalls` | utils/summarizer.py:82-111 | `summarize_project` asks the project model exactly ceil(n/5) times, once per batch in order, and the fallback exactly for the batches that failed on quota/429 |
| `Summarizer.SummarizeProjectReport` | utils/summarizer.py:79-117 | the report is the header, then one section per batch in batch order, each the model text, fallback text or "Error summarizing batch k: e" plus a blank line; the value returned is the file name |
| `Summarizer.BatchSection` | utils/summarizer.py:103-111 | one batch's guarded call gives the section `IsBatchSection` describes |
| `Summarizer.BatchesPartition` | utils/summarizer.py:82-83 | the batches, read in order, are exactly the summaries |
| `Summarizer.BatchesJoin` | utils/summarizer.py:82-84 | joining each batch and then joining the batch texts gives the join of all summaries |
| `Fetcher.Put` | utils/github_fetcher.py:53 | `d[key] = v` appends a new key last and leaves the key order alone for an existing key |
| `Fetcher.PutLookup` | utils/github_fetcher.py:53 | after `d[key] = v`, `key` maps to `v` and every other key keeps its value |
| `Fetcher.Lookup` | utils/github_fetcher.py:65 | a key is found exactly when it is among the dict's keys |
| `Fetcher.MergeLookup` | utils/github_fetcher.py:57 | after `d.update(e)`, a key of `e` has its value from `e` and every other key its value from `d` |
| `Fetcher.MergeFresh` | utils/github_fetcher.py:57 | merging pairs whose keys are new and distinct appends them in order |
| `Fetcher.Assignments` | utils/github_fetcher.py:50-61 | the corrected hand-back is `zip(paths, results)`: the i-th task's path paired with the i-th result of `gather` |
| `Fetcher.FetchDirFailure` | utils/github_fetcher.py:26-28 | a failed listing at any depth aborts the fetch with either loop, and a listing error that is reported is the first failed listing in depth-first order; with the corrected loop nothing else aborts it |
| `Fetcher.WalkSkeleton` | utils/github_fetcher.py:41-57 | the loop over a directory's entries leaves a `None` placeholder and a task for each non-binary file and a subdirectory's whole result, in listing order |
| `Fetcher.FillSkeleton` | utils/github_fetcher.py:59-67 | giving each task's result to its own path turns the placeholders into the reference result |
| `Fetcher.CorrectedFetch` | utils/github_fetcher.py:24-69 | with the corrected loop, a tree with no failed listing and distinct paths fetches to the reference result: each kept file once, in discovery order, with its own download |
| `Fetcher.ScanFailsIff` | utils/github_fetcher.py:63-67 | the loop as written raises `IndexError` exactly when more keys hold `None` than there are results |
| `Fetcher.ScanAgrees` | utils/github_fetcher.py:63-67 | when the `None` keys are exactly the tasks' paths in task order, the loop as written gives each file its own task's result |
| `Fetcher.NonePathsCount` | utils/github_fetcher.py:53-57 | after the walk there is at least one `None` per own task, and more as soon as a merged subdirectory holds a `None` |
| `Fetcher.BreaksHoldsNone` | utils/github_fetcher.py:53-67 | a tree in which some directory breaks has a `None` in its reference result |
| `Fetcher.KeepAllNone` | utils/github_fetcher.py:13-21 | the reference result holds a `None` exactly when the download of a kept file failed |
| `Fetcher.ReassembleAsWritten` | utils/github_fetcher.py:59-67 | when every subdirectory fetches to its reference result, the loop as written raises `IndexError` exactly when the directory has a file of its own and some subdirectory's result holds `None`, and otherwise gives the reference result |
| `Fetcher.AsWrittenFetch` | utils/github_fetcher.py:24-69 | the fetch as written, on a tree with no failed listing and distinct paths, raises `IndexError` exactly when some directory at any depth breaks, and otherwise gives the reference result |
| `Fetcher.BreakBeforeLaterFailure` | utils/github_fetcher.py:54-57 | the walk as written raises `IndexError` at the first subdirectory that breaks, even when a later subdirectory's listing would fail: that listing is never requested |
| `Fetcher.AsWrittenAgrees` | utils/github_fetcher.py:59-67 | when no subdirectory's result holds `None`, the loop as written gives the same result as the corrected one |
| `Fetcher.AsWrittenComplete` | utils/github_fetcher.py:24-69 | a tree whose result holds no `None` is fetched correctly by the loop as written |
| `Fetcher.NestedFailureBreaksScan` | utils/github_fetcher.py:54-67 | a directory with an own kept file and a subdirectory whose result holds a failed download, at any depth, aborts with `IndexError` under the loop as written, and succeeds under the corrected one |
| `Fetcher.NestedFailureExample` | utils/github_fetcher.py:54-67 | on `src/x.py` failing plus `README.md`, the loop as written raises `IndexError`; the corrected loop gives `src/x.py: None, README.md: "hi"` |
| `Fetcher.NotBinary` | utils/github_fetcher.py:45-47 | a name with no dot where a skipped extension's dot would stand is not binary |
| `Fetcher.KeepAllSound` | utils/github_fetcher.py:34-57 | every pair of the reference result is a kept file with its own download |
| `Fetcher.KeepAllComplete` | utils/github_fetcher.py:34-57 | every kept file is in the reference result with its own download |
| `Fetcher.KeepAllExcludes` | utils/github_fetcher.py:45-49 | with unique paths, no key of the reference result is the path of a file left out |
| `Fetcher.KeepAllDistinct` | utils/github_fetcher.py:42-57 | unique paths make the result's keys distinct: each file appears once |
| `Fetcher.FetchFilesFails` | utils/github_fetcher.py:72-84 | a failed listing anywhere aborts `fetch_files`, and a reported listing error is the first one; without a failed listing, the loop as written raises `IndexError` exactly when some directory breaks, and the corrected fetch never aborts |
| `Fetcher.FetchFilesContents` | utils/github_fetcher.py:72-84 | with unique paths, `fetch_files` succeeds exactly when no listing fails and, for the loop as written, no directory breaks; it then maps each non-binary file at any depth once, in discovery order, to its own download or `None`; a binary file, or a lone file without text, is never a key |
| `App.ParseNamesSound` | main.py:15 | what the name recogniser accepts is two names, "/" between them, then an allowed ending |
| `App.ParseSound` | main.py:15 | every accepted URL matches the pattern with the returned groups |
| `App.ParseComplete` | main.py:15 | every URL matching the pattern is accepted with its own groups, so the groups are determined by the URL |
| `App.ParseNamesOf` | main.py:15 | after two names and "/", the URL is accepted exactly when the rest is "", "/", "\n" or "/\n" |
| `App.AcceptedHasNoDot` | main.py:15 | an accepted URL has no "." after the prefix |
| `App.ParseAcceptsPlain` | main.py:15 | `https://github.com/octo-cat/my_repo` gives the groups `octo-cat` and `my_repo` |
| `App.ParseAcceptsSlash` | main.py:15 | the same URL with a final "/" gives the same groups |
| `App.ParseRejectsSubpage` | main.py:15 | a URL with a further path segment after the repository is rejected |
| `App.ParseRejectsDot` | main.py:15 | a repository name followed by "." (as in `repo.git`) is rejected |
| `App.ParseRejectsHttp` | main.py:15 | an `http://` URL is rejected |
| `App.FileSummaries` | main.py:51-53 | one entry `path + ":\n" + summary` per file, in map order; no list at all when some content is `None` |
| `App.InvalidUrlRejected` | main.py:32-37 | a URL is answered with 400 exactly when it does not match, with the fixed detail, and without consulting the server |
| `App.FetchErrorIs500` | main.py:42-45 | a failed listing anywhere gives 500 "Error fetching files: " followed by that failure or, as written, by "list index out of range"; without a failed listing, the service as written answers 500 "Error fetching files: list index out of range" exactly when some directory breaks |
| `App.DecisionOrder` | main.py:42-59 | after a valid URL: a fetch error gives 500, an empty map 404, a `None` content 500, and success happens exactly when the map is non-empty, complete and the report is written |
| `App.SuccessFields` | main.py:39-65 | a success names the repository `owner/repo` from the URL's groups, counts the map's entries, and returns "Project_summary.md" |
| `App.ProjectReportName` | utils/summarizer.py:113 | the default project's report is written to "Project_summary.md" |
| `App.SuccessMeansAllDownloaded` | main.py:42-53 | a success implies that no listing failed, that no directory broke in the service as written, and that every non-binary listed file downloaded |

## Left out

- HTTP I/O: the requests, `raise_for_status`, auth headers and environment configuration are not modelled. Listings and download outcomes are input data, and a listing error carries its message.
- Concurrency: `asyncio.gather` is modelled as the ordered sequence of results it returns.
- The language models are not modelled. They are given functions from a prompt to an outcome. A prompt keeps only its path, chunk index, chunk count and chunk, or the joined batch; the fixed instruction text is left out.
- The clock (`datetime.now()`) is a timestamp parameter. The report file write is modelled only by its content, its name and an optional write error.
- The `/` liveness handler, FastAPI routing and `print` logging are not modelled.
- Chunker.ChunkContent: `textwrap.wrap` is modelled as a greedy packer of words separated by ASCII whitespace. Tab expansion, splitting after hyphens and the handling of leading whitespace on the first line are not modelled. Nor is `drop_whitespace` on words made only of non-ASCII whitespace, such as U+00A0: `textwrap` splits only at ASCII whitespace but drops a word at the start or end of a line when `strip()` leaves nothing. So content made only of such characters gives no chunk in Python, but one chunk and one model call here.
- Text.Lower: lower-cases ASCII capitals only; Python's `str.lower` also maps other Unicode capitals.
- App.ParseRepoUrl: `\w` is modelled as ASCII letters, digits and `_`. Python's Unicode word characters are wider.
- A root listing that is a JSON object other than a file (for example a symlink object) is not modelled. Python would iterate over its keys and fail; a directory always lists as an array.
- Fetcher.FetchFilesFails: when a tree both breaks and has a failed listing, the model states that the error is either `IndexError` or the first failed listing. It does not state which one comes first in general; `Fetcher.BreakBeforeLaterFailure` covers a break met before the failed listing.
- The exception types are not modelled. A failed download is `None` whatever the cause. The `IndexError` message is rendered as "list index out of range".

## Findings

| source | as written | input that shows it | evidently intended | confidence | as-written member | corrected member |
|---|---|---|---|---|---|---|
| utils/github_fetcher.py:54-67 | the reassembly loop gives `results[i]` to every key still holding `None`, including keys merged in from subdirectories whose download failed | root lists directory `src` holding `x.py`, whose download fails, then `README.md` with text "hi": the loop gives "hi" to `src/x.py`, then indexes past the single result and the whole fetch raises `IndexError` | each task's result goes to its own path (`files.update(zip(paths, results))`): `src/x.py` stays `None` and `README.md` gets "hi" | high; not executed | `Fetcher.NestedFailureExample` | `Fetcher.CorrectedFetch` |

The service as written is `App.AnalyzeRepo` with `ScanForPlaceholders`, and `App.FetchErrorIs500` states its answer to this input. The corrected loop is the `ZipByPath` instance of the same functions.
