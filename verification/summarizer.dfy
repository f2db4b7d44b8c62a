/** `summarize_file` and `summarize_project` (utils/summarizer.py). A file
    is chunked, each chunk goes through the guarded completion call with a
    prompt numbered `i/n`, and the per-chunk texts are joined by a blank
    line. A project's file summaries are cut into batches of five, each batch
    joined and sent to the project model; the report is a header followed by
    one section per batch; the value returned is the report's file name. */
module Summarizer {
  import opened Text
  import opened Seqs
  import opened Chunker
  import opened Completion

  const ChunkSize: int := 4000
  const BatchSize: nat := 5
  const Separator: string := "\n\n"

  /** The two configured Gemini models and the OpenAI fallback. */
  datatype Providers = Providers(fileModel: Prompt -> Outcome, projectModel: Prompt -> Outcome, openAI: Prompt -> Outcome)

  function ChunkErrorPrefix(path: string, index: nat): string
  {
    "Error summarizing chunk " + Decimal(index) + " of " + path + ": "
  }

  /** The prompts for a file's chunks: chunk `i` (from 1) of `n`. */
  function FilePrompts(path: string, chunks: seq<string>): seq<Prompt>
  {
    seq(|chunks|, i requires 0 <= i < |chunks| => FilePrompt(path, i + 1, |chunks|, chunks[i]))
  }

  /** The guarded call on chunk `i` (from 0): its prompt numbers the chunk
      `i + 1` of `|chunks|`, and so does its error text. */
  function ChunkReply(prov: Providers, path: string, chunks: seq<string>, i: nat): Reply
    requires i < |chunks|
  {
    Complete(prov.fileModel, prov.openAI, FilePrompt(path, i + 1, |chunks|, chunks[i]), ChunkErrorPrefix(path, i + 1))
  }

  /** The replies for `chunks[k..]`, one per chunk and in chunk order, each
      from the guarded call on that chunk's own prompt. */
  function ChunkReplies(prov: Providers, path: string, chunks: seq<string>, k: nat): (rs: seq<Reply>)
    requires k <= |chunks|
    ensures |rs| == |chunks| - k
    ensures forall j :: 0 <= j < |rs| ==> k + j < |chunks| && rs[j] == ChunkReply(prov, path, chunks, k + j)
    decreases |chunks| - k
  {
    if k == |chunks| then []
    else [ChunkReply(prov, path, chunks, k)] + ChunkReplies(prov, path, chunks, k + 1)
  }

  /** `summarize_file(path, content)`: the summary text and the model calls
      made for it. */
  function SummarizeFile(prov: Providers, path: string, content: string): Reply
  {
    var chunks := ChunkContent(content, ChunkSize);
    var rs := ChunkReplies(prov, path, chunks, 0);
    Reply(Join(Separator, TextsOf(rs)), CallsOf(rs))
  }

  /** What `summarize_file` appends for chunk `i` of `n`: the stripped model
      text, the fallback's text after a quota or rate-limit failure, or the
      inline error naming the chunk and the file. */
  predicate IsChunkResult(prov: Providers, path: string, i: nat, n: nat, chunk: string, text: string)
  {
    var p := FilePrompt(path, i, n, chunk);
    match prov.fileModel(p)
    case Ok(t) => text == Strip(t)
    case Err(e) =>
      if IsQuotaError(e) then text == FallbackText(prov.openAI(p))
      else text == "Error summarizing chunk " + Decimal(i) + " of " + path + ": " + e
  }

  /** `summarize_file` asks the file model exactly once per chunk, numbered
      1..n out of n, in chunk order; it asks the fallback exactly for the
      chunks whose primary call failed with a quota or rate-limit message. */
  lemma {:induction false} SummarizeFileCalls(prov: Providers, path: string, content: string)
    ensures var chunks := ChunkContent(content, ChunkSize);
            var r := SummarizeFile(prov, path, content);
            && Primaries(r.calls) == FilePrompts(path, chunks)
            && Fallbacks(r.calls) == QuotaFailures(prov.fileModel, FilePrompts(path, chunks))
  {
    var chunks := ChunkContent(content, ChunkSize);
    var rs := ChunkReplies(prov, path, chunks, 0);
    var prompts := FilePrompts(path, chunks);
    var prefixes := seq(|chunks|, i requires 0 <= i < |chunks| => ChunkErrorPrefix(path, i + 1));
    forall i | 0 <= i < |rs|
      ensures rs[i] == Complete(prov.fileModel, prov.openAI, prompts[i], prefixes[i])
    {
      assert rs[i] == ChunkReply(prov, path, chunks, i);
    }
    RepliesTrace(prov.fileModel, prov.openAI, prompts, prefixes, rs);
    assert SummarizeFile(prov, path, content).calls == CallsOf(rs);
  }

  /** The summary is one result per chunk, in chunk order, joined by a blank
      line; each result is the model text, the fallback text, or the inline
      error for that chunk. */
  lemma {:induction false} SummarizeFileText(prov: Providers, path: string, content: string)
    ensures var chunks := ChunkContent(content, ChunkSize);
            exists parts: seq<string> ::
              && |parts| == |chunks|
              && SummarizeFile(prov, path, content).text == Join(Separator, parts)
              && forall i :: 0 <= i < |parts| ==> IsChunkResult(prov, path, i + 1, |chunks|, chunks[i], parts[i])
  {
    var chunks := ChunkContent(content, ChunkSize);
    var rs := ChunkReplies(prov, path, chunks, 0);
    var parts := TextsOf(rs);
    forall i | 0 <= i < |parts|
      ensures IsChunkResult(prov, path, i + 1, |chunks|, chunks[i], parts[i])
    {
      assert parts[i] == ChunkReply(prov, path, chunks, i).text;
    }
  }

  /** Content without any word gives the empty summary and calls no model. */
  lemma {:induction false} SummarizeBlankFile(prov: Providers, path: string, content: string)
    requires AllWrapSpace(content)
    ensures SummarizeFile(prov, path, content) == Reply("", [])
  {
  }

  /** Number of batches for `n` summaries: `ceil(n / 5)`. */
  function BatchCount(n: nat): nat
  {
    (n + BatchSize - 1) / BatchSize
  }

  /** Where batch `k` (from 0) starts and ends; it depends on `n` alone. */
  function BatchBounds(n: nat, k: nat): (b: (nat, nat))
    requires k < BatchCount(n)
    ensures b.0 < b.1 <= n
    ensures b.0 == k * BatchSize
    ensures b.1 - b.0 <= BatchSize
    ensures k < BatchCount(n) - 1 ==> b.1 - b.0 == BatchSize
  {
    var lo := k * BatchSize;
    (lo, if lo + BatchSize <= n then lo + BatchSize else n)
  }

  function Batch(summaries: seq<string>, k: nat): seq<string>
    requires k < BatchCount(|summaries|)
  {
    var b := BatchBounds(|summaries|, k);
    summaries[b.0..b.1]
  }

  function BatchErrorPrefix(number: nat): string
  {
    "Error summarizing batch " + Decimal(number) + ": "
  }

  /** The guarded call on batch `k` (from 0): its prompt holds the batch's
      summaries joined by a blank line, and its error text numbers the batch
      `k + 1`. */
  function BatchReply(prov: Providers, summaries: seq<string>, k: nat): Reply
    requires k < BatchCount(|summaries|)
  {
    Complete(prov.projectModel, prov.openAI, ProjectPrompt(Join(Separator, Batch(summaries, k))), BatchErrorPrefix(k + 1))
  }

  /** The replies of the batch loop from batch `k` (the one starting at
      position `5k`) on: one per remaining batch, in batch order, each from
      the guarded call on that batch. */
  function BatchReplies(prov: Providers, summaries: seq<string>, k: nat): (rs: seq<Reply>)
    requires k <= BatchCount(|summaries|)
    ensures |rs| == BatchCount(|summaries|) - k
    ensures forall j :: 0 <= j < |rs| ==> rs[j] == BatchReply(prov, summaries, k + j)
    decreases BatchCount(|summaries|) - k
  {
    if k == BatchCount(|summaries|) then []
    else
      var tail := BatchReplies(prov, summaries, k + 1);
      var rs := [BatchReply(prov, summaries, k)] + tail;
      assert forall j :: 1 <= j < |rs| ==> rs[j] == tail[j - 1];
      rs
  }

  function ReportHeader(projectName: string, timestamp: string): string
  {
    "# " + projectName + " - Comprehensive Summary\n\n" + "Generated on " + timestamp + "\n\n"
  }

  /** The report file name: the project name with every space turned into
      an underscore, then "_summary.md". */
  function ReportFilename(projectName: string): (f: string)
    ensures |f| == |projectName| + |"_summary.md"|
    ensures EndsWith(f, "_summary.md")
    ensures forall i :: 0 <= i < |projectName| ==> f[i] == (if projectName[i] == ' ' then '_' else projectName[i])
    ensures forall i :: 0 <= i < |f| ==> f[i] != ' '
  {
    var f := ReplaceChar(projectName, ' ', '_') + "_summary.md";
    assert f[|f| - |"_summary.md"|..] == "_summary.md";
    f
  }

  /** A run of `summarize_project`: the returned file name, the report text
      written to that file, and the model calls made. */
  datatype ProjectRun = ProjectRun(filename: string, report: string, calls: seq<Call>)

  function Sections(rs: seq<Reply>): seq<string>
  {
    seq(|rs|, i requires 0 <= i < |rs| => rs[i].text + Separator)
  }

  /** `summarize_project(file_summaries, project_name)` at time `timestamp`
      (already formatted as `%Y-%m-%d %H:%M:%S`). */
  function SummarizeProject(prov: Providers, summaries: seq<string>, projectName: string, timestamp: string): ProjectRun
  {
    var rs := BatchReplies(prov, summaries, 0);
    ProjectRun(ReportFilename(projectName), ReportHeader(projectName, timestamp) + Concat(Sections(rs)), CallsOf(rs))
  }

  /** The batch prompts in batch order. */
  function ProjectPrompts(summaries: seq<string>): seq<Prompt>
  {
    seq(BatchCount(|summaries|), k requires 0 <= k < BatchCount(|summaries|) =>
      ProjectPrompt(Join(Separator, Batch(summaries, k))))
  }

  /** What `summarize_project` writes for batch `number` (from 1): the
      stripped model text, the fallback's text, or the inline error naming
      the batch; each followed by a blank line. */
  predicate IsBatchSection(prov: Providers, number: nat, batch: seq<string>, section: string)
  {
    var p := ProjectPrompt(Join(Separator, batch));
    match prov.projectModel(p)
    case Ok(t) => section == Strip(t) + "\n\n"
    case Err(e) =>
      if IsQuotaError(e) then section == FallbackText(prov.openAI(p)) + "\n\n"
      else section == "Error summarizing batch " + Decimal(number) + ": " + e + "\n\n"
  }

  /** `summarize_project` asks the project model exactly `ceil(n / 5)` times,
      once per batch in order, and the fallback exactly for the batches whose
      primary call failed with a quota or rate-limit message. */
  lemma {:induction false} SummarizeProjectCalls(prov: Providers, summaries: seq<string>, projectName: string, timestamp: string)
    ensures var r := SummarizeProject(prov, summaries, projectName, timestamp);
            && Primaries(r.calls) == ProjectPrompts(summaries)
            && |Primaries(r.calls)| == BatchCount(|summaries|)
            && Fallbacks(r.calls) == QuotaFailures(prov.projectModel, ProjectPrompts(summaries))
  {
    var rs := BatchReplies(prov, summaries, 0);
    var prompts := ProjectPrompts(summaries);
    var prefixes := seq(|rs|, k requires 0 <= k < |rs| => BatchErrorPrefix(k + 1));
    forall k | 0 <= k < |rs|
      ensures rs[k] == Complete(prov.projectModel, prov.openAI, prompts[k], prefixes[k])
    {
      assert rs[k] == BatchReply(prov, summaries, k);
    }
    RepliesTrace(prov.projectModel, prov.openAI, prompts, prefixes, rs);
    assert SummarizeProject(prov, summaries, projectName, timestamp).calls == CallsOf(rs);
  }

  /** The report is the header, then one section per batch in batch order;
      the value returned is the file name, not the report. */
  lemma {:induction false} SummarizeProjectReport(prov: Providers, summaries: seq<string>, projectName: string, timestamp: string)
    ensures var r := SummarizeProject(prov, summaries, projectName, timestamp);
            && r.filename == ReportFilename(projectName)
            && exists sections: seq<string> ::
                 && |sections| == BatchCount(|summaries|)
                 && r.report == ReportHeader(projectName, timestamp) + Concat(sections)
                 && forall k :: 0 <= k < |sections| ==> IsBatchSection(prov, k + 1, Batch(summaries, k), sections[k])
  {
    var rs := BatchReplies(prov, summaries, 0);
    var sections := Sections(rs);
    forall k | 0 <= k < |sections|
      ensures IsBatchSection(prov, k + 1, Batch(summaries, k), sections[k])
    {
      assert rs[k] == BatchReply(prov, summaries, k);
      BatchSection(prov, k + 1, Batch(summaries, k), rs[k]);
    }
  }

  lemma {:induction false} BatchSection(prov: Providers, number: nat, batch: seq<string>, r: Reply)
    requires r == Complete(prov.projectModel, prov.openAI, ProjectPrompt(Join(Separator, batch)), BatchErrorPrefix(number))
    ensures IsBatchSection(prov, number, batch, r.text + Separator)
  {
  }

  /** The batches cover the summaries exactly, in order. */
  lemma {:induction false} BatchesPartition(summaries: seq<string>)
    ensures Concat(seq(BatchCount(|summaries|), k requires 0 <= k < BatchCount(|summaries|) => Batch(summaries, k)))
            == summaries
    decreases |summaries|
  {
    var n := |summaries|;
    if n > 0 {
      if n <= BatchSize {
        assert BatchCount(n) == 1;
        var bs := seq(1, k requires 0 <= k < 1 => Batch(summaries, k));
        assert bs[1..] == [];
        assert summaries[0..n] == summaries;
      } else {
        var rest := summaries[BatchSize..];
        BatchesPartition(rest);
        var bs := seq(BatchCount(n), k requires 0 <= k < BatchCount(n) => Batch(summaries, k));
        var rbs := seq(BatchCount(|rest|), k requires 0 <= k < BatchCount(|rest|) => Batch(rest, k));
        assert BatchCount(n) == BatchCount(|rest|) + 1;
        forall k | 0 <= k < |rbs|
          ensures bs[k + 1] == rbs[k]
        {
          var b := BatchBounds(n, k + 1);
          var rb := BatchBounds(|rest|, k);
          assert b.0 == rb.0 + BatchSize && b.1 == rb.1 + BatchSize;
          assert summaries[b.0..b.1] == rest[rb.0..rb.1];
        }
        assert bs[1..] == rbs;
        assert bs[0] == summaries[..BatchSize];
        assert summaries == summaries[..BatchSize] + rest;
      }
    }
  }

  /** Joining each batch and then joining the batches' texts gives the same
      text as joining all summaries at once. */
  lemma {:induction false} BatchesJoin(summaries: seq<string>)
    ensures Join(Separator, seq(BatchCount(|summaries|), k requires 0 <= k < BatchCount(|summaries|) =>
                                  Join(Separator, Batch(summaries, k))))
            == Join(Separator, summaries)
    decreases |summaries|
  {
    var n := |summaries|;
    if n > 0 {
      if n <= BatchSize {
        assert summaries[0..n] == summaries;
      } else {
        var rest := summaries[BatchSize..];
        BatchesJoin(rest);
        var js := seq(BatchCount(n), k requires 0 <= k < BatchCount(n) => Join(Separator, Batch(summaries, k)));
        var rjs := seq(BatchCount(|rest|), k requires 0 <= k < BatchCount(|rest|) => Join(Separator, Batch(rest, k)));
        assert BatchCount(n) == BatchCount(|rest|) + 1;
        forall k | 0 <= k < |rjs|
          ensures js[k + 1] == rjs[k]
        {
          var b := BatchBounds(n, k + 1);
          var rb := BatchBounds(|rest|, k);
          assert summaries[b.0..b.1] == rest[rb.0..rb.1];
        }
        assert js == [js[0]] + rjs;
        assert summaries == summaries[..BatchSize] + rest;
        JoinConcat(Separator, summaries[..BatchSize], rest);
        JoinConcat(Separator, [js[0]], rjs);
      }
    }
  }
}
