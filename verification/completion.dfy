/** The completion policy shared by `summarize_file` and `summarize_project`
    (utils/summarizer.py): one call to a primary Gemini model; on a failure
    whose message mentions a quota (in any case) or the text "429", one call to
    the OpenAI fallback; on any other failure, inline error text. Providers
    are total functions from prompt to outcome, and every call made is
    recorded, so that which provider was asked, and how often, can be stated. */
module Completion {
  import opened Text
  import opened Seqs

  /** What a provider call gives back: the response text, or the message of
      the exception it raised. */
  datatype Outcome = Ok(text: string) | Err(message: string)

  /** The parts of a prompt that vary: for a file chunk its path, 1-based
      index, chunk count and text; for a project batch its joined summaries.
      The fixed instruction text around them is not modelled. */
  datatype Prompt =
    | FilePrompt(path: string, index: nat, count: nat, chunk: string)
    | ProjectPrompt(summaries: string)

  datatype Call = Primary(prompt: Prompt) | Fallback(prompt: Prompt)

  /** The text a call site appends, and the provider calls that produced it. */
  datatype Reply = Reply(text: string, calls: seq<Call>)

  /** The fallback test on a failure message: "quota" after lower-casing, or
      "429" as written. */
  predicate IsQuotaError(message: string)
  {
    Contains(Lower(message), "quota") || Contains(message, "429")
  }

  /** `summarize_with_openai`: the stripped answer, or the error as text; it
      never raises. */
  function FallbackText(o: Outcome): string
  {
    match o
    case Ok(t) => Strip(t)
    case Err(e) => "OpenAI fallback error: " + e
  }

  /** The primary model failed with a quota or rate-limit message. */
  predicate NeedsFallback(primary: Prompt -> Outcome, p: Prompt)
  {
    primary(p).Err? && IsQuotaError(primary(p).message)
  }

  /** One guarded model call. The primary model is always asked first and
      exactly once; the fallback is asked, once, exactly when the primary
      failed with a quota or rate-limit message; otherwise a failure becomes
      `errorPrefix` followed by the failure's message. */
  function Complete(primary: Prompt -> Outcome, fallback: Prompt -> Outcome, p: Prompt, errorPrefix: string): (r: Reply)
    ensures r.calls == [Primary(p)] || r.calls == [Primary(p), Fallback(p)]
    ensures Fallback(p) in r.calls <==> NeedsFallback(primary, p)
    ensures primary(p).Ok? ==> r.text == Strip(primary(p).text)
    ensures NeedsFallback(primary, p) ==> r.text == FallbackText(fallback(p))
    ensures primary(p).Err? && !IsQuotaError(primary(p).message) ==> r.text == errorPrefix + primary(p).message
  {
    match primary(p)
    case Ok(t) => Reply(Strip(t), [Primary(p)])
    case Err(e) =>
      if IsQuotaError(e) then Reply(FallbackText(fallback(p)), [Primary(p), Fallback(p)])
      else Reply(errorPrefix + e, [Primary(p)])
  }

  /** The quota test ignores letter case altogether: "429" has no letters. */
  lemma {:induction false} QuotaErrorIgnoresCase(message: string)
    ensures IsQuotaError(Lower(message)) <==> IsQuotaError(message)
  {
    LowerIdempotent(message);
    ContainsLowerNoLetters(message, "429");
  }

  /** A few messages and how they are classified. */
  lemma {:induction false} QuotaErrorExamples()
    ensures IsQuotaError("QUOTA")
    ensures IsQuotaError("429 rate limited")
    ensures !IsQuotaError("timeout")
  {
    assert OccursAt(Lower("QUOTA"), "quota", 0);
    assert OccursAt("429 rate limited", "429", 0);
    var t := "timeout";
    forall i | 0 <= i && i + 5 <= |t|
      ensures !OccursAt(Lower(t), "quota", i)
    {
      assert Lower(t)[i] == t[i] != 'q';
    }
    forall i | 0 <= i && i + 3 <= |t|
      ensures !OccursAt(t, "429", i)
    {
      assert t[i] != '4';
    }
  }

  /** The prompts sent to the primary model, in order. */
  function Primaries(calls: seq<Call>): seq<Prompt>
  {
    if |calls| == 0 then []
    else (if calls[0].Primary? then [calls[0].prompt] else []) + Primaries(calls[1..])
  }

  /** The prompts sent to the fallback provider, in order. */
  function Fallbacks(calls: seq<Call>): seq<Prompt>
  {
    if |calls| == 0 then []
    else (if calls[0].Fallback? then [calls[0].prompt] else []) + Fallbacks(calls[1..])
  }

  /** The prompts of `ps` on which the primary model fails with a quota or
      rate-limit message, in order. */
  function QuotaFailures(primary: Prompt -> Outcome, ps: seq<Prompt>): seq<Prompt>
  {
    if |ps| == 0 then []
    else (if NeedsFallback(primary, ps[0]) then [ps[0]] else []) + QuotaFailures(primary, ps[1..])
  }

  function CallsOf(rs: seq<Reply>): seq<Call>
  {
    if |rs| == 0 then [] else rs[0].calls + CallsOf(rs[1..])
  }

  function TextsOf(rs: seq<Reply>): (ts: seq<string>)
    ensures |ts| == |rs|
    ensures forall i :: 0 <= i < |rs| ==> ts[i] == rs[i].text
  {
    seq(|rs|, i requires 0 <= i < |rs| => rs[i].text)
  }

  lemma {:induction false} PrimariesAppend(a: seq<Call>, b: seq<Call>)
    ensures Primaries(a + b) == Primaries(a) + Primaries(b)
    ensures Fallbacks(a + b) == Fallbacks(a) + Fallbacks(b)
  {
    PrimariesOfAppend(a, b);
    FallbacksOfAppend(a, b);
  }

  lemma {:induction false} PrimariesOfAppend(a: seq<Call>, b: seq<Call>)
    ensures Primaries(a + b) == Primaries(a) + Primaries(b)
    decreases |a|
  {
    if |a| == 0 {
      assert a + b == b;
    } else {
      var head: seq<Prompt> := if a[0].Primary? then [a[0].prompt] else [];
      assert (a + b)[0] == a[0] && (a + b)[1..] == a[1..] + b;
      assert Primaries(a + b) == head + Primaries(a[1..] + b);
      PrimariesOfAppend(a[1..], b);
      assert Primaries(a) == head + Primaries(a[1..]);
    }
  }

  lemma {:induction false} FallbacksOfAppend(a: seq<Call>, b: seq<Call>)
    ensures Fallbacks(a + b) == Fallbacks(a) + Fallbacks(b)
    decreases |a|
  {
    if |a| == 0 {
      assert a + b == b;
    } else {
      var head: seq<Prompt> := if a[0].Fallback? then [a[0].prompt] else [];
      assert (a + b)[0] == a[0] && (a + b)[1..] == a[1..] + b;
      assert Fallbacks(a + b) == head + Fallbacks(a[1..] + b);
      FallbacksOfAppend(a[1..], b);
      assert Fallbacks(a) == head + Fallbacks(a[1..]);
    }
  }

  /** Replies made one per prompt, in order, ask the primary model exactly
      once per prompt in that order, and ask the fallback exactly for the
      prompts whose primary call failed with a quota or rate-limit message. */
  lemma {:induction false} RepliesTrace(primary: Prompt -> Outcome, fallback: Prompt -> Outcome,
                                        ps: seq<Prompt>, prefixes: seq<string>, rs: seq<Reply>)
    requires |rs| == |ps| == |prefixes|
    requires forall i :: 0 <= i < |rs| ==> rs[i] == Complete(primary, fallback, ps[i], prefixes[i])
    ensures Primaries(CallsOf(rs)) == ps
    ensures Fallbacks(CallsOf(rs)) == QuotaFailures(primary, ps)
    decreases |rs|
  {
    if |rs| > 0 {
      RepliesTrace(primary, fallback, ps[1..], prefixes[1..], rs[1..]);
      PrimariesAppend(rs[0].calls, CallsOf(rs[1..]));
      var c := rs[0].calls;
      if c == [Primary(ps[0])] {
        assert Primaries(c) == [ps[0]] && Fallbacks(c) == [];
      } else {
        assert c[1..] == [Fallback(ps[0])];
        assert Primaries(c) == [ps[0]] && Fallbacks(c) == [ps[0]];
      }
    }
  }
}
