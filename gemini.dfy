/** `GeminiService` (src/gemini/gemini.service.ts): everything around the call to the
    generative model. The model call itself is the parameter `complete` (prompt in,
    response text or error message out) and `JSON.parse` is the parameter `parse`. */
module Gemini {
  import opened Wrappers
  import opened Strings
  import opened Http

  // ---------------------------------------------------------------------------
  // Construction

  const ApiKeyMissingMessage := "GEMINI_API_KEY is not configured"

  /** A constructed service; it holds the API key the SDK client is built from. */
  datatype GeminiService = GeminiService(apiKey: string)

  /** The constructor: `GEMINI_API_KEY` as read from the configuration (None when
      unset) must be a non-empty string, otherwise construction fails. */
  function NewGeminiService(apiKey: Option<string>): (r: Result<GeminiService, string>)
    ensures r.Success? <==> apiKey.Some? && apiKey.value != ""
    ensures r.Success? ==> r.value.apiKey == apiKey.value
    ensures r.Failure? ==> r.error == ApiKeyMissingMessage
  {
    if apiKey.None? || apiKey.value == "" then Failure(ApiKeyMissingMessage)
    else Success(GeminiService(apiKey.value))
  }

  // ---------------------------------------------------------------------------
  // Diff truncation and prompt

  const MaxDiffLength := 30000
  const TruncationNotice := "\n[Diff was truncated due to length]"

  /** A diff longer than the limit is cut to the limit and marked as truncated. */
  function TruncateDiff(prDiff: string): (r: string)
    ensures |prDiff| <= MaxDiffLength ==> r == prDiff
    ensures |prDiff| > MaxDiffLength ==> r == prDiff[..MaxDiffLength] + TruncationNotice
    ensures |r| <= MaxDiffLength + |TruncationNotice|
  {
    if |prDiff| > MaxDiffLength then prDiff[..MaxDiffLength] + TruncationNotice else prDiff
  }

  const PromptHeader :=
    "Analyze the following GitHub PR diff and provide:\n"
    + "1. A 100-word summary of the changes\n"
    + "2. A risk score from 1 (low risk) to 5 (high risk)\n"
    + "\n"
    + "Format your response as a JSON object with 'summary' and 'risk_score' fields.\n"
    + "\n"
    + "Diff:\n"

  /** The prompt sent to the model: the fixed instructions, then the (truncated) diff. */
  function Prompt(prDiff: string): (r: string)
    ensures |PromptHeader| <= |r| && r[..|PromptHeader|] == PromptHeader
    ensures |prDiff| <= MaxDiffLength ==> r[|PromptHeader|..] == prDiff
    ensures |prDiff| > MaxDiffLength ==> r[|PromptHeader|..] == prDiff[..MaxDiffLength] + TruncationNotice
  {
    PromptHeader + TruncateDiff(prDiff)
  }

  // ---------------------------------------------------------------------------
  // Extraction of the JSON candidate from the response text

  const Open := "```json\n"
  const Close := "\n```"
  const Fence := "```"

  /** A fenced block: an opening "```json\n" at `i` and a closing "\n```" at `j`
      no earlier than the end of the opening. */
  predicate FenceAt(text: string, i: int, j: int) {
    Occurs(text, i, Open) && i + |Open| <= j && Occurs(text, j, Close)
  }

  ghost predicate HasFencedBlock(text: string) {
    exists i, j :: FenceAt(text, i, j)
  }

  /** The block the lazy regular expression matches: the leftmost start, and from
      it the nearest closing. */
  ghost predicate FirstFencedBlock(text: string, i: int, j: int) {
    && FenceAt(text, i, j)
    && (forall i', j' :: FenceAt(text, i', j') ==> i <= i')
    && (forall j' :: FenceAt(text, i, j') ==> j <= j')
  }

  /** `text.match(/```json\n([\s\S]*?)\n```/)`: the opening and closing positions. */
  function FencedMatch(text: string): (r: Option<(nat, nat)>)
    ensures r.Some? <==> HasFencedBlock(text)
    ensures r.Some? ==> FirstFencedBlock(text, r.value.0, r.value.1)
  {
    match IndexOf(text, Open, 0)
    case None => None
    case Some(i) =>
      match IndexOf(text, Close, i + |Open|)
      case None =>
        // A later opening would need a closing even further on.
        assert forall i', j' :: FenceAt(text, i', j') ==> i <= i' && i + |Open| <= j';
        None
      case Some(j) =>
        assert FenceAt(text, i, j);
        Some((i, j))
  }

  lemma FirstFencedBlockUnique(text: string, i: int, j: int, i': int, j': int)
    requires FirstFencedBlock(text, i, j) && FirstFencedBlock(text, i', j')
    ensures i == i' && j == j'
  {
  }

  predicate BracePair(text: string, i: int, j: int) {
    0 <= i < j < |text| && text[i] == '{' && text[j] == '}'
  }

  ghost predicate HasBracePair(text: string) {
    exists i, j :: BracePair(text, i, j)
  }

  /** What the greedy regular expression matches: the first '{' and the last '}'. */
  predicate OutermostBraces(text: string, i: int, j: int) {
    && BracePair(text, i, j)
    && (forall k :: 0 <= k < i ==> text[k] != '{')
    && (forall k :: j < k < |text| ==> text[k] != '}')
  }

  lemma OccursBrace(text: string)
    ensures forall k :: Occurs(text, k, "{") <==> 0 <= k < |text| && text[k] == '{'
  {
    forall k ensures Occurs(text, k, "{") <==> 0 <= k < |text| && text[k] == '{' {
      OccursChar(text, k, '{');
    }
  }

  /** `text.match(/{[\s\S]*}/)`: the positions of its two braces. */
  function BraceMatch(text: string): (r: Option<(nat, nat)>)
    ensures r.Some? <==> HasBracePair(text)
    ensures r.Some? ==> OutermostBraces(text, r.value.0, r.value.1)
  {
    OccursBrace(text);
    match (IndexOf(text, "{", 0), LastIndexOf(text, '}', |text|))
    case (Some(i), Some(j)) =>
      if i < j then
        assert BracePair(text, i, j);
        Some((i, j))
      else None
    case _ => None
  }

  /** Text in which "```" occurs nowhere. */
  ghost predicate FenceFree(s: string) {
    forall k :: !Occurs(s, k, Fence)
  }

  /** `s.replace(/```json\n|```/g, '')`: scanning left to right, each "```json\n",
      else each "```", is deleted. */
  function RemoveFences(s: string): (r: string)
    ensures |r| <= |s|
  {
    if s == [] then []
    else if Occurs(s, 0, Open) then RemoveFences(s[|Open|..])
    else if Occurs(s, 0, Fence) then RemoveFences(s[|Fence|..])
    else [s[0]] + RemoveFences(s[1..])
  }

  /** No "```" survives the removal: a backtick is kept only when fewer than two
      backticks follow it, and the text after it cannot supply the rest. */
  lemma {:induction false} RemoveFencesNoFence(s: string)
    ensures FenceFree(RemoveFences(s))
    ensures var r := RemoveFences(s); r != [] && r[0] == '`' ==> s[0] == '`'
    ensures var r := RemoveFences(s);
      |r| >= 2 && r[0] == '`' && r[1] == '`' ==> s[0] == '`' && s[1] == '`'
  {
    if s == [] {
    } else if Occurs(s, 0, Open) {
      assert s[0 + 0] == Open[0] && s[0 + 1] == Open[1];
      RemoveFencesNoFence(s[|Open|..]);
    } else if Occurs(s, 0, Fence) {
      assert s[0 + 0] == Fence[0] && s[0 + 1] == Fence[1];
      RemoveFencesNoFence(s[|Fence|..]);
    } else {
      var rest := RemoveFences(s[1..]);
      assert RemoveFences(s) == [s[0]] + rest;
      RemoveFencesNoFence(s[1..]);
      assert |rest| >= 2 && rest[0] == '`' && rest[1] == '`' ==> s[0] != '`' by {
        FenceAtStart(s);
        assert |s| >= 3 ==> s[1..][0] == s[1] && s[1..][1] == s[2];
      }
      PrependNoFence(s[0], rest);
    }
  }

  /** A fence at the start is three backticks. */
  lemma FenceAtStart(s: string)
    ensures Occurs(s, 0, Fence) <==> |s| >= 3 && s[0] == '`' && s[1] == '`' && s[2] == '`'
  {
    if Occurs(s, 0, Fence) {
      assert s[0 + 0] == Fence[0] && s[0 + 1] == Fence[1] && s[0 + 2] == Fence[2];
    }
  }

  /** Putting a character in front of fence-free text makes no fence unless it is a
      backtick before two backticks. */
  lemma PrependNoFence(c: char, t: string)
    requires FenceFree(t)
    requires |t| >= 2 && t[0] == '`' && t[1] == '`' ==> c != '`'
    ensures FenceFree([c] + t)
  {
    var u := [c] + t;
    forall k ensures !Occurs(u, k, Fence) {
      if k == 0 {
        if c != '`' {
          Mismatch(u, 0, Fence, 0);
        } else if |t| >= 2 && t[0] != '`' {
          Mismatch(u, 0, Fence, 1);
        } else if |t| >= 2 {
          Mismatch(u, 0, Fence, 2);
        }
      } else if 1 <= k && k + |Fence| <= |u| {
        assert !Occurs(t, k - 1, Fence);
        var m :| 0 <= m < |Fence| && t[k - 1 + m] != Fence[m];
        Mismatch(u, k, Fence, m);
      }
    }
  }

  /** An opening fence begins with a bare fence. */
  lemma OpenHasFence(s: string, i: int)
    ensures Occurs(s, i, Open) ==> Occurs(s, i, Fence)
  {
    if Occurs(s, i, Open) {
      forall k | 0 <= k < |Fence| ensures s[i + k] == Fence[k] {
        assert s[i + k] == Open[k];
      }
    }
  }

  /** A character that does not begin "```" is kept, backticks included. */
  lemma RemoveFencesKeeps(s: string)
    requires s != [] && !Occurs(s, 0, Fence)
    ensures RemoveFences(s) == [s[0]] + RemoveFences(s[1..])
  {
    OpenHasFence(s, 0);
  }

  /** Dropping the first character keeps text fence-free. */
  lemma FenceFreeTail(s: string)
    requires s != [] && FenceFree(s)
    ensures FenceFree(s[1..])
  {
    var t := s[1..];
    forall k ensures !Occurs(t, k, Fence) {
      if 0 <= k && k + |Fence| <= |t| {
        assert !Occurs(s, k + 1, Fence);
        var m :| 0 <= m < |Fence| && s[k + 1 + m] != Fence[m];
        assert t[k + m] == s[k + 1 + m];
        Mismatch(t, k, Fence, m);
      }
    }
  }

  /** Text without "```" passes through the removal unchanged: single and double
      backticks, as in inline code, are kept. */
  lemma {:induction false} RemoveFencesFenceFree(s: string)
    requires FenceFree(s)
    ensures RemoveFences(s) == s
  {
    if s != [] {
      assert !Occurs(s, 0, Fence);
      RemoveFencesKeeps(s);
      FenceFreeTail(s);
      RemoveFencesFenceFree(s[1..]);
      assert s == [s[0]] + s[1..];
    }
  }

  /** Backtick-free text is fence-free. */
  lemma NoBacktickFenceFree(s: string)
    requires NoBacktick(s)
    ensures FenceFree(s)
  {
    forall k ensures !Occurs(s, k, Fence) {
      if 0 <= k < |s| {
        Mismatch(s, k, Fence, 0);
      }
    }
  }

  /** Putting the head back in front of the tail. */
  lemma ConsTail(a: string, x: string)
    requires a != []
    ensures [a[0]] + (a[1..] + x) == a + x
  {
    assert a == [a[0]] + a[1..];
  }

  /** One step of the scan over a prefix that does not start with a backtick. */
  lemma RemoveFencesStep(a: string, b: string)
    requires a != [] && a[0] != '`'
    ensures RemoveFences(a + b) == [a[0]] + RemoveFences(a[1..] + b)
  {
    var s := a + b;
    assert s[0] == a[0] && s[1..] == a[1..] + b;
    Mismatch(s, 0, Fence, 0);
    RemoveFencesKeeps(s);
  }

  /** The tail of backtick-free text is backtick-free. */
  lemma NoBacktickTail(a: string)
    requires a != [] && NoBacktick(a)
    ensures a[0] != '`' && NoBacktick(a[1..])
  {
    forall k | 0 <= k < |a| - 1 ensures a[1..][k] != '`' {
      assert a[1..][k] == a[k + 1];
    }
  }

  /** A backtick-free prefix passes through the fence removal untouched. */
  lemma {:induction false} RemoveFencesAppend(a: string, b: string)
    requires NoBacktick(a)
    ensures RemoveFences(a + b) == a + RemoveFences(b)
  {
    if a == [] {
      assert a + b == b;
    } else {
      NoBacktickTail(a);
      RemoveFencesStep(a, b);
      RemoveFencesAppend(a[1..], b);
      ConsTail(a, RemoveFences(b));
    }
  }

  /** An opening "```json\n" is deleted whole, and so is a bare "```" that does not
      open one; the scan resumes right after the deleted marker. */
  lemma RemoveFencesDrops(b: string)
    ensures RemoveFences(Open + b) == RemoveFences(b)
    ensures !Occurs(Fence + b, 0, Open) ==> RemoveFences(Fence + b) == RemoveFences(b)
  {
    assert (Open + b)[..|Open|] == Open;
    assert Occurs(Open + b, 0, Open);
    assert (Open + b)[|Open|..] == b;
    assert (Fence + b)[..|Fence|] == Fence;
    assert Occurs(Fence + b, 0, Fence);
    assert (Fence + b)[|Fence|..] == b;
  }

  /** A bare "```" after backtick-free text is deleted alone: what precedes it and
      what follows it are kept. */
  lemma RemoveFencesSplice(a: string, b: string)
    requires NoBacktick(a) && !Occurs(Fence + b, 0, Open)
    ensures RemoveFences(a + Fence + b) == a + RemoveFences(b)
  {
    assert a + Fence + b == a + (Fence + b);
    RemoveFencesAppend(a, Fence + b);
    RemoveFencesDrops(b);
  }

  /** Backtick-free text has no fence to remove. */
  lemma RemoveFencesIdentity(s: string)
    requires NoBacktick(s)
    ensures RemoveFences(s) == s
  {
    RemoveFencesAppend(s, "");
    assert s + "" == s;
  }

  /** A fenced block whose content is backtick-free loses its two fences and keeps
      the newline before the closing one. */
  lemma RemoveFencesOfBlock(json: string)
    requires NoBacktick(json)
    ensures RemoveFences(Open + json + Close) == json + "\n"
  {
    var block := Open + json + Close;
    assert Occurs(block, 0, Open) by {
      assert block[..|Open|] == Open;
    }
    assert block[|Open|..] == json + Close;
    RemoveFencesAppend(json, Close);
    Mismatch(Close, 0, Fence, 0);
    RemoveFencesKeeps(Close);
    assert Close[1..] == Fence;
    assert Occurs(Fence, 0, Fence);
    assert RemoveFences(Fence) == "";
  }

  /** The JSON candidate: the first fenced block, else the outermost braces, each
      with its fences removed, else the whole text as it is. */
  function ExtractCandidate(text: string): (r: string)
    ensures |r| <= |text|
  {
    match FencedMatch(text)
    case Some((i, j)) => RemoveFences(text[i..j + |Close|])
    case None =>
      match BraceMatch(text)
      case Some((i, j)) => RemoveFences(text[i..j + 1])
      case None => text
  }

  /** The fenced match is the first fenced block. */
  lemma FencedMatchIs(text: string, i: int, j: int)
    requires FirstFencedBlock(text, i, j)
    ensures FencedMatch(text) == Some((i, j))
  {
    var m := FencedMatch(text);
    assert m.Some? by {
      assert FenceAt(text, i, j);
    }
    FirstFencedBlockUnique(text, i, j, m.value.0, m.value.1);
  }

  /** Without a fenced block there is no fenced match. */
  lemma NoFencedMatch(text: string)
    requires !HasFencedBlock(text)
    ensures FencedMatch(text).None?
  {
  }

  /** The brace match is the outermost pair of braces. */
  lemma BraceMatchIs(text: string, i: int, j: int)
    requires OutermostBraces(text, i, j)
    ensures BraceMatch(text) == Some((i, j))
  {
    var m := BraceMatch(text);
    assert m.Some? by {
      assert BracePair(text, i, j);
    }
    OutermostBracesUnique(text, i, j, m.value.0, m.value.1);
  }

  /** A fenced match gives the candidate. */
  lemma CandidateOfFencedMatch(text: string)
    requires FencedMatch(text).Some?
    ensures var (i, j) := FencedMatch(text).value;
      i <= j + |Close| <= |text| && ExtractCandidate(text) == RemoveFences(text[i..j + |Close|])
  {
  }

  /** First in the fallback order: the first fenced block wins. */
  lemma CandidateFromFence(text: string, i: int, j: int)
    requires FirstFencedBlock(text, i, j)
    ensures ExtractCandidate(text) == RemoveFences(text[i..j + |Close|])
  {
    FencedMatchIs(text, i, j);
    CandidateOfFencedMatch(text);
  }

  /** With no fenced match, the candidate is built from the brace match. */
  lemma CandidateOfBraceMatch(text: string)
    requires FencedMatch(text).None? && BraceMatch(text).Some?
    ensures var (i, j) := BraceMatch(text).value;
      j + 1 <= |text| && ExtractCandidate(text) == RemoveFences(text[i..j + 1])
  {
  }

  /** Second: with no fenced block, the span from the first '{' to the last '}'. */
  lemma CandidateFromBraces(text: string, i: int, j: int)
    requires !HasFencedBlock(text) && OutermostBraces(text, i, j)
    ensures ExtractCandidate(text) == RemoveFences(text[i..j + 1])
  {
    NoFencedMatch(text);
    BraceMatchIs(text, i, j);
    CandidateOfBraceMatch(text);
  }

  /** Last: with neither, the whole text, not even stripped of fences. */
  lemma CandidateIsWholeText(text: string)
    requires !HasFencedBlock(text) && !HasBracePair(text)
    ensures ExtractCandidate(text) == text
  {
  }

  lemma OutermostBracesUnique(text: string, i: int, j: int, i': int, j': int)
    requires OutermostBraces(text, i, j) && OutermostBraces(text, i', j')
    ensures i == i' && j == j'
  {
  }

  /** Text with no backtick has no fenced block. */
  lemma NoBacktickNoFence(text: string)
    requires NoBacktick(text)
    ensures !HasFencedBlock(text)
  {
    forall i, j ensures !FenceAt(text, i, j) {
      if 0 <= i < |text| {
        Mismatch(text, i, Open, 0);
      }
    }
  }

  /** After backtick-free prose, the first fenced block is the one that opens right
      after the prose and closes right after backtick-free content. */
  lemma FirstBlockAfterProse(pre: string, json: string, post: string)
    requires NoBacktick(pre) && NoBacktick(json)
    ensures FirstFencedBlock(pre + Open + json + Close + post, |pre|, |pre| + |Open| + |json|)
  {
    var text := pre + Open + json + Close + post;
    var i, j := |pre|, |pre| + |Open| + |json|;
    assert text[i..i + |Open|] == Open;
    assert text[j..j + |Close|] == Close;
    forall i' | 0 <= i' < i ensures !Occurs(text, i', Open) {
      assert text[i'] == pre[i'];
      Mismatch(text, i', Open, 0);
    }
    forall j' | i + |Open| <= j' < j ensures !Occurs(text, j', Close) {
      if j' + 1 < j {
        assert text[j' + 1] == json[j' + 1 - i - |Open|];
      } else {
        assert text[j' + 1] == Close[0];
      }
      Mismatch(text, j', Close, 1);
    }
  }

  /** The fenced block is the slice from the opening fence to the end of the closing one. */
  lemma BlockSlice(pre: string, json: string, post: string)
    ensures var text := pre + Open + json + Close + post;
      text[|pre|..|pre| + |Open| + |json| + |Close|] == Open + json + Close
  {
  }

  /** JSON inside a fenced block, after backtick-free prose: the candidate is the
      JSON followed by the newline that preceded the closing fence. */
  lemma FencedJson(pre: string, json: string, post: string)
    requires NoBacktick(pre) && NoBacktick(json)
    ensures ExtractCandidate(pre + Open + json + Close + post) == json + "\n"
  {
    var text := pre + Open + json + Close + post;
    var i, j := |pre|, |pre| + |Open| + |json|;
    FirstBlockAfterProse(pre, json, post);
    CandidateFromFence(text, i, j);
    BlockSlice(pre, json, post);
    RemoveFencesOfBlock(json);
  }

  /** JSON among backtick-free prose with no '{' before it and no '}' after it:
      the candidate is exactly the JSON. Raw JSON is the case of empty prose. */
  lemma EmbeddedJson(pre: string, json: string, post: string)
    requires NoBacktick(pre + json + post)
    requires '{' !in pre && '}' !in post
    requires |json| >= 2 && json[0] == '{' && json[|json| - 1] == '}'
    ensures ExtractCandidate(pre + json + post) == json
  {
    var text := pre + json + post;
    var i, j := |pre|, |pre| + |json| - 1;
    NoBacktickNoFence(text);
    forall k | 0 <= k < i ensures text[k] != '{' {
      assert text[k] == pre[k];
    }
    forall k | j < k < |text| ensures text[k] != '}' {
      assert text[k] == post[k - |pre| - |json|];
    }
    assert text[i] == json[0] && text[j] == json[|json| - 1];
    assert OutermostBraces(text, i, j);
    CandidateFromBraces(text, i, j);
    assert text[i..j + 1] == json;
    assert NoBacktick(json) by {
      forall k | 0 <= k < |json| ensures json[k] != '`' {
        assert json[k] == text[|pre| + k];
      }
    }
    RemoveFencesIdentity(json);
  }

  // ---------------------------------------------------------------------------
  // The parsed reply and the risk score

  /** `Number(risk_score)` restricted to integers: a finite integer, or NaN. */
  datatype Coerced = Finite(n: int) | NaN

  /** A property of the parsed value: `undefined` (absent, or a falsy non-string for
      `summary`) or present. */
  datatype Field<T> = Absent | Present(value: T)

  /** The two properties the service reads from the parsed value. A JSON value that
      is not an object (a number, a string, an array) has both absent. */
  datatype Reply = Reply(summary: Field<string>, riskScore: Field<Coerced>)

  /** The outcome of `JSON.parse`: a syntax error, the document `null` (whose
      property access throws a TypeError), or any other value. */
  datatype Parsed = Malformed | NullDocument | Document(reply: Reply)

  /** The service's result: `GeminiResponse`. */
  datatype GeminiResponse = GeminiResponse(summary: string, riskScore: int)

  function Min(a: int, b: int): (m: int) { if a <= b then a else b }
  function Max(a: int, b: int): (m: int) { if a >= b then a else b }

  /** `Math.min(Math.max(Number(x) || 3, 1), 5)`. NaN and 0 are falsy and fall back to 3. */
  function NormalizeRiskScore(score: Coerced): (r: int)
    ensures 1 <= r <= 5
    ensures score.Finite? && 1 <= score.n <= 5 ==> r == score.n
    ensures score.Finite? && score.n > 5 ==> r == 5
    ensures score.Finite? && score.n < 0 ==> r == 1
    ensures score == NaN || score == Finite(0) ==> r == 3
  {
    var v := if score.NaN? || score.n == 0 then 3 else score.n;
    Min(Max(v, 1), 5)
  }

  /** Normalizing a normalized score changes nothing. */
  lemma NormalizeIdempotent(score: Coerced)
    ensures NormalizeRiskScore(Finite(NormalizeRiskScore(score))) == NormalizeRiskScore(score)
  {
  }

  const ParseErrorMessage := "Failed to parse Gemini response as JSON"
  const FormatErrorMessage := "Invalid response format from Gemini"
  const NullAccessMessage := "Cannot read properties of null (reading 'summary')"
  const FailurePrefix := "Failed to generate PR summary: "

  /** `summary` must be a non-empty string and `risk_score` must be defined. */
  predicate HasRequiredFields(reply: Reply) {
    reply.summary.Present? && reply.summary.value != "" && reply.riskScore.Present?
  }

  /** From response text to a `GeminiResponse`, or the message of the error thrown. */
  function InterpretReply(text: string, parse: string -> Parsed): (r: Result<GeminiResponse, string>)
    ensures r.Success? ==> 1 <= r.value.riskScore <= 5 && r.value.summary != ""
    ensures var parsed := parse(ExtractCandidate(text));
      r.Success? <==> parsed.Document? && HasRequiredFields(parsed.reply)
    ensures var parsed := parse(ExtractCandidate(text));
      r.Success? ==> parsed.reply.summary == Present(r.value.summary)
                     && r.value.riskScore == NormalizeRiskScore(parsed.reply.riskScore.value)
    ensures var parsed := parse(ExtractCandidate(text));
      && (parsed.Malformed? ==> r == Failure(ParseErrorMessage))
      && (parsed.NullDocument? ==> r == Failure(NullAccessMessage))
      && (parsed.Document? && !HasRequiredFields(parsed.reply) ==> r == Failure(FormatErrorMessage))
  {
    match parse(ExtractCandidate(text))
    case Malformed => Failure(ParseErrorMessage)
    case NullDocument => Failure(NullAccessMessage)
    case Document(reply) =>
      if !HasRequiredFields(reply) then Failure(FormatErrorMessage)
      else Success(GeminiResponse(reply.summary.value, NormalizeRiskScore(reply.riskScore.value)))
  }

  /** The part of `generatePrSummary` after the model call: the reply text, or the
      message of what the SDK threw, becomes a `GeminiResponse` or one 500
      `HttpException` carrying the inner message. */
  function SummaryFromReply(reply: Result<string, string>, parse: string -> Parsed)
    : (r: Result<GeminiResponse, HttpException>)
    ensures r.Success? ==> 1 <= r.value.riskScore <= 5 && r.value.summary != ""
    ensures r.Failure? ==> (&& r.error.status == InternalServerError
                            && |FailurePrefix| <= |r.error.message|
                            && r.error.message[..|FailurePrefix|] == FailurePrefix)
    ensures reply.Failure? ==> r == Failure(HttpException(InternalServerError, FailurePrefix + reply.error))
    ensures reply.Success? ==>
      var interpreted := InterpretReply(reply.value, parse);
      && (interpreted.Success? ==> r == Success(interpreted.value))
      && (interpreted.Failure? ==> r == Failure(HttpException(InternalServerError, FailurePrefix + interpreted.error)))
  {
    match reply
    case Failure(message) => Failure(HttpException(InternalServerError, FailurePrefix + message))
    case Success(text) =>
      match InterpretReply(text, parse)
      case Failure(message) => Failure(HttpException(InternalServerError, FailurePrefix + message))
      case Success(response) => Success(response)
  }

  /** `generatePrSummary`: ask the model with the prompt built from the truncated diff
      and handle its reply; every failure is a 500 "Failed to generate PR summary: …". */
  function GeneratePrSummary(prDiff: string, complete: string -> Result<string, string>,
                             parse: string -> Parsed): (r: Result<GeminiResponse, HttpException>)
    ensures r == SummaryFromReply(complete(Prompt(prDiff)), parse)
    ensures r.Success? ==> 1 <= r.value.riskScore <= 5 && r.value.summary != ""
    ensures r.Failure? ==> (&& r.error.status == InternalServerError
                            && |FailurePrefix| <= |r.error.message|
                            && r.error.message[..|FailurePrefix|] == FailurePrefix)
  {
    SummaryFromReply(complete(Prompt(prDiff)), parse)
  }

  /** Fenced JSON alone: the JSON and the newline before the closing fence. */
  lemma FencedCandidate(json: string)
    requires NoBacktick(json)
    ensures ExtractCandidate(Open + json + Close) == json + "\n"
  {
    assert "" + Open + json + Close + "" == Open + json + Close;
    FencedJson("", json, "");
  }

  /** Fence-free text has no fenced block. */
  lemma FenceFreeNoFencedBlock(text: string)
    requires FenceFree(text)
    ensures !HasFencedBlock(text)
  {
    forall i, j ensures !FenceAt(text, i, j) {
      OpenHasFence(text, i);
    }
  }

  /** Raw JSON alone, which may quote code in single backticks but holds no "```":
      the JSON itself. */
  lemma RawCandidate(json: string)
    requires |json| >= 2 && json[0] == '{' && json[|json| - 1] == '}' && FenceFree(json)
    ensures ExtractCandidate(json) == json
  {
    FenceFreeNoFencedBlock(json);
    assert OutermostBraces(json, 0, |json| - 1);
    CandidateFromBraces(json, 0, |json| - 1);
    assert json[0..|json| - 1 + 1] == json;
    RemoveFencesFenceFree(json);
  }

  /** Two replies whose candidates parse alike are interpreted alike. */
  lemma InterpretByCandidate(a: string, b: string, parse: string -> Parsed)
    requires parse(ExtractCandidate(a)) == parse(ExtractCandidate(b))
    ensures InterpretReply(a, parse) == InterpretReply(b, parse)
  {
  }

  /** A JSON object returned raw and the same object in a fenced block give the same
      outcome, given that `JSON.parse` ignores a trailing newline. */
  lemma FencedAndRawAgree(json: string, parse: string -> Parsed)
    requires |json| >= 2 && json[0] == '{' && json[|json| - 1] == '}' && NoBacktick(json)
    requires parse(json + "\n") == parse(json)
    ensures SummaryFromReply(Success(Open + json + Close), parse) == SummaryFromReply(Success(json), parse)
  {
    FencedCandidate(json);
    NoBacktickFenceFree(json);
    RawCandidate(json);
    InterpretByCandidate(Open + json + Close, json, parse);
  }

  /** Text with neither a backtick nor a '{', such as "invalid-json", is handed to
      the parser whole; when it is not JSON the call fails with the parse error. */
  lemma NonJsonTextFails(text: string, parse: string -> Parsed)
    requires NoBacktick(text) && '{' !in text
    requires parse(text) == Malformed
    ensures SummaryFromReply(Success(text), parse)
            == Failure(HttpException(InternalServerError, FailurePrefix + ParseErrorMessage))
  {
    NoBacktickNoFence(text);
    forall i, j ensures !BracePair(text, i, j) {
      if 0 <= i < |text| {
        assert text[i] in text;
      }
    }
    CandidateIsWholeText(text);
  }

  /** The reply "invalid-json" fails with the parse error once the parser rejects it. */
  lemma InvalidJsonReplyFails(parse: string -> Parsed)
    requires parse("invalid-json") == Malformed
    ensures SummaryFromReply(Success("invalid-json"), parse)
            == Failure(HttpException(InternalServerError, FailurePrefix + ParseErrorMessage))
  {
    var text := "invalid-json";
    assert NoBacktick(text) && '{' !in text by {
      forall k | 0 <= k < |text| ensures text[k] != '`' && text[k] != '{' {
      }
    }
    NonJsonTextFails(text, parse);
  }

  /** A raw JSON object with a non-empty summary and a score in range comes back
      exactly: summary and score unchanged, inline code in backticks included. */
  lemma RawJsonSucceeds(json: string, summary: string, score: int, parse: string -> Parsed)
    requires |json| >= 2 && json[0] == '{' && json[|json| - 1] == '}' && FenceFree(json)
    requires parse(json) == Document(Reply(Present(summary), Present(Finite(score))))
    requires summary != "" && 1 <= score <= 5
    ensures SummaryFromReply(Success(json), parse) == Success(GeminiResponse(summary, score))
  {
    RawCandidate(json);
  }

  /** The reply "{}" has neither field and fails with the format error. */
  lemma EmptyObjectFails(parse: string -> Parsed)
    requires parse("{}") == Document(Reply(Absent, Absent))
    ensures SummaryFromReply(Success("{}"), parse)
            == Failure(HttpException(InternalServerError, FailurePrefix + FormatErrorMessage))
  {
    var json := "{}";
    assert NoBacktick(json);
    NoBacktickFenceFree(json);
    RawCandidate(json);
  }

  /** An error thrown by the SDK, such as "API error", becomes a 500 carrying its message. */
  lemma ApiErrorWrapped(message: string, parse: string -> Parsed)
    ensures SummaryFromReply(Failure(message), parse)
            == Failure(HttpException(InternalServerError, FailurePrefix + message))
  {
  }
}
