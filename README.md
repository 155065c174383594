# PR-Explainer-Bot, modelled in Dafny

PR-Explainer-Bot serves one endpoint, `POST /pr-summary`. It takes a repository
name `owner/repo` and a pull-request number. It fetches the pull request's diff
from GitHub and asks a Gemini model for a short summary and a risk score from 1
to 5. This project models the two pieces of that pipeline that hold logic of their
own, as pure functions with lemmas about them:

- `GeminiService` (module `Gemini`, `gemini.dfy`). This covers the constructor's
  API-key check, diff truncation and the prompt. It also covers how a JSON
  candidate is extracted from the model's reply: the first fenced ```` ```json ````
  block, else the span from the first `{` to the last `}`, else the whole text.
  Then come the required-field check, the risk-score normalisation and the wrapping
  of every failure into one 500 `HttpException`.
- `PrSummaryService.create` (module `PrSummary`, `pr_summary.dfy`). This covers
  splitting and validating `owner/repo`, calling the fetcher and then the
  generator, and classifying errors: an `HttpException` passes through and
  anything else becomes a 500.

Supporting modules:
- `Wrappers` holds `Option` and `Result`.
- `Http` holds `HttpException` and `Thrown`, which is anything a collaborator can
  throw.
- `Strings` holds the string primitives: substring search, last index of a
  character, and `split`/`join` with the round trip between them.

The collaborators are parameters of the model:
- `complete: string -> Result<string, string>` is the Gemini SDK call
  (`generateContent` on model `gemini-2.0-flash`, then `response.text()`). It maps
  the prompt to the reply text or to the message of the thrown error.
- `parse: string -> Parsed` is `JSON.parse`. It gives a syntax error, the
  document `null`, or a value whose `summary` and `risk_score` properties are
  each absent or present. `risk_score` carries the result of `Number(...)`: a
  finite integer or NaN.
- `fetch: (owner, repo, prNumber) -> Result<string, Thrown>` is
  `GithubService.getPrDiff`.
- `generate: string -> Result<GeminiResponse, Thrown>` is
  `GeminiService.generatePrSummary`. `PrSummary.GeminiGenerator` plugs the
  model of that service in.

The model follows the code. In five places the code's behaviour is worth spelling
out, because the repository's own tests or a first reading suggest otherwise:
- `create` checks only the first two segments of `repo.split('/')`
  (src/pr-summary/pr-summary.service.ts:16-18). Segments after the second are
  ignored, so `a/b/c` is accepted as owner `a` and repo `b`.
- When neither a fenced block nor a `{…}` span is found, the code hands the whole
  reply to `JSON.parse` as it is (src/gemini/gemini.service.ts:47). Code fences
  are stripped only from a matched span.
- The brace fallback is not a balanced-brace search. It runs from the first `{`
  of the reply to its last `}` (src/gemini/gemini.service.ts:46).
- A `risk_score` of 0 becomes 3, not 1, because `Number(x) || 3` treats 0 as
  falsy (src/gemini/gemini.service.ts:61). The unit test at
  src/gemini/gemini.service.spec.ts:132 expects 1. `NormalizeRiskScore` states
  the code's 3.
- An error from the fetcher that is not an `HttpException` becomes a 500
  (src/pr-summary/pr-summary.service.ts:33-40). The end-to-end test at
  test/pr-summary.e2e-spec.ts:93-107 expects a 404 for such an error.

## Model

| member | source | states |
|---|---|---|
| `Gemini.NewGeminiService` | src/gemini/gemini.service.ts:14-20 | construction succeeds exactly when `GEMINI_API_KEY` is set and non-empty; the service keeps that key; otherwise it fails with "GEMINI_API_KEY is not configured" |
| `Gemini.TruncateDiff` | src/gemini/gemini.service.ts:25 | a diff of at most 30000 characters is unchanged; a longer one becomes its first 30000 characters followed by "\n[Diff was truncated due to length]"; the result is never longer than 30000 plus the notice |
| `Gemini.Prompt` | src/gemini/gemini.service.ts:25-36 | the prompt is the fixed instruction text followed by the diff: a short diff appears unchanged after the instructions, a long one truncated and marked |
| `Gemini.FencedMatch` | src/gemini/gemini.service.ts:46 | finds a fenced block exactly when one exists; the one it finds starts at the leftmost opening "```json\n" that has a closing "\n```" after it, and ends at the nearest such closing (the lazy match) |
| `Gemini.FencedMatchIs` | src/gemini/gemini.service.ts:46 | whenever a block is the leftmost-lazy fenced block, it is what the match returns |
| `Gemini.FirstFencedBlockUnique` | src/gemini/gemini.service.ts:46 | the leftmost-shortest fenced block is unique |
| `Gemini.BraceMatch` | src/gemini/gemini.service.ts:46 | finds a span exactly when some '{' precedes some '}'; the span runs from the first '{' of the text to its last '}' (the greedy match) |
| `Gemini.RemoveFences` | src/gemini/gemini.service.ts:47 | deleting every "```json\n" and "```" never lengthens the text |
| `Gemini.RemoveFencesNoFence` | src/gemini/gemini.service.ts:47 | no "```" is left in the result, for every input: a kept backtick is never followed by two more |
| `Gemini.RemoveFencesKeeps` | src/gemini/gemini.service.ts:47 | a leading character that does not begin "```" is kept, a lone backtick included, and the scan goes on after it |
| `Gemini.RemoveFencesAppend` | src/gemini/gemini.service.ts:47 | a backtick-free prefix passes through the deletion untouched |
| `Gemini.RemoveFencesIdentity` | src/gemini/gemini.service.ts:47 | backtick-free text is left unchanged |
| `Gemini.RemoveFencesFenceFree` | src/gemini/gemini.service.ts:47 | text in which "```" occurs nowhere is left unchanged: the removal deletes fences and nothing else, so inline code in single or double backticks survives |
| `Gemini.RemoveFencesDrops` | src/gemini/gemini.service.ts:47 | a leading "```json\n" is deleted whole, and a leading bare "```" that does not open "```json\n" is deleted alone; the scan resumes right after the marker |
| `Gemini.RemoveFencesSplice` | src/gemini/gemini.service.ts:47 | a bare "```" after backtick-free text is deleted and nothing else: "```ts" loses only its three backticks, and the text before and after is kept |
| `Gemini.RemoveFencesOfBlock` | src/gemini/gemini.service.ts:47 | a matched block "```json\n" + content + "\n```" with backtick-free content becomes the content followed by "\n" |
| `Gemini.ExtractCandidate` | src/gemini/gemini.service.ts:46-47 | the JSON candidate is never longer than the reply |
| `Gemini.CandidateFromFence` | src/gemini/gemini.service.ts:46-47 | first in the fallback order: when the reply holds a fenced block, the candidate is the first such block with its fences deleted |
| `Gemini.CandidateFromBraces` | src/gemini/gemini.service.ts:46-47 | second: with no fenced block, the candidate is the span from the first '{' to the last '}', fences deleted |
| `Gemini.CandidateIsWholeText` | src/gemini/gemini.service.ts:47 | last: with neither, the candidate is the whole reply, unmodified |
| `Gemini.BraceMatchIs` | src/gemini/gemini.service.ts:46 | whenever a span runs from the first '{' to the last '}', it is what the match returns |
| `Gemini.OutermostBracesUnique` | src/gemini/gemini.service.ts:46 | the first-'{'-to-last-'}' span is unique |
| `Gemini.NoBacktickNoFence` | src/gemini/gemini.service.ts:46 | a reply without a backtick has no fenced block |
| `Gemini.FenceFreeNoFencedBlock` | src/gemini/gemini.service.ts:46 | a reply in which "```" occurs nowhere has no fenced block |
| `Gemini.FirstBlockAfterProse` | src/gemini/gemini.service.ts:46 | after backtick-free prose, the first fenced block is the one that opens after the prose and closes after backtick-free content |
| `Gemini.FencedJson` | src/gemini/gemini.service.ts:46-47 | backtick-free JSON in a fenced block after backtick-free prose is extracted as the JSON plus the newline that preceded the closing fence |
| `Gemini.EmbeddedJson` | src/gemini/gemini.service.ts:46-47 | backtick-free JSON among backtick-free prose, with no '{' before it and no '}' after it, is extracted exactly |
| `Gemini.FencedCandidate` | src/gemini/gemini.service.ts:46-47 | a reply that is exactly one fenced backtick-free JSON text yields that JSON plus "\n" |
| `Gemini.RawCandidate` | src/gemini/gemini.service.ts:46-47 | a reply that is raw JSON, from '{' to '}', with no "```" in it yields itself, single backticks included |
| `Gemini.NormalizeRiskScore` | src/gemini/gemini.service.ts:61 | the score always lies in [1,5]; 1..5 are unchanged, above 5 gives 5, negatives give 1, NaN and 0 give 3 |
| `Gemini.NormalizeIdempotent` | src/gemini/gemini.service.ts:61 | normalising a normalised score changes nothing |
| `Gemini.InterpretReply` | src/gemini/gemini.service.ts:45-66 | a syntax error gives the parse error, the document null gives a TypeError, a missing or empty summary or an undefined score gives the format error; success happens exactly when both fields are there, and then the summary is the parsed one unchanged (never defaulted) and the score is its normalisation |
| `Gemini.InterpretByCandidate` | src/gemini/gemini.service.ts:46-61 | two replies whose candidates parse alike are interpreted alike |
| `Gemini.SummaryFromReply` | src/gemini/gemini.service.ts:42-73 | an SDK failure becomes a 500 "Failed to generate PR summary: " followed by its message, and so does every interpretation failure; success carries the interpreted reply unchanged, with a non-empty summary and a score in [1,5] |
| `Gemini.GeneratePrSummary` | src/gemini/gemini.service.ts:22-74 | the outcome is the reply handling applied to the SDK's answer to the prompt built from the diff, so success carries the parsed summary unchanged and the normalised score; every failure is a 500 whose message starts "Failed to generate PR summary: "; success has a non-empty summary and a score in [1,5] |
| `Gemini.ApiErrorWrapped` | src/gemini/gemini.service.ts:67-72 | an error thrown by the SDK, such as "API error", becomes a 500 carrying its message after the prefix |
| `Gemini.FencedAndRawAgree` | src/gemini/gemini.service.spec.ts:63-98 | a backtick-free JSON object returned raw and the same object in a fenced block give the same outcome, given that `JSON.parse` ignores a trailing newline |
| `Gemini.RawJsonSucceeds` | src/gemini/gemini.service.spec.ts:63-81 | a raw JSON reply without "```", with a non-empty summary and a score in range, is returned with both unchanged, inline code in the summary included |
| `Gemini.NonJsonTextFails` | src/gemini/gemini.service.ts:50-54 | a reply with no backtick and no '{' goes to the parser whole; when the parser rejects it the outcome is 500 "Failed to generate PR summary: Failed to parse Gemini response as JSON" |
| `Gemini.InvalidJsonReplyFails` | src/gemini/gemini.service.spec.ts:100-112 | the reply "invalid-json" fails with that parse error |
| `Gemini.EmptyObjectFails` | src/gemini/gemini.service.spec.ts:114-128 | the reply "{}" fails with "Invalid response format from Gemini" |
| `Strings.Split` | src/pr-summary/pr-summary.service.ts:16 | `split('/')` gives at least one segment; no segment holds '/'; joining the segments with '/' gives back the input |
| `Strings.SplitJoin` | src/pr-summary/pr-summary.service.ts:16 | splitting the join of '/'-free segments gives back exactly those segments |
| `PrSummary.SplitRepo` | src/pr-summary/pr-summary.service.ts:16-20 | an accepted name yields a non-empty owner and repo without '/', and the input starts with "owner/repo" followed by nothing or by '/' |
| `PrSummary.SplitRepoAccepts` | src/pr-summary/pr-summary.service.ts:16-20 | "owner/repo" with both parts non-empty and '/'-free is accepted as (owner, repo), and so is it followed by "/" and anything |
| `PrSummary.SplitRepoRejects` | src/pr-summary/pr-summary.service.ts:16-20 | a name without '/', a name starting with '/', and "owner/" or "owner//…" are rejected |
| `PrSummary.SplitRepoExamples` | src/pr-summary/pr-summary.service.spec.ts:52-72 | "owner/repo" gives ("owner", "repo"), "a/b/c" gives ("a", "b"), "invalid-repo-format" is rejected |
| `PrSummary.Classify` | src/pr-summary/pr-summary.service.ts:32-41 | an `HttpException` is rethrown unchanged; anything else becomes 500 "Failed to generate PR summary" |
| `PrSummary.Create` | src/pr-summary/pr-summary.service.ts:14-42 | a rejected name gives 400 "Invalid repository format. Use owner/repo"; success means the name was accepted, the fetch with those segments succeeded and the generator succeeded on the fetched diff, and the result carries the generator's summary and score unchanged; conversely an accepted name with a successful fetch and a successful generator always gives success with that summary and score; a failing fetch, or a failing generator after it, is classified |
| `PrSummary.InvalidRepoInvokesNothing` | src/pr-summary/pr-summary.service.ts:16-20 | with a rejected name the outcome is a 400 that does not depend on the fetcher or the generator |
| `PrSummary.FetchReceivesSegments` | src/pr-summary/pr-summary.service.ts:16-23 | for "owner/repo" the outcome depends on the fetcher only through its answer for (owner, repo, pr_number) |
| `PrSummary.GenerateReceivesDiff` | src/pr-summary/pr-summary.service.ts:23-26 | the outcome depends on the generator only through its answer for the fetched diff, and not at all when the fetch fails |
| `PrSummary.GeminiGenerator` | src/pr-summary/pr-summary.service.ts:26 | plugs `generatePrSummary` in as the generator: its success is passed on unchanged, and everything it throws is its `HttpException`, with status 500 (src/gemini/gemini.service.ts:69-72) |
| `PrSummary.CreateWithGemini` | src/pr-summary/pr-summary.service.ts:26-35 | with the Gemini service as generator and a fetched diff, success carries the service's summary and score, and its 500 passes through unchanged |
| `PrSummary.NotFoundPassesThrough` | src/pr-summary/pr-summary.service.ts:33-35 | a 404 "PR not found" from the fetcher reaches the caller unchanged |
| `PrSummary.PlainErrorBecomes500` | src/pr-summary/pr-summary.service.ts:36-40 | a plain error from the fetcher or the generator becomes 500 "Failed to generate PR summary" |

## Left out

- `GithubService.getPrDiff` (src/github/github.service.ts) is not part of this model. It is the HTTP GET with its token check and its 404/500 mapping; the orchestrator sees it only through the `fetch` parameter.
- The Gemini SDK and `JSON.parse` are foreign calls, so they are the `complete` and `parse` parameters. No JSON grammar is modelled.
- `Number()` is modelled only as a finite integer or NaN. Fractional scores such as 2.5 pass the clamp unchanged in the code; the model has no such values.
- `Gemini.InterpretReply`: a truthy `summary` that is not a string, such as a number or an object, is returned as it is by the code. The model has only string summaries; the parser maps falsy non-strings to `Absent`.
- `Gemini.GeneratePrSummary`: an SDK failure is reduced to its message string. A thrown value without a `message` would read "undefined" in the code.
- `Gemini.NewGeminiService`: the SDK client built from the key is not modelled. Later calls take the SDK as the `complete` parameter.
- `Gemini.InterpretReply`: the text of the TypeError for a `null` document is the one V8 produces. Other engines word it differently.
- The controller's re-wrapping of errors (src/pr-summary/pr-summary.controller.ts:45-61), the NestJS modules, bootstrap, CORS, Swagger, DTO validation decorators, `console.error` logging and the asynchrony of the calls are framework plumbing and are not modelled.
- JavaScript strings are sequences of UTF-16 code units; the model uses Dafny characters, so lengths match only for text in the Basic Multilingual Plane.
