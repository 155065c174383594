/** `PrSummaryService.create` (src/pr-summary/pr-summary.service.ts): validate the
    repository name, fetch the pull request's diff, have it summarized, and classify
    whatever was thrown. The two collaborators, `GithubService.getPrDiff` and
    `GeminiService.generatePrSummary`, are the parameters `fetch` and `generate`. */
module PrSummary {
  import opened Wrappers
  import opened Strings
  import opened Http
  import Gemini

  /** `CreatePrSummaryDto`. */
  datatype CreatePrSummaryRequest = CreatePrSummaryRequest(repo: string, prNumber: int)

  /** `PrSummaryResponseDto`. */
  datatype PrSummaryResponse = PrSummaryResponse(summary: string, riskScore: int)

  const InvalidRepoMessage := "Invalid repository format. Use owner/repo"
  const GenerationFailedMessage := "Failed to generate PR summary"

  /** `const [owner, repo] = s.split('/')` and the `!owner || !repo` guard: the first
      two segments, both non-empty; further segments are ignored. */
  function SplitRepo(repo: string): (r: Option<(string, string)>)
    ensures r.Some? ==> r.value.0 != "" && r.value.1 != ""
    ensures r.Some? ==> '/' !in r.value.0 && '/' !in r.value.1
    ensures r.Some? ==>
      var prefix := r.value.0 + "/" + r.value.1;
      && |prefix| <= |repo| && repo[..|prefix|] == prefix
      && (|repo| == |prefix| || repo[|prefix|] == '/')
  {
    var parts := Split(repo, '/');
    if parts[0] == "" || |parts| < 2 || parts[1] == "" then None
    else
      assert repo == parts[0] + "/" + Join(parts[1..], '/');
      assert parts[1..][0] == parts[1];
      assert Join(parts[1..], '/') == parts[1]
          || Join(parts[1..], '/') == parts[1] + "/" + Join(parts[2..], '/') by {
        if |parts| > 2 {
          assert parts[1..][1..] == parts[2..];
        }
      }
      Some((parts[0], parts[1]))
  }

  /** "owner/repo", and "owner/repo/" followed by anything, split into owner and repo. */
  lemma SplitRepoAccepts(owner: string, name: string, rest: string)
    requires owner != "" && name != "" && '/' !in owner && '/' !in name
    ensures SplitRepo(owner + "/" + name) == Some((owner, name))
    ensures SplitRepo(owner + "/" + name + "/" + rest) == Some((owner, name))
  {
    SplitCons(owner, '/', name);
    SplitNoSeparator(name, '/');
    assert owner + "/" + name + "/" + rest == owner + "/" + (name + "/" + rest);
    SplitCons(owner, '/', name + "/" + rest);
    SplitCons(name, '/', rest);
  }

  /** A name without '/', a name starting with '/', and an owner followed by an
      empty second segment are all rejected. */
  lemma SplitRepoRejects(owner: string, rest: string)
    ensures '/' !in owner ==> SplitRepo(owner) == None
    ensures SplitRepo("/" + rest) == None
    ensures '/' !in owner ==> SplitRepo(owner + "/") == None
    ensures '/' !in owner ==> SplitRepo(owner + "//" + rest) == None
  {
    if '/' !in owner {
      SplitNoSeparator(owner, '/');
      SplitCons(owner, '/', "");
      assert owner + "/" == owner + "/" + "";
      assert owner + "//" + rest == owner + "/" + ("/" + rest);
      SplitCons(owner, '/', "/" + rest);
      SplitCons("", '/', rest);
    }
    SplitCons("", '/', rest);
    assert "" + "/" + rest == "/" + rest;
  }

  /** The test's repository names: "owner/repo" is accepted, "invalid-repo-format"
      is not; extra segments as in "a/b/c" are ignored. */
  lemma SplitRepoExamples()
    ensures SplitRepo("owner/repo") == Some(("owner", "repo"))
    ensures SplitRepo("a/b/c") == Some(("a", "b"))
    ensures SplitRepo("invalid-repo-format") == None
  {
    var owner, name := "owner", "repo";
    assert '/' !in owner && '/' !in name;
    SplitRepoAccepts(owner, name, "");
    assert owner + "/" + name == "owner/repo";
    assert '/' !in "a" && '/' !in "b";
    SplitRepoAccepts("a", "b", "c");
    assert "a" + "/" + "b" + "/" + "c" == "a/b/c";
    var invalid := "invalid-repo-format";
    assert '/' !in invalid;
    SplitRepoRejects(invalid, "");
  }

  /** The catch block: an `HttpException` is rethrown as it is, anything else
      becomes a 500 with a fixed message. */
  function Classify(error: Thrown): (r: HttpException)
    ensures error.HttpError? ==> r == error.exception
    ensures error.PlainError? ==> r == HttpException(InternalServerError, GenerationFailedMessage)
  {
    match error
    case HttpError(exception) => exception
    case PlainError(_) => HttpException(InternalServerError, GenerationFailedMessage)
  }

  /** `create`: validation, then `fetch` with the two segments and the PR number,
      then `generate` with the fetched diff. */
  function Create(request: CreatePrSummaryRequest,
                  fetch: (string, string, int) -> Result<string, Thrown>,
                  generate: string -> Result<Gemini.GeminiResponse, Thrown>): (r: Result<PrSummaryResponse, HttpException>)
    ensures SplitRepo(request.repo).None? ==> r == Failure(HttpException(BadRequest, InvalidRepoMessage))
    ensures r.Success? ==>
      && SplitRepo(request.repo).Some?
      && var fetched := fetch(SplitRepo(request.repo).value.0, SplitRepo(request.repo).value.1, request.prNumber);
      && fetched.Success?
      && generate(fetched.value).Success?
      && r.value.summary == generate(fetched.value).value.summary
      && r.value.riskScore == generate(fetched.value).value.riskScore
    ensures SplitRepo(request.repo).Some? ==>
      var fetched := fetch(SplitRepo(request.repo).value.0, SplitRepo(request.repo).value.1, request.prNumber);
      && (fetched.Failure? ==> r == Failure(Classify(fetched.error)))
      && (fetched.Success? && generate(fetched.value).Failure? ==>
            r == Failure(Classify(generate(fetched.value).error)))
      && (fetched.Success? && generate(fetched.value).Success? ==>
            r == Success(PrSummaryResponse(generate(fetched.value).value.summary,
                                           generate(fetched.value).value.riskScore)))
  {
    match SplitRepo(request.repo)
    case None => Failure(HttpException(BadRequest, InvalidRepoMessage))
    case Some((owner, name)) =>
      match fetch(owner, name, request.prNumber)
      case Failure(error) => Failure(Classify(error))
      case Success(diff) =>
        match generate(diff)
        case Failure(error) => Failure(Classify(error))
        case Success(response) => Success(PrSummaryResponse(response.summary, response.riskScore))
  }

  /** A rejected repository name invokes neither collaborator: the outcome is the
      same whatever they would do. */
  lemma InvalidRepoInvokesNothing(request: CreatePrSummaryRequest,
                                  fetch: (string, string, int) -> Result<string, Thrown>,
                                  fetch': (string, string, int) -> Result<string, Thrown>,
                                  generate: string -> Result<Gemini.GeminiResponse, Thrown>,
                                  generate': string -> Result<Gemini.GeminiResponse, Thrown>)
    requires SplitRepo(request.repo).None?
    ensures Create(request, fetch, generate) == Create(request, fetch', generate')
    ensures Create(request, fetch, generate).error.status == BadRequest
  {
  }

  /** "owner/name" reaches the fetcher as owner, name and the unchanged PR number:
      only that one call of `fetch` matters. */
  lemma FetchReceivesSegments(owner: string, name: string, prNumber: int,
                              fetch: (string, string, int) -> Result<string, Thrown>,
                              fetch': (string, string, int) -> Result<string, Thrown>,
                              generate: string -> Result<Gemini.GeminiResponse, Thrown>)
    requires owner != "" && name != "" && '/' !in owner && '/' !in name
    requires fetch(owner, name, prNumber) == fetch'(owner, name, prNumber)
    ensures var request := CreatePrSummaryRequest(owner + "/" + name, prNumber);
      Create(request, fetch, generate) == Create(request, fetch', generate)
  {
    SplitRepoAccepts(owner, name, "");
  }

  /** The generator runs only after a successful fetch, and only on the fetched diff. */
  lemma GenerateReceivesDiff(request: CreatePrSummaryRequest,
                             fetch: (string, string, int) -> Result<string, Thrown>,
                             generate: string -> Result<Gemini.GeminiResponse, Thrown>,
                             generate': string -> Result<Gemini.GeminiResponse, Thrown>)
    requires SplitRepo(request.repo).Some?
    requires var fetched := fetch(SplitRepo(request.repo).value.0, SplitRepo(request.repo).value.1, request.prNumber);
      fetched.Success? ==> generate(fetched.value) == generate'(fetched.value)
    ensures Create(request, fetch, generate) == Create(request, fetch, generate')
  {
  }

  /** `GeminiService.generatePrSummary` as the generator: its `HttpException`s are
      what it throws. */
  function GeminiGenerator(complete: string -> Result<string, string>, parse: string -> Gemini.Parsed)
    : (g: string -> Result<Gemini.GeminiResponse, Thrown>)
    ensures forall diff :: g(diff).Failure? ==>
      && g(diff).error.HttpError?
      && g(diff).error.exception.status == InternalServerError
    ensures forall diff ::
      var service := Gemini.GeneratePrSummary(diff, complete, parse);
      && (service.Success? ==> g(diff) == Success(service.value))
      && (service.Failure? ==> g(diff) == Failure(HttpError(service.error)))
  {
    (diff: string) =>
      match Gemini.GeneratePrSummary(diff, complete, parse)
      case Success(response) => Success(response)
      case Failure(exception) => Failure(HttpError(exception))
  }

  /** With the real generator, once the diff is fetched the outcome is the
      generator's: its summary and score on success, its 500 unchanged on failure. */
  lemma CreateWithGemini(request: CreatePrSummaryRequest, owner: string, name: string, diff: string,
                         fetch: (string, string, int) -> Result<string, Thrown>,
                         complete: string -> Result<string, string>, parse: string -> Gemini.Parsed)
    requires SplitRepo(request.repo) == Some((owner, name))
    requires fetch(owner, name, request.prNumber) == Success(diff)
    ensures var generated := Gemini.GeneratePrSummary(diff, complete, parse);
      var r := Create(request, fetch, GeminiGenerator(complete, parse));
      && (generated.Success? ==> r == Success(PrSummaryResponse(generated.value.summary, generated.value.riskScore)))
      && (generated.Failure? ==> r == Failure(generated.error))
    ensures var r := Create(request, fetch, GeminiGenerator(complete, parse));
      r.Success? ==> 1 <= r.value.riskScore <= 5
    ensures var r := Create(request, fetch, GeminiGenerator(complete, parse));
      r.Failure? ==> r.error.status == InternalServerError
  {
  }

  /** A "PR not found" thrown by the fetcher reaches the caller as the same 404. */
  lemma NotFoundPassesThrough(request: CreatePrSummaryRequest,
                              fetch: (string, string, int) -> Result<string, Thrown>,
                              generate: string -> Result<Gemini.GeminiResponse, Thrown>)
    requires SplitRepo(request.repo).Some?
    requires fetch(SplitRepo(request.repo).value.0, SplitRepo(request.repo).value.1, request.prNumber)
             == Failure(HttpError(HttpException(NotFound, "PR not found")))
    ensures Create(request, fetch, generate) == Failure(HttpException(NotFound, "PR not found"))
  {
  }

  /** A plain error from a collaborator becomes a 500 "Failed to generate PR summary". */
  lemma PlainErrorBecomes500(request: CreatePrSummaryRequest, message: string,
                             fetch: (string, string, int) -> Result<string, Thrown>,
                             generate: string -> Result<Gemini.GeminiResponse, Thrown>)
    requires SplitRepo(request.repo).Some?
    requires var fetched := fetch(SplitRepo(request.repo).value.0, SplitRepo(request.repo).value.1, request.prNumber);
      fetched == Failure(PlainError(message))
      || (fetched.Success? && generate(fetched.value) == Failure(PlainError(message)))
    ensures Create(request, fetch, generate) == Failure(HttpException(InternalServerError, GenerationFailedMessage))
  {
  }
}
