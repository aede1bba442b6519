/** The judge (Codeforces) client of cf_api.py: the retry loop around one API
    call, and the functions that classify and normalise its answers. The HTTP
    session, the JSON decoder and the one-second pause are outside the model;
    the remote's answer to each attempt is given as a value. */
module JudgeClient {
  import opened Common

  /** `while tries < 5` */
  const MaxAttempts: nat := 5
  const RateLimitComment := "limit exceeded"
  const ApiErrorMessage := "Codeforces API Error"
  const SubmissionsErrorMessage := "CF API Error"
  /** `str(e)` of the KeyError for a missing `result`. */
  const MissingResultMessage := "'result'"
  const UserStatusBase := "https://codeforces.com/api/user.status?handle="

  /** The JSON envelope `{status, comment?, result?}` of every API answer.
      A comment that is absent (or not a string) is `None`. */
  datatype Envelope<T> = Envelope(status: string, comment: Option<string>, result: Option<T>)

  /** What one HTTP attempt yields. `Raised` stands for everything that makes
      the attempt throw: a network error, a body that is not a JSON object or
      has no `status` field. */
  datatype Reply<T> =
    | ServiceUnavailable
    | Body(envelope: Envelope<T>)
    | Raised

  /** How the loop treats one attempt. */
  datatype Step<T> =
    | Crash
    | Throttled(envelope: Envelope<T>)
    | Settled(envelope: Envelope<T>)

  /** The envelope an HTTP 503 answer is replaced with. */
  function ServiceUnavailableEnvelope<T>(): Envelope<T>
  {
    Envelope("FAILED", Some(RateLimitComment), None)
  }

  /** A FAILED envelope whose lower-cased comment mentions the rate limit. */
  predicate IsRateLimited<T>(e: Envelope<T>)
  {
    e.status == "FAILED" && e.comment.Some? && Contains(Lower(e.comment.value), RateLimitComment)
  }

  /** One attempt, as the body of the loop sees it: a throw ends the call, a
      rate-limit answer is retried, anything else is returned. A FAILED
      envelope without a comment throws when the comment is lower-cased. */
  function Classify<T>(reply: Reply<T>): (s: Step<T>)
    ensures s.Throttled? <==> (reply.ServiceUnavailable? || (reply.Body? && IsRateLimited(reply.envelope)))
    ensures s.Crash? <==> (reply.Raised? || (reply.Body? && reply.envelope.status == "FAILED" && reply.envelope.comment.None?))
    ensures s.Settled? ==> reply.Body? && s.envelope == reply.envelope && !IsRateLimited(reply.envelope)
    ensures s.Throttled? ==> IsRateLimited(s.envelope)
  {
    match reply
    case Raised => Crash
    case ServiceUnavailable =>
      assert OccursAt(Lower(RateLimitComment), RateLimitComment, 0);
      Throttled(ServiceUnavailableEnvelope())
    case Body(e) =>
      if e.status == "FAILED" && e.comment.None? then Crash
      else if IsRateLimited(e) then Throttled(e)
      else Settled(e)
  }

  /** The value of the call when attempt `i` is reached: the reference
      definition the loop is proved against. None is Python's None. */
  function Outcome<T>(replies: seq<Reply<T>>, i: nat): Option<Envelope<T>>
    requires i < MaxAttempts <= |replies|
    decreases MaxAttempts - i
  {
    match Classify(replies[i])
    case Crash => None
    case Settled(e) => Some(e)
    case Throttled(e) => if i == MaxAttempts - 1 then Some(e) else Outcome(replies, i + 1)
  }

  /** api_response: at most five attempts; only rate-limit answers are retried;
      `replies[k]` is the remote's answer to attempt k + 1. */
  method ApiResponse<T>(replies: seq<Reply<T>>) returns (response: Option<Envelope<T>>, tries: nat)
    requires MaxAttempts <= |replies|
    ensures response == Outcome(replies, 0)
    ensures 1 <= tries <= MaxAttempts
    ensures forall j :: 0 <= j < tries - 1 ==> Classify(replies[j]).Throttled?
    ensures tries < MaxAttempts ==> !Classify(replies[tries - 1]).Throttled?
  {
    tries := 0;
    var last: Envelope<T> := Envelope("", None, None);
    while tries < MaxAttempts
      invariant tries <= MaxAttempts
      invariant forall j :: 0 <= j < tries ==> Classify(replies[j]).Throttled?
      invariant 0 < tries ==> last == Classify(replies[tries - 1]).envelope
      invariant tries < MaxAttempts ==> Outcome(replies, 0) == Outcome(replies, tries)
      invariant tries == MaxAttempts ==> Outcome(replies, 0) == Some(last)
    {
      OutcomeSkipsThrottled(replies, tries);
      tries := tries + 1;
      var reply := replies[tries - 1];
      if reply.Raised? {
        return None, tries;
      }
      last := if reply.ServiceUnavailable? then ServiceUnavailableEnvelope() else reply.envelope;
      if last.status == "FAILED" && last.comment.None? {
        return None, tries;
      }
      if !(last.status == "FAILED" && Contains(Lower(last.comment.value), RateLimitComment)) {
        return Some(last), tries;
      }
      // a one-second pause here
    }
    response := Some(last);
  }

  /** Throttled attempts only pass the call on to the next one. */
  lemma {:induction false} OutcomeSkipsThrottled<T>(replies: seq<Reply<T>>, k: nat)
    requires k < MaxAttempts <= |replies|
    requires forall j :: 0 <= j < k ==> Classify(replies[j]).Throttled?
    ensures Outcome(replies, 0) == Outcome(replies, k)
  {
    if k > 0 {
      OutcomeSkipsThrottled(replies, k - 1);
    }
  }

  /** The first answer that is not a rate-limit failure is what the call returns. */
  lemma FirstSettledIsReturned<T>(replies: seq<Reply<T>>, k: nat)
    requires k < MaxAttempts <= |replies|
    requires forall j :: 0 <= j < k ==> Classify(replies[j]).Throttled?
    requires replies[k].Body? && !IsRateLimited(replies[k].envelope)
    requires !(replies[k].envelope.status == "FAILED" && replies[k].envelope.comment.None?)
    ensures Outcome(replies, 0) == Some(replies[k].envelope)
  {
    OutcomeSkipsThrottled(replies, k);
  }

  /** A throw before any settled answer makes the whole call None: an
      exception from the request or the decoder, or the KeyError of a FAILED
      answer without a comment. */
  lemma RaisedYieldsNone<T>(replies: seq<Reply<T>>, k: nat)
    requires k < MaxAttempts <= |replies|
    requires forall j :: 0 <= j < k ==> Classify(replies[j]).Throttled?
    requires Classify(replies[k]).Crash?
    ensures Outcome(replies, 0) == None
  {
    OutcomeSkipsThrottled(replies, k);
  }

  /** Five rate-limit answers in a row: the fifth is returned, not None. */
  lemma ExhaustedReturnsLastRateLimit<T>(replies: seq<Reply<T>>)
    requires MaxAttempts <= |replies|
    requires forall j :: 0 <= j < MaxAttempts ==> Classify(replies[j]).Throttled?
    ensures Outcome(replies, 0) == Some(Classify(replies[MaxAttempts - 1]).envelope)
    ensures IsRateLimited(Outcome(replies, 0).value)
  {
    OutcomeSkipsThrottled(replies, MaxAttempts - 1);
  }

  /** A rate-limit envelope comes back only once all five attempts were spent. */
  lemma {:induction false} RateLimitedResultMeansExhausted<T>(replies: seq<Reply<T>>, i: nat)
    requires i < MaxAttempts <= |replies|
    requires Outcome(replies, i).Some? && IsRateLimited(Outcome(replies, i).value)
    ensures forall j :: i <= j < MaxAttempts ==> Classify(replies[j]).Throttled?
    decreases MaxAttempts - i
  {
    if i < MaxAttempts - 1 && Classify(replies[i]).Throttled? {
      RateLimitedResultMeansExhausted(replies, i + 1);
    }
  }

  // ---------------------------------------------------------------------
  // user.info

  /** A judge rating always comes with its rank title. */
  datatype Standing = Unrated | Rated(rating: int, rank: string)

  datatype UserInfo = UserInfo(handle: string, standing: Standing, firstName: Option<string>)

  /** The reads of `response["comment"]` and `response["result"][0]` that
      check_handle makes do not throw. */
  predicate CheckableUserInfo(response: Option<Envelope<seq<UserInfo>>>)
  {
    response.Some? ==>
      (response.value.status == "OK" ==> response.value.result.Some? && |response.value.result.value| > 0) &&
      (response.value.status != "OK" ==> response.value.comment.Some?)
  }

  /** check_handle: the user record on an OK answer, the judge's comment on a
      refusal, a fixed message when the call itself failed. */
  function CheckHandle(response: Option<Envelope<seq<UserInfo>>>): (r: Fetch<UserInfo>)
    requires CheckableUserInfo(response)
    ensures r.Fetched? <==> response.Some? && response.value.status == "OK"
    ensures r.Fetched? ==> r.value == response.value.result.value[0]
    ensures response.None? ==> r.message == ApiErrorMessage
    ensures response.Some? && response.value.status != "OK" ==> r.message == response.value.comment.value
  {
    if response.None? then FetchFailed(ApiErrorMessage)
    else if response.value.status != "OK" then FetchFailed(response.value.comment.value)
    else Fetched(response.value.result.value[0])
  }

  /** Because the loop returns its last rate-limit answer, a lookup that was
      throttled five times reports the judge's comment, not the API error. */
  lemma ThrottledLookupReportsComment(replies: seq<Reply<seq<UserInfo>>>)
    requires MaxAttempts <= |replies|
    requires forall j :: 0 <= j < MaxAttempts ==> Classify(replies[j]).Throttled?
    ensures CheckableUserInfo(Outcome(replies, 0))
    ensures CheckHandle(Outcome(replies, 0)) == FetchFailed(Classify(replies[MaxAttempts - 1]).envelope.comment.value)
    ensures replies[MaxAttempts - 1].ServiceUnavailable? ==> CheckHandle(Outcome(replies, 0)) == FetchFailed(RateLimitComment)
  {
    ExhaustedReturnsLastRateLimit(replies);
  }

  /** What a client call does: it returns a value, or an exception leaves it
      (and the command that awaited it). */
  datatype Call<T> = Returns(value: T) | Raises(error: string)

  /** The exceptions `response["result"][0]` raises: the key is missing (a
      FAILED answer, such as the last rate-limit answer of an exhausted
      retry), or the user list is empty. */
  const MissingResult := "KeyError: " + MissingResultMessage
  const NoFirstUser := "IndexError: list index out of range"

  /** `response["result"][0]` can be read without an exception. */
  predicate HasFirstUser(response: Envelope<seq<UserInfo>>)
  {
    response.result.Some? && |response.result.value| > 0
  }

  /** The exception `response["result"][0]` raises on an answer that does
      not hold a first user. */
  function FirstUserError(response: Envelope<seq<UserInfo>>): string
  {
    if response.result.None? then MissingResult else NoFirstUser
  }

  /** get_rating: None when the call failed, 0 for an unrated user; an
      answer without a first user raises. */
  function GetRating(response: Option<Envelope<seq<UserInfo>>>): (r: Call<Option<int>>)
    ensures r.Raises? <==> response.Some? && !HasFirstUser(response.value)
    ensures r.Raises? && response.value.result.None? ==> r.error == MissingResult
    ensures r == Returns(None) <==> response.None?
    ensures r.Returns? && r.value.Some? && response.value.result.value[0].standing.Unrated? ==> r.value.value == 0
    ensures r.Returns? && r.value.Some? && response.value.result.value[0].standing.Rated? ==>
              r.value.value == response.value.result.value[0].standing.rating
  {
    if response.None? then Returns(None)
    else if !HasFirstUser(response.value) then Raises(FirstUserError(response.value))
    else match response.value.result.value[0].standing
      case Rated(rating, _) => Returns(Some(rating))
      case Unrated => Returns(Some(0))
  }

  /** get_first_name: None when the call failed or the user has no first
      name; an answer without a first user raises. */
  function GetFirstName(response: Option<Envelope<seq<UserInfo>>>): (r: Call<Option<string>>)
    ensures r.Raises? <==> response.Some? && !HasFirstUser(response.value)
    ensures r.Raises? && response.value.result.None? ==> r.error == MissingResult
    ensures r.Returns? && r.value.Some? <==>
              response.Some? && HasFirstUser(response.value) && response.value.result.value[0].firstName.Some?
    ensures r.Returns? && r.value.Some? ==> r.value == response.value.result.value[0].firstName
  {
    if response.None? then Returns(None)
    else if !HasFirstUser(response.value) then Raises(FirstUserError(response.value))
    else Returns(response.value.result.value[0].firstName)
  }

  /** A read-back throttled five times ends in the last rate-limit answer;
      when that has no `result` (always so for an HTTP 503), get_first_name
      and get_rating raise instead of returning None. */
  lemma ThrottledReadBackRaises(replies: seq<Reply<seq<UserInfo>>>)
    requires MaxAttempts <= |replies|
    requires forall j :: 0 <= j < MaxAttempts ==> Classify(replies[j]).Throttled?
    requires Classify(replies[MaxAttempts - 1]).envelope.result.None?
    ensures GetFirstName(Outcome(replies, 0)) == Raises(MissingResult)
    ensures GetRating(Outcome(replies, 0)) == Raises(MissingResult)
  {
    ExhaustedReturnsLastRateLimit(replies);
  }

  // ---------------------------------------------------------------------
  // user.status

  datatype RawProblem = RawProblem(contestId: int, index: string, name: string, kind: string, rating: Option<int>)

  /** One element of the user.status result; `verdict` is absent while judging. */
  datatype RawSubmission = RawSubmission(problem: RawProblem, creationTimeSeconds: int, verdict: Option<string>)

  /** The `Problem` record get_user_problems builds (`id` is the contest id). */
  datatype Submission = Submission(id: int, index: string, name: string, kind: string,
                                   rating: int, subTime: int, verdict: Option<string>)

  /** The address get_user_problems asks; `count` is appended only when it is
      truthy (present and non-zero). */
  function UserStatusUrl(handle: string, count: Option<int>): (url: string)
    ensures |UserStatusBase + handle| <= |url|
    ensures url[..|UserStatusBase + handle|] == UserStatusBase + handle
    ensures |url| > |UserStatusBase + handle| <==> count.Some? && count.value != 0
    ensures |url| > |UserStatusBase + handle| ==>
      url[|UserStatusBase + handle|..] == CountSuffix(count.value)
  {
    var prefix := UserStatusBase + handle;
    if count.Some? && count.value != 0 then
      var url := prefix + CountSuffix(count.value);
      assert url[..|prefix|] == prefix;
      assert url[|prefix|..] == CountSuffix(count.value);
      url
    else prefix
  }

  function CountSuffix(count: int): (s: string)
    ensures |s| > 0
  {
    "&from=1&count=" + IntToString(count)
  }

  predicate HasRating(x: RawSubmission)
  {
    x.problem.rating.Some?
  }

  function ToSubmission(x: RawSubmission): Submission
    requires HasRating(x)
  {
    Submission(x.problem.contestId, x.problem.index, x.problem.name, x.problem.kind,
               x.problem.rating.value, x.creationTimeSeconds, x.verdict)
  }

  /** The records get_user_problems keeps: rated problems only, in order. */
  function Normalised(result: seq<RawSubmission>): seq<Submission>
  {
    if result == [] then []
    else Normalised(result[..|result| - 1])
         + (if HasRating(Last(result)) then [ToSubmission(Last(result))] else [])
  }

  /** Normalisation keeps the order of the submissions. */
  lemma {:induction false} NormalisedAppend(s: seq<RawSubmission>, t: seq<RawSubmission>)
    ensures Normalised(s + t) == Normalised(s) + Normalised(t)
    decreases |t|
  {
    if t != [] {
      assert (s + t)[..|s + t| - 1] == s + t[..|t| - 1];
      NormalisedAppend(s, t[..|t| - 1]);
    } else {
      assert s + t == s;
    }
  }

  /** A record is kept exactly when it comes from a rated submission, and its
      verdict is carried over (absent stays None). */
  lemma {:induction false} NormalisedMembers(result: seq<RawSubmission>, y: Submission)
    ensures y in Normalised(result) <==> exists i :: 0 <= i < |result| && HasRating(result[i]) && ToSubmission(result[i]) == y
  {
    if result != [] {
      var init := result[..|result| - 1];
      NormalisedMembers(init, y);
      if y in Normalised(result) && !(y in Normalised(init)) {
        assert ToSubmission(result[|result| - 1]) == y;
      }
      forall i | 0 <= i < |init| && HasRating(init[i]) && ToSubmission(init[i]) == y
        ensures HasRating(result[i]) && ToSubmission(result[i]) == y
      {
        assert result[i] == init[i];
      }
      if exists i :: 0 <= i < |result| && HasRating(result[i]) && ToSubmission(result[i]) == y {
        var i :| 0 <= i < |result| && HasRating(result[i]) && ToSubmission(result[i]) == y;
        if i < |init| {
          assert init[i] == result[i];
        }
      }
    }
  }

  /** When every problem is rated, nothing is dropped. */
  lemma {:induction false} NormalisedAllRated(result: seq<RawSubmission>)
    requires forall i :: 0 <= i < |result| ==> HasRating(result[i])
    ensures |Normalised(result)| == |result|
    ensures forall i :: 0 <= i < |result| ==> Normalised(result)[i] == ToSubmission(result[i])
  {
    if result != [] {
      NormalisedAllRated(result[..|result| - 1]);
    }
  }

  /** The loop of get_user_problems over an OK answer's result. */
  method NormaliseSubmissions(result: seq<RawSubmission>) returns (data: seq<Submission>)
    ensures data == Normalised(result)
  {
    data := [];
    var i := 0;
    while i < |result|
      invariant i <= |result|
      invariant data == Normalised(result[..i])
    {
      var x := result[i];
      assert result[..i + 1][..i] == result[..i];
      if HasRating(x) {
        data := data + [ToSubmission(x)];
      }
      i := i + 1;
    }
    assert result[..i] == result;
  }

  /** get_user_problems may read `response["comment"]` of a refusal without a throw. */
  predicate CheckableSubmissions(response: Option<Envelope<seq<RawSubmission>>>)
  {
    response.Some? && response.value.status != "OK" ==> response.value.comment.Some?
  }

  /** get_user_problems over the answers `replies` to its attempts. An OK
      answer without a result makes the `try` block report the KeyError. */
  method GetUserProblems(handle: string, count: Option<int>, replies: seq<Reply<seq<RawSubmission>>>)
    returns (url: string, r: Fetch<seq<Submission>>)
    requires MaxAttempts <= |replies|
    requires CheckableSubmissions(Outcome(replies, 0))
    ensures url == UserStatusUrl(handle, count)
    ensures Outcome(replies, 0).None? ==> r == FetchFailed(SubmissionsErrorMessage)
    ensures Outcome(replies, 0).Some? && Outcome(replies, 0).value.status != "OK" ==>
              r == FetchFailed(Outcome(replies, 0).value.comment.value)
    ensures r.Fetched? <==> Outcome(replies, 0).Some? && Outcome(replies, 0).value.status == "OK"
                            && Outcome(replies, 0).value.result.Some?
    ensures Outcome(replies, 0).Some? && Outcome(replies, 0).value.status == "OK" && Outcome(replies, 0).value.result.None? ==>
              r == FetchFailed(MissingResultMessage)
    ensures r.Fetched? ==> r.value == Normalised(Outcome(replies, 0).value.result.value)
  {
    url := UserStatusUrl(handle, count);
    var response, _ := ApiResponse(replies);
    if response.None? {
      return url, FetchFailed(SubmissionsErrorMessage);
    }
    if response.value.status != "OK" {
      return url, FetchFailed(response.value.comment.value);
    }
    if response.value.result.None? {
      return url, FetchFailed(MissingResultMessage);
    }
    var data := NormaliseSubmissions(response.value.result.value);
    r := Fetched(data);
  }
}
