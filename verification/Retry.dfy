/** The transparent retry of rate-limited requests: which requests, how often, and for how long. */
module Retry {
  import opened Common

  const TOO_MANY_REQUESTS: int := 429
  const MAX_RETRY_AFTER: int := 60

  datatype Response = Response(status: int, retryAfter: Option<int>)

  // ---------- Which requests ----------

  function Upper(s: string): (u: string)
    ensures |u| == |s|
  {
    seq(|s|, i requires 0 <= i < |s| => if 'a' <= s[i] <= 'z' then s[i] - 'a' + 'A' else s[i])
  }

  const RETRYABLE_POST_SUFFIXES: seq<string> := [
    "/actions/validate",
    "/actions/validate-key",
    "/actions/check-in",
    "/actions/check-out",
    "/actions/ping",
    "/actions/ping-heartbeat",
    "/actions/reset-heartbeat"
  ]

  predicate EndsWithAny(path: string, suffixes: seq<string>) {
    suffixes != [] && (EndsWith(path, suffixes[0]) || EndsWithAny(path, suffixes[1..]))
  }

  /** `_is_retryable`. */
  predicate IsRetryable(verb: string, path: string) {
    Upper(verb) == "GET" || (Upper(verb) == "POST" && EndsWithAny(path, RETRYABLE_POST_SUFFIXES))
  }

  lemma {:induction false} EndsWithSome(path: string, suffixes: seq<string>, i: nat)
    requires i < |suffixes| && EndsWith(path, suffixes[i])
    ensures EndsWithAny(path, suffixes)
  {
    if i > 0 {
      EndsWithSome(path, suffixes[1..], i - 1);
    }
  }

  lemma {:induction false} EndsWithNone(path: string, suffixes: seq<string>)
    requires forall i :: 0 <= i < |suffixes| ==> !EndsWith(path, suffixes[i])
    ensures !EndsWithAny(path, suffixes)
  {
    if suffixes != [] {
      assert !EndsWith(path, suffixes[0]);
      assert forall i :: 0 <= i < |suffixes[1..]| ==> suffixes[1..][i] == suffixes[i + 1];
      EndsWithNone(path, suffixes[1..]);
    }
  }

  lemma {:induction false} EndsWithAnyMeans(path: string, suffixes: seq<string>) returns (i: nat)
    requires EndsWithAny(path, suffixes)
    ensures i < |suffixes| && EndsWith(path, suffixes[i])
  {
    if EndsWith(path, suffixes[0]) {
      i := 0;
    } else {
      var k := EndsWithAnyMeans(path, suffixes[1..]);
      i := k + 1;
    }
  }

  /** The path is a licensing action on some resource. */
  ghost predicate IsAction(path: string) {
    exists resource, i :: 0 <= i < |RETRYABLE_POST_SUFFIXES| && path == resource + RETRYABLE_POST_SUFFIXES[i]
  }

  /** The same word, in capitals or not. */
  predicate IsVerb(verb: string, word: string) {
    |verb| == |word| && forall i :: 0 <= i < |word| ==> verb[i] == word[i] || IsSmall(verb[i], word[i])
  }

  predicate IsSmall(c: char, capital: char) {
    'a' <= c <= 'z' && c as int == capital as int + 32
  }

  lemma UpperExactly(verb: string, word: string)
    requires forall i :: 0 <= i < |word| ==> 'A' <= word[i] <= 'Z'
    ensures Upper(verb) == word <==> IsVerb(verb, word)
  {
    var u := Upper(verb);
    if IsVerb(verb, word) {
      forall i | 0 <= i < |word| ensures u[i] == word[i] {
      }
    }
    if u == word {
      forall i | 0 <= i < |word| ensures verb[i] == word[i] || IsSmall(verb[i], word[i]) {
        assert u[i] == word[i];
      }
    }
  }

  /** Reads are retried, posted licensing actions on any resource are, and nothing else is. */
  lemma RetryableExactly(verb: string, path: string)
    ensures IsRetryable(verb, path) <==> IsVerb(verb, "GET") || (IsVerb(verb, "POST") && IsAction(path))
  {
    UpperExactly(verb, "GET");
    UpperExactly(verb, "POST");
    var suffixes := RETRYABLE_POST_SUFFIXES;
    if EndsWithAny(path, suffixes) {
      var i := EndsWithAnyMeans(path, suffixes);
      var cut := |path| - |suffixes[i]|;
      assert path == path[..cut] + path[cut..];
      assert path == path[..cut] + suffixes[i];
    }
    forall resource, i | 0 <= i < |suffixes| && path == resource + suffixes[i] ensures EndsWithAny(path, suffixes) {
      assert (resource + suffixes[i])[|resource|..] == suffixes[i];
      EndsWithSome(path, suffixes, i);
    }
  }

  /** What stands after the last slash of a path. */
  function LastSegment(path: string): (segment: string)
    ensures forall i :: 0 <= i < |segment| ==> segment[i] != '/'
    ensures |segment| <= |path| && path[|path| - |segment|..] == segment
    ensures |segment| < |path| ==> path[|path| - |segment| - 1] == '/'
  {
    if path == "" || path[|path| - 1] == '/' then ""
    else
      var front := LastSegment(path[..|path| - 1]);
      assert path[..|path| - 1][|path| - 1 - |front|..] == front;
      front + [path[|path| - 1]]
  }

  const ACTIONS_PATH: string := "/actions/"

  const ACTION_NAMES: seq<string> := [
    "validate", "validate-key", "check-in", "check-out", "ping", "ping-heartbeat", "reset-heartbeat"
  ]

  lemma SuffixesAreActions(i: nat)
    requires i < |RETRYABLE_POST_SUFFIXES|
    ensures |ACTION_NAMES| == |RETRYABLE_POST_SUFFIXES|
    ensures RETRYABLE_POST_SUFFIXES[i] == ACTIONS_PATH + ACTION_NAMES[i]
  {
  }

  lemma NamesHaveNoSlash(i: nat)
    requires i < |ACTION_NAMES|
    ensures forall k :: 0 <= k < |ACTION_NAMES[i]| ==> ACTION_NAMES[i][k] != '/'
  {
  }

  lemma LastSegmentGrows(path: string, c: char)
    requires c != '/'
    ensures LastSegment(path + [c]) == LastSegment(path) + [c]
  {
    assert (path + [c])[..|path|] == path;
  }

  lemma SplitLast(front: string, segment: string)
    requires segment != ""
    ensures
      var shorter, last := segment[..|segment| - 1], [segment[|segment| - 1]];
      segment == shorter + last && front + segment == (front + shorter) + last
  {
  }

  lemma {:induction false} LastSegmentIs(front: string, segment: string)
    requires (forall k :: 0 <= k < |segment| ==> segment[k] != '/') && front != "" && front[|front| - 1] == '/'
    ensures LastSegment(front + segment) == segment
  {
    if segment == "" {
      assert front + segment == front;
    } else {
      var shorter, last := segment[..|segment| - 1], segment[|segment| - 1];
      LastSegmentIs(front, shorter);
      LastSegmentGrows(front + shorter, last);
      SplitLast(front, segment);
    }
  }

  lemma ActionEnds(resource: string, i: nat)
    requires i < |RETRYABLE_POST_SUFFIXES|
    ensures LastSegment(resource + RETRYABLE_POST_SUFFIXES[i]) in ACTION_NAMES
  {
    SuffixesAreActions(i);
    NamesHaveNoSlash(i);
    var front, name := resource + ACTIONS_PATH, ACTION_NAMES[i];
    assert resource + (ACTIONS_PATH + name) == front + name;
    assert ACTIONS_PATH[|ACTIONS_PATH| - 1] == '/' && front[|front| - 1] == ACTIONS_PATH[|ACTIONS_PATH| - 1];
    LastSegmentIs(front, name);
  }

  /**
   * A request that is no read, and whose path does not end in the name of an action, goes out once;
   * creates among them.
   */
  lemma OnlyActionsAreRetried(verb: string, path: string)
    ensures IsRetryable(verb, path) ==> IsVerb(verb, "GET") || LastSegment(path) in ACTION_NAMES
  {
    RetryableExactly(verb, path);
    forall resource, i | 0 <= i < |RETRYABLE_POST_SUFFIXES|
      ensures LastSegment(resource + RETRYABLE_POST_SUFFIXES[i]) in ACTION_NAMES
    {
      ActionEnds(resource, i);
    }
  }

  // ---------- How long ----------

  function Pow2(n: nat): (r: nat)
    ensures r >= 1
  {
    if n == 0 then 1 else 2 * Pow2(n - 1)
  }

  /** `_retry_delay`; `jitter` is what `random.random()` returned. */
  function RetryDelay(attempt: nat, retryAfter: Option<int>, jitter: real): real {
    match retryAfter
    case Some(seconds) => (if seconds < MAX_RETRY_AFTER then seconds else MAX_RETRY_AFTER) as real
    case None => Pow2(if attempt < 5 then attempt else 5) as real + jitter
  }

  ghost predicate IsJitter(jitter: nat -> real) {
    forall k :: 0.0 <= jitter(k) < 1.0
  }

  function Sum(delays: seq<real>): real {
    if delays == [] then 0.0 else Sum(delays[..|delays| - 1]) + delays[|delays| - 1]
  }

  lemma SumAppend(delays: seq<real>, delay: real)
    ensures Sum(delays + [delay]) == Sum(delays) + delay
  {
    assert (delays + [delay])[..|delays|] == delays;
  }

  /** One second, then twice as long each time, up to the sixth. */
  function Doubling(attempt: nat): int {
    if attempt == 0 then 1 else if attempt == 1 then 2 else if attempt == 2 then 4
    else if attempt == 3 then 8 else if attempt == 4 then 16 else 32
  }

  lemma DelayBounds(attempt: nat, retryAfter: Option<int>, jitter: real)
    requires 0.0 <= jitter < 1.0
    ensures RetryDelay(attempt, retryAfter, jitter) <= 60.0
    ensures RetryDelay(attempt, retryAfter, jitter) < 0.0 <==> retryAfter.Some? && retryAfter.value < 0
    ensures retryAfter.Some?
        ==> (RetryDelay(attempt, retryAfter, jitter) == retryAfter.value as real <==> retryAfter.value <= 60)
    ensures retryAfter.Some? && retryAfter.value > 60 ==> RetryDelay(attempt, retryAfter, jitter) == 60.0
    ensures retryAfter.None? ==>
              && RetryDelay(attempt, retryAfter, jitter) == (Doubling(attempt) as real) + jitter
              && 1.0 <= RetryDelay(attempt, retryAfter, jitter) < 33.0
  {
    assert Pow2(0) == 1 && Pow2(1) == 2 && Pow2(2) == 4 && Pow2(3) == 8 && Pow2(4) == 16 && Pow2(5) == 32;
  }

  /** The exponential part of the first `n` delays: doubling up to the sixth, level after it. */
  function BackoffBase(n: nat): nat {
    if n <= 6 then Pow2(n) - 1 else 63 + 32 * (n - 6)
  }

  /** Without a `Retry-After`, `n` retries wait the doubling total plus less than a second of jitter each. */
  lemma {:induction false} BackoffTotal(slept: seq<real>, jitter: nat -> real)
    requires IsJitter(jitter)
    requires forall k :: 0 <= k < |slept| ==> slept[k] == RetryDelay(k, None, jitter(k))
    ensures BackoffBase(|slept|) as real <= Sum(slept) <= (BackoffBase(|slept|) + |slept|) as real
  {
    if slept != [] {
      var n := |slept| - 1;
      BackoffTotal(slept[..n], jitter);
      assert Pow2(0) == 1 && Pow2(1) == 2 && Pow2(2) == 4 && Pow2(3) == 8 && Pow2(4) == 16 && Pow2(5) == 32
        && Pow2(6) == 64;
      assert BackoffBase(n + 1) == BackoffBase(n) + Pow2(if n < 5 then n else 5);
    }
  }

  // ---------- The loop ----------

  /** `sleep` refuses a negative length; the refusal leaves the loop. */
  datatype Outcome = Answered(response: Response) | SleepRefused

  /** How many times a request may be repeated. */
  function Budget(retryable: bool, maxRetries: int): nat {
    if retryable && maxRetries > 0 then maxRetries else 0
  }

  /** Each sleep is what the delay rule says, and none was refused. */
  ghost predicate SleptByRule(slept: seq<real>, respond: nat -> Response, jitter: nat -> real) {
    forall k :: 0 <= k < |slept| ==> slept[k] == RetryDelay(k, respond(k).retryAfter, jitter(k)) && slept[k] >= 0.0
  }

  ghost predicate Throttled(respond: nat -> Response, sends: nat) {
    forall k :: 0 <= k < sends ==> respond(k).status == 429
  }

  /** The server answers send `k` with a delay that `sleep` refuses. */
  predicate AsksNegative(respond: nat -> Response, k: nat) {
    respond(k).retryAfter.Some? && respond(k).retryAfter.value < 0
  }

  /** Some send with a retry left is answered, after nothing but 429s, by a 429 with a negative delay. */
  ghost predicate MeetsRefusal(respond: nat -> Response, budget: nat) {
    exists k: nat :: k < budget && Throttled(respond, k + 1) && AsksNegative(respond, k)
  }

  /** A run of sends that slept after each one but the last met no refusal before that. */
  lemma SleptNotRefused(slept: seq<real>, respond: nat -> Response, jitter: nat -> real)
    requires IsJitter(jitter) && SleptByRule(slept, respond, jitter)
    ensures forall k :: 0 <= k < |slept| ==> !AsksNegative(respond, k)
  {
    forall k | 0 <= k < |slept| ensures !AsksNegative(respond, k) {
      DelayBounds(k, respond(k).retryAfter, jitter(k));
    }
  }

  lemma AnsweredNotRefused(respond: nat -> Response, sends: nat, budget: nat)
    requires sends >= 1 && forall k :: 0 <= k < sends - 1 ==> !AsksNegative(respond, k)
    requires respond(sends - 1).status != TOO_MANY_REQUESTS || sends > budget
    ensures !MeetsRefusal(respond, budget)
  {
    forall k: nat | k < budget && AsksNegative(respond, k) ensures !Throttled(respond, k + 1) {
      assert k >= sends - 1;
    }
  }

  /**
   * The retry loop: `respond(k)` is the answer to send `k`. At least one send, one more only after a
   * 429 and within the budget; the answer is the first non-429, or the 429 on which the budget ran out.
   */
  method SendLoop(retryable: bool, maxRetries: int, respond: nat -> Response, jitter: nat -> real)
    returns (outcome: Outcome, sends: nat, slept: seq<real>)
    requires IsJitter(jitter)
    ensures 1 <= sends <= Budget(retryable, maxRetries) + 1 && Throttled(respond, sends - 1)
    ensures outcome.Answered? ==>
              && outcome.response == respond(sends - 1)
              && (outcome.response.status == 429 ==> sends == Budget(retryable, maxRetries) + 1)
    ensures outcome.SleepRefused? ==>
              && sends <= Budget(retryable, maxRetries) && Throttled(respond, sends)
              && AsksNegative(respond, sends - 1)
    ensures outcome.SleepRefused? <==> MeetsRefusal(respond, Budget(retryable, maxRetries))
    ensures |slept| == sends - 1 && SleptByRule(slept, respond, jitter)
    ensures 0.0 <= Sum(slept) <= (60 * (sends - 1)) as real
  {
    var attempt := 0;
    sends, slept := 0, [];
    while true
      invariant sends == attempt == |slept| <= Budget(retryable, maxRetries)
      invariant Throttled(respond, sends) && SleptByRule(slept, respond, jitter)
      invariant 0.0 <= Sum(slept) <= (MAX_RETRY_AFTER * attempt) as real
      decreases Budget(retryable, maxRetries) - attempt
    {
      var response := respond(attempt);
      sends := sends + 1;
      if response.status != TOO_MANY_REQUESTS || !retryable || attempt >= maxRetries {
        SleptNotRefused(slept, respond, jitter);
        AnsweredNotRefused(respond, sends, Budget(retryable, maxRetries));
        return Answered(response), sends, slept;
      }
      var delay := RetryDelay(attempt, response.retryAfter, jitter(attempt));
      DelayBounds(attempt, response.retryAfter, jitter(attempt));
      if delay < 0.0 {
        assert Throttled(respond, attempt + 1) && AsksNegative(respond, attempt);
        return SleepRefused, sends, slept;
      }
      SumAppend(slept, delay);
      slept := slept + [delay];
      attempt := attempt + 1;
    }
  }

  /** `_request_with_retry`: a create goes out exactly once, whatever the answer. */
  method RequestWithRetry(verb: string, path: string, maxRetries: int, respond: nat -> Response, jitter: nat -> real)
    returns (outcome: Outcome, sends: nat, slept: seq<real>)
    requires IsJitter(jitter)
    ensures 1 <= sends <= (if maxRetries > 0 then maxRetries else 0) + 1 && Throttled(respond, sends - 1)
    ensures !IsRetryable(verb, path) ==> outcome == Answered(respond(0)) && sends == 1
    ensures outcome.Answered? ==>
              && outcome.response == respond(sends - 1)
              && (outcome.response.status == 429
                ==> sends == Budget(IsRetryable(verb, path), maxRetries) + 1)
    ensures outcome.SleepRefused? ==>
              && sends <= Budget(IsRetryable(verb, path), maxRetries) && Throttled(respond, sends)
              && AsksNegative(respond, sends - 1)
    ensures outcome.SleepRefused? <==> MeetsRefusal(respond, Budget(IsRetryable(verb, path), maxRetries))
    ensures |slept| == sends - 1 && SleptByRule(slept, respond, jitter)
    ensures 0.0 <= Sum(slept) <= (60 * (sends - 1)) as real
  {
    outcome, sends, slept := SendLoop(IsRetryable(verb, path), maxRetries, respond, jitter);
  }
}
