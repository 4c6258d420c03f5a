/** The retry policy of `fetch_page_robust` (msci-intelligence-v2.py:340-376).
    The network is an oracle: `outcome(k)` is what request number `k` to the
    URL gives. The seconds the policy sleeps are recorded rather than slept. */
module MsciFetch {
  import opened Common

  /** What one `requests.get` followed by `raise_for_status` can end in. */
  datatype FetchOutcome =
    | Ok(body: string)          // a status below 400: `response.text`
    | HttpError(status: nat)    // `raise_for_status` raised for this status code
    | Timeout                   // `requests.exceptions.Timeout`
    | OtherError                // any other exception

  /** The number of requests made, the seconds slept between them, and the page
      text returned (None when the policy gave up). */
  datatype FetchTrace = FetchTrace(body: Option<string>, attempts: nat, sleeps: seq<nat>)

  const NotFoundStatus: nat := 404
  const DefaultRetries: nat := 3

  /** The back-off factor 2^n: positive, and outgrowing n. */
  function Pow2(n: nat): (r: nat)
    ensures r >= 1 && r > n
  {
    if n == 0 then 1 else 2 * Pow2(n - 1)
  }

  function Sum(xs: seq<nat>): nat {
    if xs == [] then 0 else xs[0] + Sum(xs[1..])
  }

  /** A failure after which another attempt is made, unless it was the last. */
  predicate Retryable(o: FetchOutcome) {
    o.Timeout? || o.OtherError? || (o.HttpError? && o.status != NotFoundStatus)
  }

  /** The policy from attempt `a` on: a success returns the text, a 404 gives up
      at once, any other failure gives up on the last attempt and otherwise
      tries again, after sleeping 2^a seconds for a timeout, 1 second for any
      other exception, and not at all for an HTTP error. */
  function RetryFrom(outcome: nat -> FetchOutcome, retries: nat, a: nat): (t: FetchTrace)
    decreases retries - a
  {
    if a >= retries then FetchTrace(None, a, [])
    else
      match outcome(a)
      case Ok(body) => FetchTrace(Some(body), a + 1, [])
      case HttpError(status) =>
        if status == NotFoundStatus || a == retries - 1 then FetchTrace(None, a + 1, [])
        else RetryFrom(outcome, retries, a + 1)
      case Timeout =>
        if a == retries - 1 then FetchTrace(None, a + 1, [])
        else var t := RetryFrom(outcome, retries, a + 1); t.(sleeps := [Pow2(a)] + t.sleeps)
      case OtherError =>
        if a == retries - 1 then FetchTrace(None, a + 1, [])
        else var t := RetryFrom(outcome, retries, a + 1); t.(sleeps := [1] + t.sleeps)
  }

  /** The seconds slept after a retryable failure at attempt `a`. */
  function Backoff(o: FetchOutcome, a: nat): seq<nat> {
    match o
    case Timeout => [Pow2(a)]
    case OtherError => [1]
    case _ => []
  }

  /** A retryable failure before the last attempt continues with the next
      attempt, after its back-off. */
  lemma RetryContinues(outcome: nat -> FetchOutcome, retries: nat, a: nat)
    requires a + 1 < retries && Retryable(outcome(a))
    ensures var t := RetryFrom(outcome, retries, a + 1);
      RetryFrom(outcome, retries, a) == t.(sleeps := Backoff(outcome(a), a) + t.sleeps)
  {
  }

  /** `fetch_page_robust(url, timeout, retries)`: `outcome` stands for the
      network as seen from this URL; the URL, timeout and headers only shape
      the requests. */
  method FetchPageRobust(url: string, outcome: nat -> FetchOutcome, timeout: nat, retries: nat)
    returns (body: Option<string>, attempts: nat, sleeps: seq<nat>)
    ensures FetchTrace(body, attempts, sleeps) == RetryFrom(outcome, retries, 0)
  {
    sleeps := [];
    for attempt := 0 to retries
      invariant var rest := RetryFrom(outcome, retries, attempt);
        RetryFrom(outcome, retries, 0) == FetchTrace(rest.body, rest.attempts, sleeps + rest.sleeps)
    {
      var pause: seq<nat> := [];
      var o := outcome(attempt);
      match o {
      case Ok(text) =>
        return Some(text), attempt + 1, sleeps;
      case HttpError(status) =>
        if status == NotFoundStatus {
          return None, attempt + 1, sleeps;
        } else if attempt == retries - 1 {
          return None, attempt + 1, sleeps;
        }
      case Timeout =>
        if attempt == retries - 1 {
          return None, attempt + 1, sleeps;
        }
        pause := [Pow2(attempt)];
      case OtherError =>
        if attempt == retries - 1 {
          return None, attempt + 1, sleeps;
        }
        pause := [1];
      }
      assert Retryable(o) && attempt + 1 < retries && pause == Backoff(o, attempt);
      RetryContinues(outcome, retries, attempt);
      var rest := RetryFrom(outcome, retries, attempt + 1);
      assert sleeps + (pause + rest.sleeps) == (sleeps + pause) + rest.sleeps;
      sleeps := sleeps + pause;
    }
    assert sleeps + [] == sleeps;
    return None, retries, sleeps;
  }

  /** At most `retries` requests are made, and at least one when any is allowed;
      the policy sleeps only between two requests, so never after the last. */
  lemma {:induction false} RetryBounds(outcome: nat -> FetchOutcome, retries: nat, a: nat)
    requires a <= retries
    ensures var t := RetryFrom(outcome, retries, a);
      a <= t.attempts <= retries && (a < retries ==> a < t.attempts)
      && |t.sleeps| <= t.attempts - a && (a < retries ==> |t.sleeps| < t.attempts - a)
      && (t.attempts < retries ==> !Retryable(outcome(t.attempts - 1)))
    decreases retries - a
  {
    if a < retries && a != retries - 1 && Retryable(outcome(a)) {
      RetryBounds(outcome, retries, a + 1);
    }
  }

  /** The page text comes back exactly when some attempt succeeds and every
      attempt before it failed in a retryable way. */
  lemma {:induction false} RetrySucceedsIff(outcome: nat -> FetchOutcome, retries: nat, a: nat)
    ensures RetryFrom(outcome, retries, a).body.Some? <==>
      exists k :: a <= k < retries && outcome(k).Ok? && forall j :: a <= j < k ==> Retryable(outcome(j))
    decreases retries - a
  {
    if a >= retries || outcome(a).Ok? {
    } else if !Retryable(outcome(a)) {
      forall k | a <= k < retries && outcome(k).Ok?
        ensures !forall j :: a <= j < k ==> Retryable(outcome(j))
      {
        assert a < k;
      }
    } else if a == retries - 1 {
    } else {
      RetrySucceedsIff(outcome, retries, a + 1);
      RetryContinues(outcome, retries, a);
      var t := RetryFrom(outcome, retries, a);
      if t.body.Some? {
        var k :| a + 1 <= k < retries && outcome(k).Ok? && forall j :: a + 1 <= j < k ==> Retryable(outcome(j));
        assert forall j :: a <= j < k ==> Retryable(outcome(j));
      }
      forall k | a <= k < retries && outcome(k).Ok? && forall j :: a <= j < k ==> Retryable(outcome(j))
        ensures t.body.Some?
      {
        assert k != a;
        assert forall j :: a + 1 <= j < k ==> Retryable(outcome(j));
      }
    }
  }

  /** The text returned is the body of the last request made, which succeeded. */
  lemma {:induction false} RetryReturnsLastBody(outcome: nat -> FetchOutcome, retries: nat, a: nat)
    ensures var t := RetryFrom(outcome, retries, a);
      t.body.Some? ==> 0 < t.attempts && outcome(t.attempts - 1) == Ok(t.body.value)
    decreases retries - a
  {
    if a < retries && a + 1 < retries && Retryable(outcome(a)) {
      RetryReturnsLastBody(outcome, retries, a + 1);
      RetryContinues(outcome, retries, a);
    }
  }

  /** A 404 on the first attempt ends the fetch after one request, with no
      sleep and no text, whatever later requests would have given. */
  lemma NotFoundStopsAtOnce(outcome: nat -> FetchOutcome, retries: nat)
    requires 0 < retries && outcome(0) == HttpError(NotFoundStatus)
    ensures RetryFrom(outcome, retries, 0) == FetchTrace(None, 1, [])
  {
  }

  /** The back-off sleeps of the attempts from `a` on add up to at most
      2^(retries-1) - 2^a seconds: 3 seconds with the default 3 retries. */
  lemma {:induction false} SleepsBounded(outcome: nat -> FetchOutcome, retries: nat, a: nat)
    requires a < retries
    ensures Sum(RetryFrom(outcome, retries, a).sleeps) + Pow2(a) <= Pow2(retries - 1)
    decreases retries - a
  {
    if a != retries - 1 && Retryable(outcome(a)) {
      SleepsBounded(outcome, retries, a + 1);
    } else {
      PowMonotone(a, retries - 1);
    }
  }

  lemma {:induction false} PowMonotone(m: nat, n: nat)
    requires m <= n
    ensures Pow2(m) <= Pow2(n)
    decreases n - m
  {
    if m < n {
      PowMonotone(m + 1, n);
    }
  }
}
