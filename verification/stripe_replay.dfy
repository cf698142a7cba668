/** The bounded same-key replay of one Stripe create (a Customer's or an intent's). */
module StripeReplay {
  import opened Options

  const IN_FLIGHT_BUDGET_MS := 3500
  const DEFAULT_IN_FLIGHT_BACKOFF_MS := [250, 500, 1000, 1250]
  const IDEMPOTENCY_KEY_IN_USE := "idempotency_key_in_use"

  datatype Created =
    | Made(id: string)
    | Failed(retryable: bool, status: Option<nat>, code: Option<string>)

  /** The one refusal a replay is bound to resolve: the key's first request is still running. */
  predicate IsInFlightReplay(r: Created) {
    r.Failed? && r.status == Some(409) && r.code == Some(IDEMPOTENCY_KEY_IN_USE)
  }

  /** Whether pause `k` begins: `replies(k)` is the answer in hand, `clock(0)` the start and
      `clock(k + 1)` the reading taken before the pause. */
  predicate PauseBegins(replies: nat -> Created, clock: nat -> int, backoff: seq<int>, k: nat) {
    k < |backoff| && IsInFlightReplay(replies(k)) && clock(k + 1) - clock(0) + backoff[k] <= IN_FLIGHT_BUDGET_MS
  }

  /** Exactly the first `n` pauses begin. */
  ghost predicate PausesBegun(replies: nat -> Created, clock: nat -> int, backoff: seq<int>, n: nat) {
    && (forall k :: 0 <= k < n ==> PauseBegins(replies, clock, backoff, k))
    && !PauseBegins(replies, clock, backoff, n)
  }

  /** Which answers are waited out, and until when: only Stripe's 409 for a key whose first
      request is still running, while the pause still ends within 3500 ms of the start. */
  lemma {:induction false} WaitsOnlyInFlight(replies: nat -> Created, clock: nat -> int, backoff: seq<int>, k: nat)
    requires k < |backoff|
    ensures PauseBegins(replies, clock, backoff, k)
            <==> && (exists retryable :: replies(k) == Failed(retryable, Some(409), Some("idempotency_key_in_use")))
                 && clock(k + 1) + backoff[k] <= clock(0) + 3500
  {
    if PauseBegins(replies, clock, backoff, k) {
      assert replies(k) == Failed(replies(k).retryable, Some(409), Some("idempotency_key_in_use"));
    }
  }

  /** One create with its replays.  The transport's answers and the clock's readings are
      inputs; `sent` and `slept` are what the loop does to the outside world. */
  method CreateWithReplay<R>(request: R, replies: nat -> Created, clock: nat -> int, backoff: seq<int>)
    returns (created: Created, sent: seq<R>, slept: seq<int>)
    ensures PausesBegun(replies, clock, backoff, |slept|)
    ensures |slept| <= |backoff| && slept == backoff[..|slept|]
    ensures |sent| == |slept| + 1 && forall r :: r in sent ==> r == request
    ensures created == replies(|slept|)
  {
    var startedAt := clock(0);
    created := replies(0);
    sent := [request];
    slept := [];
    var i := 0;
    while i < |backoff|
      invariant i == |slept| <= |backoff| && slept == backoff[..i]
      invariant |sent| == i + 1 && forall r :: r in sent ==> r == request
      invariant created == replies(i) && startedAt == clock(0)
      invariant forall k :: 0 <= k < i ==> PauseBegins(replies, clock, backoff, k)
    {
      if !IsInFlightReplay(created) { break; }
      var elapsed := clock(i + 1) - startedAt;
      if elapsed + backoff[i] > IN_FLIGHT_BUDGET_MS { break; }
      assert PauseBegins(replies, clock, backoff, i);
      slept := slept + [backoff[i]];
      sent := sent + [request];
      created := replies(i + 1);
      i := i + 1;
    }
  }

  function Sum(ps: seq<int>): int {
    if ps == [] then 0 else Sum(ps[..|ps| - 1]) + ps[|ps| - 1]
  }

  /** The clock moves on by at least each pause slept. */
  ghost predicate ClockRuns(clock: nat -> int, backoff: seq<int>) {
    && clock(0) <= clock(1)
    && forall k :: 0 <= k < |backoff| ==> ClockCovers(clock, backoff, k)
  }

  ghost predicate ClockCovers(clock: nat -> int, backoff: seq<int>, k: nat)
    requires k < |backoff|
  {
    clock(k + 1) + backoff[k] <= clock(k + 2)
  }

  lemma {:induction false} ElapsedCoversThePauses(clock: nat -> int, backoff: seq<int>, n: nat)
    requires ClockRuns(clock, backoff) && n <= |backoff|
    ensures Sum(backoff[..n]) <= clock(n + 1) - clock(0)
  {
    if n > 0 {
      ElapsedCoversThePauses(clock, backoff, n - 1);
      assert backoff[..n][..n - 1] == backoff[..n - 1];
      assert ClockCovers(clock, backoff, n - 1);
    }
  }

  /** A call sleeps at most the budget in all, whatever the schedule it was given. */
  lemma {:induction false} SleepFitsTheBudget(replies: nat -> Created, clock: nat -> int, backoff: seq<int>, n: nat)
    requires ClockRuns(clock, backoff) && PausesBegun(replies, clock, backoff, n) && n <= |backoff|
    ensures Sum(backoff[..n]) <= 3500
  {
    if n > 0 {
      assert PauseBegins(replies, clock, backoff, n - 1);
      ElapsedCoversThePauses(clock, backoff, n - 1);
      assert backoff[..n][..n - 1] == backoff[..n - 1];
    }
  }

  /** On the shipped schedule an answer that is never slow waits out all 3000 ms and sends
      five times; the budget stops the last pause exactly when the round trips took over 500. */
  lemma {:induction false} DefaultScheduleFits(replies: nat -> Created, clock: nat -> int)
    requires forall k: nat :: IsInFlightReplay(replies(k))
    requires ClockRuns(clock, DEFAULT_IN_FLIGHT_BACKOFF_MS)
    ensures PausesBegun(replies, clock, DEFAULT_IN_FLIGHT_BACKOFF_MS, 4)
            <==> clock(4) - clock(0) <= 2250
    ensures Sum(DEFAULT_IN_FLIGHT_BACKOFF_MS) == 3000
  {
    var b := DEFAULT_IN_FLIGHT_BACKOFF_MS;
    assert ClockCovers(clock, b, 0) && ClockCovers(clock, b, 1) && ClockCovers(clock, b, 2);
    assert b[..3] == [250, 500, 1000] && b[..3][..2] == [250, 500] && b[..3][..2][..1] == [250];
    assert Sum(b[..3]) == 1750 by {
      assert Sum([250]) == 250 by { assert [250][..0] == []; }
      assert Sum([250, 500]) == 750 by { assert [250, 500][..1] == [250]; }
    }
    if clock(4) - clock(0) <= 2250 {
      forall k | 0 <= k < 4 ensures PauseBegins(replies, clock, b, k) {
      }
    } else {
      assert !PauseBegins(replies, clock, b, 3);
    }
  }
}
