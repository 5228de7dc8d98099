/** The per-e-mail login throttle of `DB.checkLoginAttempts`.

    The service keeps a map from e-mail to an attempt count. An accepted
    attempt raises the count by one and arms a fifteen-minute timer that
    later lowers it by one; a successful login deletes the entry. Timers are
    modelled as a multiset of pending decrement events, one per armed timer,
    that an explicit `Fire` step consumes; there is no clock.
 */
module Throttle {
  import opened Common

  /** `this.maxLoginAttempts`. */
  const MaxAttempts: int := 5

  /** Status and message of the throttle's rejection. */
  const TooMany: Failure := Failure(429, "Too many login attempts. Please try again later.")

  datatype Throttle = Throttle(counts: map<string, int>, pending: multiset<string>)

  const Initial: Throttle := Throttle(map[], multiset{})

  /** The recorded attempts of an e-mail: an absent entry and a zero both read as 0. */
  function Attempts(t: Throttle, email: string): int {
    if email in t.counts && t.counts[email] != 0 then t.counts[email] else 0
  }

  /** What the throttle keeps true: every count lies in 0..5, and every
      counted attempt still has its decrement pending. */
  ghost predicate Valid(t: Throttle) {
    forall e :: e in t.counts ==> 0 <= t.counts[e] <= MaxAttempts && t.counts[e] <= t.pending[e]
  }

  /** `checkLoginAttempts(email)`: the new state and whether the attempt may proceed. */
  function Check(t: Throttle, email: string): (r: (Throttle, Option<Failure>))
    ensures Attempts(t, email) >= MaxAttempts <==> r.1 == Some(TooMany)
    ensures r.1.Some? ==> r.0 == t
    ensures r.1.None? ==> r.0.counts == t.counts[email := Attempts(t, email) + 1]
    ensures r.1.None? ==> r.0.pending == t.pending + multiset{email}
    ensures Valid(t) ==> Valid(r.0)
  {
    var attempts := Attempts(t, email);
    if attempts >= MaxAttempts then (t, Some(TooMany))
    else (Throttle(t.counts[email := attempts + 1], t.pending + multiset{email}), None)
  }

  /** One armed timer for `email` goes off: the count drops by one when a
      non-zero count is present, and the timer is gone either way. */
  function Fire(t: Throttle, email: string): (r: Throttle)
    requires email in t.pending
    ensures r.pending == t.pending - multiset{email}
    ensures email in t.counts && t.counts[email] != 0 ==> r.counts == t.counts[email := t.counts[email] - 1]
    ensures !(email in t.counts && t.counts[email] != 0) ==> r.counts == t.counts
    ensures email !in t.counts ==> email !in r.counts
    ensures Valid(t) ==> Valid(r)
  {
    var current := if email in t.counts then t.counts[email] else 0;
    var counts := if current != 0 then t.counts[email := current - 1] else t.counts;
    Throttle(counts, t.pending - multiset{email})
  }

  /** A successful login removes the e-mail's entry from the attempt map;
      armed timers are not cancelled. */
  function Reset(t: Throttle, email: string): (r: Throttle)
    ensures email !in r.counts
    ensures forall e :: e != email ==> (e in r.counts <==> e in t.counts)
    ensures forall e :: e in r.counts ==> r.counts[e] == t.counts[e]
    ensures r.pending == t.pending
    ensures Valid(t) ==> Valid(r)
  {
    Throttle(t.counts - {email}, t.pending)
  }

  /** The events the throttle sees. */
  datatype Event = Attempt(email: string) | Timer(email: string) | LoginOk(email: string)

  /** One event; a timer event that was never armed changes nothing. */
  function Step(t: Throttle, ev: Event): Throttle {
    match ev
    case Attempt(e) => Check(t, e).0
    case Timer(e) => if e in t.pending then Fire(t, e) else t
    case LoginOk(e) => Reset(t, e)
  }

  function Run(t: Throttle, evs: seq<Event>): Throttle
    decreases |evs|
  {
    if |evs| == 0 then t else Run(Step(t, evs[0]), evs[1..])
  }

  /** Whatever happens, no count leaves 0..5. */
  lemma {:induction false} RunKeepsValid(t: Throttle, evs: seq<Event>)
    requires Valid(t)
    ensures Valid(Run(t, evs))
    ensures forall e :: e in Run(t, evs).counts ==> 0 <= Run(t, evs).counts[e] <= MaxAttempts
    decreases |evs|
  {
    if |evs| > 0 {
      RunKeepsValid(Step(t, evs[0]), evs[1..]);
    }
  }

  /** Only attempts for an e-mail create its entry: timers and other
      e-mails' events never bring back a deleted key. */
  lemma {:induction false} RunNeverRecreates(t: Throttle, evs: seq<Event>, email: string)
    requires email !in t.counts
    requires forall i :: 0 <= i < |evs| ==> evs[i] != Attempt(email)
    ensures email !in Run(t, evs).counts
    decreases |evs|
  {
    if |evs| > 0 {
      RunNeverRecreates(Step(t, evs[0]), evs[1..], email);
    }
  }

  /** Attempts for one e-mail leave every other e-mail's entry untouched. */
  lemma CheckIsolated(t: Throttle, email: string, other: string)
    requires other != email
    ensures other in Check(t, email).0.counts <==> other in t.counts
    ensures other in t.counts ==> Check(t, email).0.counts[other] == t.counts[other]
    ensures Attempts(Check(t, email).0, other) == Attempts(t, other)
  {
  }

  /** `k` consecutive accepted attempts from a state where `email` has no
      count: the last leaves the count at `k`. */
  function AttemptTimes(t: Throttle, email: string, k: nat): Throttle
    decreases k
  {
    if k == 0 then t else Check(AttemptTimes(t, email, k - 1), email).0
  }

  lemma {:induction false} RepeatedAttempts(t: Throttle, email: string, k: nat)
    requires Attempts(t, email) == 0
    requires k <= MaxAttempts
    ensures Attempts(AttemptTimes(t, email, k), email) == k
    decreases k
  {
    if k > 0 {
      RepeatedAttempts(t, email, k - 1);
    }
  }

  /** Five attempts in a row without a timer going off, and the sixth is
      refused with 429 whatever the credentials. */
  lemma SixthAttemptRefused(t: Throttle, email: string)
    requires Attempts(t, email) == 0
    ensures Check(AttemptTimes(t, email, MaxAttempts), email).1 == Some(TooMany)
  {
    RepeatedAttempts(t, email, MaxAttempts);
  }

  /** Fires `k` armed timers of `email` in turn. */
  function FireAll(t: Throttle, email: string, k: nat): Throttle
    requires t.pending[email] >= k
    decreases k
  {
    if k == 0 then t else FireAll(Fire(t, email), email, k - 1)
  }

  /** Once every armed timer of `email` has gone off, its count is back to
      0 (or absent): the throttle always recovers without a login. */
  lemma {:induction false} TimersDrain(t: Throttle, email: string)
    requires Valid(t)
    ensures Attempts(FireAll(t, email, t.pending[email]), email) == 0
    decreases t.pending[email]
  {
    if t.pending[email] > 0 {
      var t' := Fire(t, email);
      assert t'.pending[email] == t.pending[email] - 1;
      TimersDrain(t', email);
    }
  }
}
