/** The daily notifier (`runDailyJob`, cron.js:4-40) as a fold over the
    listed users. The webhook's behaviour, the clock and the calendar are
    inputs: one outcome per listed user, the time `start` read when the job
    computes "today", and `dayOf`, which maps a millisecond timestamp to its
    calendar day in the process's time zone. */
module Notifier {
  import opened Wrappers
  import opened Store

  /** What the webhook POST for one user (cron.js:24-26) did: it resolved and
      `Date.now()` read afterwards returned `now`, or it threw. A skipped
      user's outcome is never consulted. */
  datatype WebhookOutcome = Delivered(now: int) | Failed

  /** The JSON body of the webhook POST. */
  datatype Payload = Payload(userEmail: string)

  /** What the job did with one listed user. */
  datatype Visit =
    | Skipped(email: string)
    | Notified(email: string, at: int)
    | WebhookFailed(email: string)

  /** `db.all("SELECT * FROM users")`: an error, or the rows in listing order. */
  datatype Listing = ListError | Rows(users: seq<UserRecord>)

  /** The store after the job and one visit per listed user, in order. */
  datatype RunResult = RunResult(store: Db, visits: seq<Visit>)

  /** The skip test of cron.js:13-18. A falsy timestamp (NULL or 0) maps to
      `null`, which never equals today's date string. */
  predicate SentOnDay(lastSent: Option<int>, today: int, dayOf: int -> int) {
    lastSent.Some? && lastSent.value != 0 && dayOf(lastSent.value) == today
  }

  /** The body of the `for` loop for one user. */
  function Decide(user: UserRecord, outcome: WebhookOutcome, today: int, dayOf: int -> int): Visit {
    if SentOnDay(user.lastSummarySentAt, today, dayOf) then Skipped(user.email)
    else
      match outcome
      case Delivered(now) => Notified(user.email, now)
      case Failed => WebhookFailed(user.email)
  }

  /** The store write a visit causes: only a delivered webhook stamps the row. */
  function Apply(db: Db, v: Visit): Db {
    match v
    case Notified(email, at) => MarkNotified(db, email, at)
    case _ => db
  }

  /** The `for` loop of cron.js:12-38: users are visited in listing order,
      each exactly once; a user is skipped exactly when already sent today;
      otherwise the webhook is called, and the visit records whether it was
      delivered and at what time. A failure does not stop the loop. */
  function Run(db: Db, users: seq<UserRecord>, outcomes: seq<WebhookOutcome>, today: int, dayOf: int -> int): (r: RunResult)
    requires |outcomes| == |users|
    ensures r.store.Keys == db.Keys
    ensures |r.visits| == |users|
    ensures forall i :: 0 <= i < |users| ==> r.visits[i].email == users[i].email
    ensures forall i :: 0 <= i < |users| ==>
              (r.visits[i].Skipped? <==> SentOnDay(users[i].lastSummarySentAt, today, dayOf))
    ensures forall i :: 0 <= i < |users| && users[i].lastSummarySentAt in {None, Some(0)} ==>
              !r.visits[i].Skipped?
    ensures forall i :: 0 <= i < |users| && !SentOnDay(users[i].lastSummarySentAt, today, dayOf) ==>
              (r.visits[i].Notified? <==> outcomes[i].Delivered?)
    ensures forall i :: 0 <= i < |users| && r.visits[i].Notified? ==> r.visits[i].at == outcomes[i].now
    decreases |users|
  {
    if |users| == 0 then RunResult(db, [])
    else
      var v := Decide(users[0], outcomes[0], today, dayOf);
      var rest := Run(Apply(db, v), users[1..], outcomes[1..], today, dayOf);
      RunResult(rest.store, [v] + rest.visits)
  }

  /** `runDailyJob`: a failed listing ends the job before "today" is even
      computed; otherwise "today" is computed once, from `start`, and the
      loop runs over the rows. */
  function DailyJob(db: Db, listing: Listing, start: int, dayOf: int -> int, outcomes: seq<WebhookOutcome>): (r: RunResult)
    requires listing.Rows? ==> |outcomes| == |listing.users|
    ensures listing.ListError? ==> r.store == db && r.visits == []
    ensures r.store.Keys == db.Keys
    ensures listing.Rows? ==> |r.visits| == |listing.users|
  {
    match listing
    case ListError => RunResult(db, [])
    case Rows(users) => Run(db, users, outcomes, dayOf(start), dayOf)
  }

  /** The webhook POSTs a run makes, in order: one per visit that was not a skip. */
  function WebhookCalls(visits: seq<Visit>): (calls: seq<Payload>)
    ensures |calls| <= |visits|
    ensures forall i :: 0 <= i < |visits| && !visits[i].Skipped? ==> Payload(visits[i].email) in calls
    ensures forall p :: p in calls ==> exists i :: 0 <= i < |visits| && !visits[i].Skipped? && visits[i].email == p.userEmail
    decreases |visits|
  {
    if |visits| == 0 then []
    else
      var first := if visits[0].Skipped? then [] else [Payload(visits[0].email)];
      var rest := WebhookCalls(visits[1..]);
      assert forall p :: p in rest ==> exists i :: 1 <= i < |visits| && !visits[i].Skipped? && visits[i].email == p.userEmail by {
        forall p | p in rest
          ensures exists i :: 1 <= i < |visits| && !visits[i].Skipped? && visits[i].email == p.userEmail
        {
          var j :| 0 <= j < |visits[1..]| && !visits[1..][j].Skipped? && visits[1..][j].email == p.userEmail;
          assert visits[j + 1] == visits[1..][j];
        }
      }
      first + rest
  }
  /** The POSTs go out in visit order: the calls of a run split at any point
      are the calls of the first part followed by those of the second. */
  lemma {:induction false} WebhookCallsAppend(a: seq<Visit>, b: seq<Visit>)
    ensures WebhookCalls(a + b) == WebhookCalls(a) + WebhookCalls(b)
    decreases |a|
  {
    if |a| > 0 {
      assert (a + b)[1..] == a[1..] + b;
      WebhookCallsAppend(a[1..], b);
    } else {
      assert a + b == b;
    }
  }


  ghost predicate DistinctEmails(users: seq<UserRecord>) {
    forall i, j :: 0 <= i < j < |users| ==> users[i].email != users[j].email
  }

  ghost predicate Listed(users: seq<UserRecord>, email: string) {
    exists i :: 0 <= i < |users| && users[i].email == email
  }

  /** `users` is what `SELECT * FROM users` returns for `db`: every row once,
      in some order (the primary key makes the addresses distinct). */
  ghost predicate IsListingOf(db: Db, users: seq<UserRecord>) {
    && DistinctEmails(users)
    && (forall i :: 0 <= i < |users| ==> users[i].email in db && db[users[i].email] == users[i])
    && (forall e :: e in db ==> Listed(users, e))
  }

  /** A row the listing does not hold is never written. */
  lemma {:induction false} RunLeavesUnlistedRows(db: Db, users: seq<UserRecord>, outcomes: seq<WebhookOutcome>, today: int, dayOf: int -> int, email: string)
    requires |outcomes| == |users|
    requires email in db && !Listed(users, email)
    ensures Run(db, users, outcomes, today, dayOf).store[email] == db[email]
    decreases |users|
  {
    if |users| > 0 {
      var v := Decide(users[0], outcomes[0], today, dayOf);
      var db1 := Apply(db, v);
      assert users[0].email != email;
      assert db1[email] == db[email];
      assert !Listed(users[1..], email);
      RunLeavesUnlistedRows(db1, users[1..], outcomes[1..], today, dayOf, email);
    }
  }

  /** The effect of a run on the row of the `i`-th listed user: a skipped
      user's row is unchanged; a failed webhook leaves the row unchanged; a
      delivered one sets only `last_summary_sent_at`, to the time read after
      the call. */
  lemma {:induction false} RunEffectOnListedRow(db: Db, users: seq<UserRecord>, outcomes: seq<WebhookOutcome>, today: int, dayOf: int -> int, i: nat)
    requires |outcomes| == |users| && DistinctEmails(users)
    requires i < |users| && users[i].email in db
    ensures SentOnDay(users[i].lastSummarySentAt, today, dayOf) ==>
              Run(db, users, outcomes, today, dayOf).store[users[i].email] == db[users[i].email]
    ensures !SentOnDay(users[i].lastSummarySentAt, today, dayOf) && outcomes[i].Failed? ==>
              Run(db, users, outcomes, today, dayOf).store[users[i].email] == db[users[i].email]
    ensures !SentOnDay(users[i].lastSummarySentAt, today, dayOf) && outcomes[i].Delivered? ==>
              Run(db, users, outcomes, today, dayOf).store[users[i].email]
              == db[users[i].email].(lastSummarySentAt := Some(outcomes[i].now))
    decreases |users|
  {
    var email := users[i].email;
    var v := Decide(users[0], outcomes[0], today, dayOf);
    var db1 := Apply(db, v);
    if i == 0 {
      assert !Listed(users[1..], email);
      RunLeavesUnlistedRows(db1, users[1..], outcomes[1..], today, dayOf, email);
    } else {
      assert users[0].email != email;
      assert db1[email] == db[email];
      assert users[1..][i - 1] == users[i];
      RunEffectOnListedRow(db1, users[1..], outcomes[1..], today, dayOf, i - 1);
    }
  }

  /** A run changes no column but `last_summary_sent_at`, and when every
      clock reading after a webhook call is at least `start` (the clock does
      not go back), every timestamp it writes is at least `start`. */
  lemma {:induction false} RunOnlyStamps(db: Db, users: seq<UserRecord>, outcomes: seq<WebhookOutcome>, today: int, dayOf: int -> int, start: int)
    requires |outcomes| == |users|
    requires forall i :: 0 <= i < |outcomes| && outcomes[i].Delivered? ==> outcomes[i].now >= start
    ensures forall e :: e in db ==>
              var row := Run(db, users, outcomes, today, dayOf).store[e];
              row == db[e].(lastSummarySentAt := row.lastSummarySentAt)
              && (row.lastSummarySentAt == db[e].lastSummarySentAt
                  || (row.lastSummarySentAt.Some? && row.lastSummarySentAt.value >= start))
    decreases |users|
  {
    if |users| > 0 {
      var v := Decide(users[0], outcomes[0], today, dayOf);
      var db1 := Apply(db, v);
      forall i | 0 <= i < |outcomes[1..]| && outcomes[1..][i].Delivered?
        ensures outcomes[1..][i].now >= start
      {
        assert outcomes[1..][i] == outcomes[i + 1];
      }
      RunOnlyStamps(db1, users[1..], outcomes[1..], today, dayOf, start);
    }
  }

  /** With distinct addresses, each non-skipped user's address appears in
      exactly one webhook payload, and a skipped user's in none. */
  lemma {:induction false} CallCount(visits: seq<Visit>, i: nat)
    requires forall j, k :: 0 <= j < k < |visits| ==> visits[j].email != visits[k].email
    requires i < |visits|
    ensures multiset(WebhookCalls(visits))[Payload(visits[i].email)] == if visits[i].Skipped? then 0 else 1
    decreases |visits|
  {
    var p := Payload(visits[i].email);
    var rest := WebhookCalls(visits[1..]);
    assert WebhookCalls(visits) == (if visits[0].Skipped? then [] else [Payload(visits[0].email)]) + rest;
    if i == 0 {
      assert p !in rest;
    } else {
      assert visits[1..][i - 1] == visits[i];
      CallCount(visits[1..], i - 1);
    }
  }

  /** Each listed user that is not skipped gets exactly one webhook call,
      with payload `{userEmail: user.email}`; a skipped user gets none. */
  lemma WebhookCalledOncePerUser(db: Db, users: seq<UserRecord>, outcomes: seq<WebhookOutcome>, today: int, dayOf: int -> int, i: nat)
    requires |outcomes| == |users| && DistinctEmails(users) && i < |users|
    ensures multiset(WebhookCalls(Run(db, users, outcomes, today, dayOf).visits))[Payload(users[i].email)]
            == if SentOnDay(users[i].lastSummarySentAt, today, dayOf) then 0 else 1
  {
    var visits := Run(db, users, outcomes, today, dayOf).visits;
    CallCount(visits, i);
  }

  /** `dayOf` never maps a later instant to an earlier day. */
  ghost predicate Monotone(dayOf: int -> int) {
    forall a, b :: a <= b ==> dayOf(a) <= dayOf(b)
  }

  /** After a run in which every webhook call is delivered, every row of the
      store counts as sent on that run's day. */
  lemma {:induction false} AllSentAfterDeliveredRun(db: Db, users: seq<UserRecord>, outcomes: seq<WebhookOutcome>,
                                 start: int, start2: int, dayOf: int -> int, email: string)
    requires IsListingOf(db, users) && |outcomes| == |users|
    requires 0 < start && Monotone(dayOf) && dayOf(start2) == dayOf(start)
    requires forall i :: 0 <= i < |outcomes| ==> outcomes[i].Delivered? && start <= outcomes[i].now <= start2
    requires email in db
    ensures SentOnDay(Run(db, users, outcomes, dayOf(start), dayOf).store[email].lastSummarySentAt, dayOf(start), dayOf)
  {
    var today := dayOf(start);
    assert Listed(users, email);
    var i :| 0 <= i < |users| && users[i].email == email;
    RunEffectOnListedRow(db, users, outcomes, today, dayOf, i);
    if !SentOnDay(users[i].lastSummarySentAt, today, dayOf) {
      var t := outcomes[i].now;
      assert dayOf(start) <= dayOf(t) <= dayOf(start2);
    }
  }

  /** Same-day idempotence: if every webhook call of a run is delivered, and
      a second run starts later on the same calendar day (with the clock not
      going back in between), the second run makes no webhook call. */
  lemma SameDayRunIsIdempotent(db: Db, users: seq<UserRecord>, outcomes: seq<WebhookOutcome>, start: int,
                               users2: seq<UserRecord>, outcomes2: seq<WebhookOutcome>, start2: int, dayOf: int -> int)
    requires IsListingOf(db, users) && |outcomes| == |users|
    requires 0 < start && Monotone(dayOf) && dayOf(start2) == dayOf(start)
    requires forall i :: 0 <= i < |outcomes| ==> outcomes[i].Delivered? && start <= outcomes[i].now <= start2
    requires IsListingOf(DailyJob(db, Rows(users), start, dayOf, outcomes).store, users2)
    requires |outcomes2| == |users2|
    ensures WebhookCalls(DailyJob(DailyJob(db, Rows(users), start, dayOf, outcomes).store,
                                  Rows(users2), start2, dayOf, outcomes2).visits) == []
  {
    var first := DailyJob(db, Rows(users), start, dayOf, outcomes);
    var second := DailyJob(first.store, Rows(users2), start2, dayOf, outcomes2);
    forall j | 0 <= j < |users2|
      ensures SentOnDay(users2[j].lastSummarySentAt, dayOf(start2), dayOf)
    {
      var email := users2[j].email;
      AllSentAfterDeliveredRun(db, users, outcomes, start, start2, dayOf, email);
    }
    NoCallsWhenAllSkipped(second.visits);
  }

  lemma NoCallsWhenAllSkipped(visits: seq<Visit>)
    requires forall j :: 0 <= j < |visits| ==> visits[j].Skipped?
    ensures WebhookCalls(visits) == []
  {
  }

  /** Re-authenticating clears the "sent today" mark: after an upsert for
      `email`, the next run calls the webhook for that user whatever the day. */
  lemma ReauthenticationReenablesNotice(db: Db, email: string, tokens: Tokens, users: seq<UserRecord>,
                                        outcomes: seq<WebhookOutcome>, start: int, dayOf: int -> int)
    requires IsListingOf(Upsert(db, email, tokens), users) && |outcomes| == |users|
    ensures Payload(email) in WebhookCalls(DailyJob(Upsert(db, email, tokens), Rows(users), start, dayOf, outcomes).visits)
  {
    var db' := Upsert(db, email, tokens);
    assert Listed(users, email);
    var i :| 0 <= i < |users| && users[i].email == email;
    assert users[i] == db'[email];
    assert !SentOnDay(users[i].lastSummarySentAt, dayOf(start), dayOf);
  }
}
