/** The `users` table (db.js:7-15) as a map keyed by its primary key, the
    e-mail address, and the two writes the application makes to it: the
    OAuth callback's insert-or-replace (index.js:62-74) and the notifier's
    timestamp update (cron.js:29-32). A NULL column is `None`. */
module Store {
  import opened Wrappers

  datatype UserRecord = UserRecord(
    email: string,
    accessToken: Option<string>,
    refreshToken: Option<string>,
    scope: Option<string>,
    tokenType: Option<string>,
    expiryDate: Option<int>,
    lastSummarySentAt: Option<int>)

  type Db = map<string, UserRecord>

  /** Every row is stored under its own e-mail address. */
  ghost predicate WellKeyed(db: Db) {
    forall e :: e in db ==> db[e].email == e
  }

  /** The token fields the callback receives from the OAuth exchange; any of
      them may be absent, and an absent one is bound as NULL. */
  datatype Tokens = Tokens(accessToken: Option<string>, refreshToken: Option<string>, expiryDate: Option<int>)

  /** `SELECT * FROM users WHERE email = ?`: the row, if there is one. */
  function Get(db: Db, email: string): (r: Option<UserRecord>)
    ensures r.Some? <==> email in db
    ensures r.Some? ==> r.value == db[email]
  {
    if email in db then Some(db[email]) else None
  }

  /** `INSERT OR REPLACE INTO users (email, access_token, refresh_token,
      expiry_date)`: the conflicting row is deleted and a new one inserted,
      so the columns the statement does not name come back NULL. */
  function Upsert(db: Db, email: string, tokens: Tokens): (db': Db)
    ensures db'.Keys == db.Keys + {email}
    ensures forall e :: e in db && e != email ==> db'[e] == db[e]
    ensures db'[email].email == email
    ensures db'[email].accessToken == tokens.accessToken
    ensures db'[email].refreshToken == tokens.refreshToken
    ensures db'[email].expiryDate == tokens.expiryDate
    ensures db'[email].scope.None? && db'[email].tokenType.None?
    ensures db'[email].lastSummarySentAt.None?
    ensures WellKeyed(db) ==> WellKeyed(db')
  {
    db[email := UserRecord(email, tokens.accessToken, tokens.refreshToken, None, None, tokens.expiryDate, None)]
  }

  /** Nothing of the replaced row survives an upsert: two stores that agree
      on every other address agree after the upsert. */
  lemma UpsertReplacesWholeRow(db1: Db, db2: Db, email: string, tokens: Tokens)
    requires db1 - {email} == db2 - {email}
    ensures Upsert(db1, email, tokens) == Upsert(db2, email, tokens)
  {
    var u1, u2 := Upsert(db1, email, tokens), Upsert(db2, email, tokens);
    assert u1.Keys == u2.Keys by {
      assert (db1 - {email}).Keys == db1.Keys - {email};
      assert (db2 - {email}).Keys == db2.Keys - {email};
      assert db1.Keys + {email} == (db1.Keys - {email}) + {email};
      assert db2.Keys + {email} == (db2.Keys - {email}) + {email};
    }
    forall e | e in u1
      ensures u1[e] == u2[e]
    {
      if e != email {
        assert db1[e] == (db1 - {email})[e] == (db2 - {email})[e] == db2[e];
      }
    }
  }

  /** Re-authenticating twice leaves only the second sign-in's tokens. */
  lemma UpsertTwice(db: Db, email: string, first: Tokens, second: Tokens)
    ensures Upsert(Upsert(db, email, first), email, second) == Upsert(db, email, second)
  {
    var db1 := Upsert(db, email, first);
    assert db1 - {email} == db - {email};
    UpsertReplacesWholeRow(db1, db, email, second);
  }

  /** What the OAuth callback obtains before it writes (index.js:49-59): the
      exchanged tokens and the account's address, or the exception that
      either call threw. */
  datatype Exchange = ExchangeFailed | Exchanged(email: string, tokens: Tokens)

  /** The callback's HTTP status and the store after its write. */
  datatype Connected = Connected(status: int, store: Db)

  /** The callback's store write and HTTP status (index.js:39-82): a failed
      exchange answers 500 and writes nothing; a successful one upserts the
      row and answers 200. */
  function Connect(db: Db, exchange: Exchange): (r: Connected)
    ensures exchange.ExchangeFailed? ==> r.status == 500 && r.store == db
    ensures exchange.Exchanged? ==> r.status == 200 && r.store.Keys == db.Keys + {exchange.email}
    ensures exchange.Exchanged? ==>
              r.store[exchange.email] == UserRecord(exchange.email, exchange.tokens.accessToken,
                                                    exchange.tokens.refreshToken, None, None,
                                                    exchange.tokens.expiryDate, None)
    ensures exchange.Exchanged? ==> forall e :: e in db && e != exchange.email ==> r.store[e] == db[e]
  {
    match exchange
    case ExchangeFailed => Connected(500, db)
    case Exchanged(email, tokens) => Connected(200, Upsert(db, email, tokens))
  }

  /** `UPDATE users SET last_summary_sent_at = ? WHERE email = ?`: changes
      that one column of that one row, and nothing when no row matches. */
  function MarkNotified(db: Db, email: string, now: int): (db': Db)
    ensures db'.Keys == db.Keys
    ensures forall e :: e in db && e != email ==> db'[e] == db[e]
    ensures email in db ==> db'[email] == db[email].(lastSummarySentAt := Some(now))
    ensures WellKeyed(db) ==> WellKeyed(db')
  {
    if email in db then db[email := db[email].(lastSummarySentAt := Some(now))] else db
  }
}
