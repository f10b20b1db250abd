/** The in-memory session store: expired sessions are dropped when a call happens to meet them,
    and no caller can tell. */
module Sessions {
  import opened Basics

  datatype Session = Session(username: string, createdAt: int, expiresAt: int)

  type Table = map<string, Session>

  const MAX_SESSIONS := 10_000
  const HOUR := 3_600_000_000_000

  function Unexpired(m: Table, now: int): Table {
    map t | t in m && now < m[t].expiresAt :: m[t]
  }

  class SessionStore {
    var sessions: Table
    const ttl: int

    constructor (ttl: int)
      ensures sessions == map[] && this.ttl == (if ttl <= 0 then 12 * 3_600_000_000_000 else ttl)
    {
      sessions := map[];
      this.ttl := if ttl <= 0 then 12 * HOUR else ttl;
    }

    /** Issues a session under a token drawn by the caller; `drawn` is false when the random
        source failed. */
    method Create(username: string, drawn: bool, token: string, now: int) returns (r: Option<Session>)
      modifies this
      ensures !drawn ==> r == None && sessions == old(sessions)
      ensures var c := Call.Create(username, token, now, r.Some?);
              drawn ==> Answers(old(sessions), c) && sessions == AfterCall(ttl, old(sessions), c)
      ensures r.Some? ==> r.value == Session(username, now, now + ttl)
    {
      if !drawn {
        return None;
      }
      PruneLocked(now);
      if |sessions| >= MAX_SESSIONS {
        return None;
      }
      var sess := Session(username, now, now + ttl);
      sessions := sessions[token := sess];
      return Some(sess);
    }

    method Lookup(token: string, now: int) returns (r: Option<Session>)
      modifies this
      ensures var c := Call.Lookup(token, now, r);
              Answers(old(sessions), c) && sessions == AfterCall(ttl, old(sessions), c)
    {
      if token == "" || token !in sessions {
        return None;
      }
      var sess := sessions[token];
      if now >= sess.expiresAt {
        sessions := sessions - {token};
        return None;
      }
      return Some(sess);
    }

    method Delete(token: string)
      modifies this
      ensures sessions == AfterCall(ttl, old(sessions), Call.Delete(token, 0))
    {
      if token == "" {
        return;
      }
      sessions := sessions - {token};
    }

    method Count(now: int) returns (n: nat)
      modifies this
      ensures var c := Call.Count(now, n);
              Answers(old(sessions), c) && sessions == AfterCall(ttl, old(sessions), c)
    {
      PruneLocked(now);
      n := |sessions|;
    }

    method PruneLocked(now: int)
      modifies this
      ensures sessions == Unexpired(old(sessions), now)
    {
      var todo := sessions.Keys;
      while todo != {}
        invariant todo <= old(sessions).Keys
        invariant sessions == map t | t in old(sessions) && (t in todo || now < old(sessions)[t].expiresAt) ::
                                old(sessions)[t]
        decreases |todo|
      {
        var token :| token in todo;
        var sess := sessions[token];
        todo := todo - {token};
        if now >= sess.expiresAt {
          sessions := sessions - {token};
        }
      }
    }
  }

  // ----- Whole runs -----

  /** One call with its clock reading and its answer. */
  datatype Call =
    | Create(username: string, token: string, at: int, created: bool)
    | Lookup(token: string, at: int, found: Option<Session>)
    | Delete(token: string, at: int)
    | Count(at: int, n: int)

  /** What a call does to the store's table. */
  function AfterCall(ttl: int, m: Table, c: Call): Table {
    match c
    case Create(username, token, at, _) =>
      var live := Unexpired(m, at);
      if |live| < MAX_SESSIONS then live[token := Session(username, at, at + ttl)] else live
    case Lookup(token, at, _) =>
      if token != "" && token in m && token !in Unexpired(m, at) then m - {token} else m
    case Delete(token, _) => if token == "" then m else m - {token}
    case Count(at, _) => Unexpired(m, at)
  }

  function After(ttl: int, calls: seq<Call>): Table {
    if calls == [] then map[] else AfterCall(ttl, After(ttl, calls[..|calls| - 1]), calls[|calls| - 1])
  }

  /** The answer the store gives to a call. */
  predicate Answers(m: Table, c: Call) {
    match c
    case Create(_, _, at, created) => created == (|Unexpired(m, at)| < MAX_SESSIONS)
    case Lookup(token, at, found) => found == if token == "" then None else Get(Unexpired(m, at), token)
    case Delete(_, _) => true
    case Count(at, n) => n == |Unexpired(m, at)|
  }

  /** The book of a store that never expires anything by itself: every created session stays
      until it is deleted. */
  function Book(ttl: int, calls: seq<Call>): Table {
    if calls == [] then map[] else Entered(ttl, Book(ttl, calls[..|calls| - 1]), calls[|calls| - 1])
  }

  function Entered(ttl: int, m: Table, c: Call): Table {
    match c
    case Create(username, token, at, created) =>
      if created then m[token := Session(username, at, at + ttl)] else m
    case Lookup(_, _, _) => m
    case Delete(token, _) => if token == "" then m else m - {token}
    case Count(_, _) => m
  }

  ghost predicate Answered(ttl: int, calls: seq<Call>) {
    && (forall i :: 0 <= i < |calls| ==> Answers(After(ttl, calls[..i]), calls[i]))
    && (forall i, j :: 0 <= i < j < |calls| ==> calls[i].at <= calls[j].at)
  }

  lemma CallAgrees(ttl: int, m: Table, book: Table, c: Call, now: int)
    requires ttl > 0 && c.at <= now && Answers(m, c)
    requires Unexpired(m, c.at) == Unexpired(book, c.at)
    ensures Unexpired(AfterCall(ttl, m, c), now) == Unexpired(Entered(ttl, book, c), now)
  {
    UnexpiredLater(m, book, c.at, now);
    forall t ensures Get(Unexpired(AfterCall(ttl, m, c), now), t) == Get(Unexpired(Entered(ttl, book, c), now), t) {
      assert Get(Unexpired(m, now), t) == Get(Unexpired(book, now), t);
    }
    SameEntries(Unexpired(AfterCall(ttl, m, c), now), Unexpired(Entered(ttl, book, c), now));
  }

  lemma UnexpiredLater(m: Table, book: Table, earlier: int, now: int)
    requires earlier <= now && Unexpired(m, earlier) == Unexpired(book, earlier)
    ensures Unexpired(m, now) == Unexpired(book, now)
  {
    forall t ensures Get(Unexpired(m, now), t) == Get(Unexpired(book, now), t) {
      assert Get(Unexpired(m, earlier), t) == Get(Unexpired(book, earlier), t);
    }
    SameEntries(Unexpired(m, now), Unexpired(book, now));
  }

  lemma SameEntries(a: Table, b: Table)
    requires forall t :: Get(a, t) == Get(b, t)
    ensures a == b
  {
    forall t ensures t in a <==> t in b {
      assert Get(a, t) == Get(b, t);
    }
    forall t | t in a ensures a[t] == b[t] {
      assert Get(a, t) == Get(b, t);
    }
  }

  lemma CallKeepsCap(ttl: int, m: Table, c: Call)
    requires |m| <= 10_000
    ensures |AfterCall(ttl, m, c)| <= 10_000
  {
    if c.Create? {
      KeysSize(Unexpired(m, c.at), m);
      assert Unexpired(m, c.at)[c.token := Session(c.username, c.at, c.at + ttl)].Keys
             == Unexpired(m, c.at).Keys + {c.token};
    } else {
      KeysSize(AfterCall(ttl, m, c), m);
    }
  }

  /** Pruning is unobservable: at every later time the unexpired sessions are exactly those of
      the book that never prunes, and there are never more than the cap. */
  lemma {:induction false} PruningIsUnobservable(ttl: int, calls: seq<Call>, now: int)
    requires ttl > 0 && Answered(ttl, calls)
    requires calls != [] ==> calls[|calls| - 1].at <= now
    ensures Unexpired(After(ttl, calls), now) == Unexpired(Book(ttl, calls), now)
    ensures |After(ttl, calls)| <= 10_000
  {
    if calls != [] {
      var n := |calls| - 1;
      AnsweredPrefix(ttl, calls, n);
      PruningIsUnobservable(ttl, calls[..n], calls[n].at);
      assert Answers(After(ttl, calls[..n]), calls[n]);
      CallAgrees(ttl, After(ttl, calls[..n]), Book(ttl, calls[..n]), calls[n], now);
      CallKeepsCap(ttl, After(ttl, calls[..n]), calls[n]);
    }
  }

  lemma {:induction false} AnsweredPrefix(ttl: int, calls: seq<Call>, n: nat)
    requires Answered(ttl, calls) && n <= |calls|
    ensures Answered(ttl, calls[..n])
    ensures 0 < n < |calls| ==> calls[..n][n - 1].at <= calls[n].at
  {
    forall i | 0 <= i < n ensures Answers(After(ttl, calls[..n][..i]), calls[..n][i]) {
      assert calls[..n][..i] == calls[..i];
    }
  }

  lemma KeysSize(a: Table, b: Table)
    requires a.Keys <= b.Keys
    ensures |a| <= |b|
  {
    SubsetSize(a.Keys, b.Keys);
    assert |a| == |a.Keys| && |b| == |b.Keys|;
  }

  /** Every answer is the book's: a lookup finds exactly the sessions created and neither
      deleted nor expired since, the count counts them, and creation fails only at the cap. */
  lemma {:induction false} AnswersAreTheBooks(ttl: int, calls: seq<Call>, i: nat)
    requires ttl > 0 && Answered(ttl, calls) && i < |calls|
    ensures Answers(Book(ttl, calls[..i]), calls[i])
  {
    AnsweredPrefix(ttl, calls, i);
    PruningIsUnobservable(ttl, calls[..i], calls[i].at);
    assert Answers(After(ttl, calls[..i]), calls[i]);
  }

  // ----- The answers, told by the calls -----

  /** Call j created the session that the token stands for before call i. */
  predicate Issued(calls: seq<Call>, token: string, j: nat, i: nat) {
    && j < i <= |calls| && calls[j].Create? && calls[j].created && calls[j].token == token
    && forall k :: j < k < i ==>
                     !(calls[k].Create? && calls[k].created && calls[k].token == token)
                     && !(calls[k].Delete? && token != "" && calls[k].token == token)
  }

  /** The tokens whose session has not expired at an instant. */
  function LiveTokens(ttl: int, calls: seq<Call>, now: int): set<string> {
    set j: nat | j < |calls| && calls[j].Create? && Issued(calls, calls[j].token, j, |calls|)
                 && now < calls[j].at + ttl :: calls[j].token
  }

  lemma {:induction false} BookIsIssued(ttl: int, calls: seq<Call>, token: string)
    ensures token in Book(ttl, calls) ==>
              exists j: nat :: Issued(calls, token, j, |calls|)
                               && Book(ttl, calls)[token]
                                  == Session(calls[j].username, calls[j].at, calls[j].at + ttl)
    ensures forall j: nat :: Issued(calls, token, j, |calls|) ==>
                               token in Book(ttl, calls)
                               && Book(ttl, calls)[token]
                                  == Session(calls[j].username, calls[j].at, calls[j].at + ttl)
  {
    if calls != [] {
      var n := |calls| - 1;
      BookIsIssued(ttl, calls[..n], token);
      forall j: nat | j < n
        ensures Issued(calls, token, j, n + 1)
                <==> && Issued(calls[..n], token, j, n)
                     && !(calls[n].Create? && calls[n].created && calls[n].token == token)
                     && !(calls[n].Delete? && token != "" && calls[n].token == token)
      {
        IssuedStep(calls, token, j);
      }
      if token in Book(ttl, calls) && !(calls[n].Create? && calls[n].created && calls[n].token == token) {
        var j: nat :| Issued(calls[..n], token, j, n)
                      && Book(ttl, calls[..n])[token] == Session(calls[j].username, calls[j].at, calls[j].at + ttl);
        assert Issued(calls, token, j, n + 1);
      } else if token in Book(ttl, calls) {
        assert Issued(calls, token, n, n + 1);
      }
    }
  }

  lemma IssuedStep(calls: seq<Call>, token: string, j: nat)
    requires j < |calls| - 1
    ensures var n := |calls| - 1;
            Issued(calls, token, j, n + 1)
            <==> && Issued(calls[..n], token, j, n)
                 && !(calls[n].Create? && calls[n].created && calls[n].token == token)
                 && !(calls[n].Delete? && token != "" && calls[n].token == token)
  {
    var n := |calls| - 1;
    assert calls[..n][j] == calls[j];
    if Issued(calls[..n], token, j, n) {
      forall k | j < k < n
        ensures !(calls[k].Create? && calls[k].created && calls[k].token == token)
                && !(calls[k].Delete? && token != "" && calls[k].token == token)
      {
        assert calls[..n][k] == calls[k];
      }
    }
    if Issued(calls, token, j, n + 1) {
      forall k | j < k < n
        ensures !(calls[..n][k].Create? && calls[..n][k].created && calls[..n][k].token == token)
                && !(calls[..n][k].Delete? && token != "" && calls[..n][k].token == token)
      {
        assert calls[..n][k] == calls[k];
      }
    }
  }

  /** A look-up finds a session exactly when a call created one under the token, none was created or
      deleted under it since, and its lifetime is not over; and finds that one. */
  lemma LookupFinds(ttl: int, calls: seq<Call>, i: nat, s: Session)
    requires ttl > 0 && Answered(ttl, calls) && i < |calls| && calls[i].Lookup?
    ensures calls[i].found == Some(s)
            <==> calls[i].token != ""
                 && exists j: nat :: && Issued(calls, calls[i].token, j, i)
                                     && s == Session(calls[j].username, calls[j].at, calls[j].at + ttl)
                                     && calls[i].at < calls[j].at + ttl
  {
    var token, at := calls[i].token, calls[i].at;
    AnswersAreTheBooks(ttl, calls, i);
    if calls[i].found == Some(s) {
      var j := EntryOf(ttl, calls, token, i);
    }
    if j: nat :| && token != "" && Issued(calls, token, j, i)
                 && s == Session(calls[j].username, calls[j].at, calls[j].at + ttl) && at < calls[j].at + ttl {
      IssuedIsEntered(ttl, calls, token, j, i);
    }
  }

  /** The call that entered the book's session for a token. */
  lemma EntryOf(ttl: int, calls: seq<Call>, token: string, i: nat) returns (j: nat)
    requires i <= |calls| && token in Book(ttl, calls[..i])
    ensures Issued(calls, token, j, i)
    ensures Book(ttl, calls[..i])[token] == Session(calls[j].username, calls[j].at, calls[j].at + ttl)
  {
    BookIsIssued(ttl, calls[..i], token);
    j :| Issued(calls[..i], token, j, i)
         && Book(ttl, calls[..i])[token] == Session(calls[..i][j].username, calls[..i][j].at, calls[..i][j].at + ttl);
    IssuedPrefix(calls, token, j, i);
  }

  lemma IssuedIsEntered(ttl: int, calls: seq<Call>, token: string, j: nat, i: nat)
    requires Issued(calls, token, j, i)
    ensures token in Book(ttl, calls[..i])
    ensures Book(ttl, calls[..i])[token] == Session(calls[j].username, calls[j].at, calls[j].at + ttl)
  {
    IssuedPrefix(calls, token, j, i);
    BookIsIssued(ttl, calls[..i], token);
  }

  lemma IssuedPrefix(calls: seq<Call>, token: string, j: nat, i: nat)
    requires i <= |calls|
    ensures Issued(calls[..i], token, j, i) <==> Issued(calls, token, j, i)
  {
    assert forall k :: 0 <= k < i ==> calls[..i][k] == calls[k];
  }

  /** The count, and the decision to create, go by the number of tokens whose session has not
      expired; creation fails only at 10,000 of them. */
  lemma CountsAreLive(ttl: int, calls: seq<Call>, i: nat)
    requires ttl > 0 && Answered(ttl, calls) && i < |calls|
    ensures calls[i].Create? ==> (calls[i].created <==> |LiveTokens(ttl, calls[..i], calls[i].at)| < 10_000)
    ensures calls[i].Count? ==> calls[i].n == |LiveTokens(ttl, calls[..i], calls[i].at)|
  {
    AnswersAreTheBooks(ttl, calls, i);
    LiveTokensAreBooked(ttl, calls[..i], calls[i].at);
    var live := Unexpired(Book(ttl, calls[..i]), calls[i].at);
    assert |live| == |live.Keys|;
  }

  lemma LiveTokensAreBooked(ttl: int, calls: seq<Call>, now: int)
    ensures LiveTokens(ttl, calls, now) == Unexpired(Book(ttl, calls), now).Keys
  {
    forall token ensures token in LiveTokens(ttl, calls, now) <==> token in Unexpired(Book(ttl, calls), now) {
      BookIsIssued(ttl, calls, token);
    }
  }
}
