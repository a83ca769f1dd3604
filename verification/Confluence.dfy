/** Transactions may be sent in any order and repeatedly: against a fixed account nonce, any sequence
    of admissions and promotions that ends in a promotion leads to the same two queues. And where
    the promise breaks: a promotion starts from the pending queue alone, so it misses the next
    transaction when nothing is pending and the account nonce has moved on. */
module Confluence {
  import opened Types
  import opened Ledger
  import opened Queues
  import opened Pools
  import opened Coherence

  datatype Call = Send(tx: Transaction) | Sync

  /** The pool after some calls, starting empty, while the account store stays as it is. */
  ghost function After(accounts: Accounts, calls: seq<Call>): Pool {
    if calls == [] then EMPTY_POOL else Called(accounts, After(accounts, calls[..|calls| - 1]), calls[|calls| - 1])
  }

  ghost function Called(accounts: Accounts, pool: Pool, call: Call): Pool {
    match call
    case Send(tx) =>
      Admitted(pool, tx, if tx.from in accounts then Decide(pool, tx, accounts[tx.from].nonce) else UnknownSender)
    case Sync => Synced(pool)
  }

  /** What one account sent that can count, by nonce: of each nonce above the account nonce the
      transaction that was sent first. */
  function SentBy(calls: seq<Call>, a: Address, dbNonce: nat): Queue {
    if calls == [] then map[] else WithCall(SentBy(calls[..|calls| - 1], a, dbNonce), calls[|calls| - 1], a, dbNonce)
  }

  function WithCall(sent: Queue, call: Call, a: Address, dbNonce: nat): Queue {
    match call
    case Send(tx) => if tx.from == a && tx.nonce > dbNonce && tx.nonce !in sent then sent[tx.nonce := tx] else sent
    case Sync => sent
  }

  // ---------------------------------------------------------------- one account

  /** How far one account has got: everything from the account nonce up to h was sent and is
      pending, the rest of what was sent is future, and nothing waits right above the account
      nonce while nothing is pending. */
  ghost predicate Stage(p: Queue, f: Queue, sent: Queue, dbNonce: nat, h: nat) {
    && dbNonce <= h
    && (forall n :: n in sent ==> dbNonce < n)
    && HasRun(sent, dbNonce, h + 1)
    && p == Between(sent, dbNonce, h + 1)
    && f == Outside(sent, dbNonce, h + 1)
    && (h == dbNonce ==> dbNonce + 1 !in sent)
  }

  lemma StageHighest(p: Queue, f: Queue, sent: Queue, dbNonce: nat, h: nat)
    requires Stage(p, f, sent, dbNonce, h)
    ensures Highest(p.Keys, dbNonce) == h
    ensures h > dbNonce ==> Highest(p.Keys, 0) == h
    ensures h == dbNonce ==> p == map[] && f == sent
  {
    if h > dbNonce {
      assert h in p;
      HighestUnique(p.Keys, 0, h);
    }
    HighestUnique(p.Keys, dbNonce, h);
  }

  /** A transaction that does not count, because its nonce was sent before or is too low, is refused
      and moves nothing; one that counts is taken. */
  lemma StageSend(p: Queue, f: Queue, sent: Queue, dbNonce: nat, h: nat, tx: Transaction) returns (h': nat)
    requires Stage(p, f, sent, dbNonce, h)
    ensures var admission := Classify(p, f, tx.nonce, dbNonce);
            var counts := tx.nonce > dbNonce && tx.nonce !in sent;
            && (counts <==> admission == ToPending || admission == ToFuture)
            && (admission == ToPending ==> Stage(p[tx.nonce := tx], f, sent[tx.nonce := tx], dbNonce, h'))
            && (admission == ToFuture ==> Stage(p, f[tx.nonce := tx], sent[tx.nonce := tx], dbNonce, h'))
            && (!counts ==> h' == h)
  {
    StageHighest(p, f, sent, dbNonce, h);
    h' := if tx.nonce == h + 1 && tx.nonce !in sent then h + 1 else h;
  }

  lemma StageSync(p: Queue, f: Queue, sent: Queue, dbNonce: nat, h: nat) returns (h': nat)
    requires Stage(p, f, sent, dbNonce, h)
    ensures Stage(PromotedPending(p, f), PromotedFuture(p, f), sent, dbNonce, h')
    ensures h' + 1 !in sent
  {
    StageHighest(p, f, sent, dbNonce, h);
    if h == dbNonce {
      h' := h;
      assert 1 !in f;
      BetweenNothing(f, 0);
    } else {
      var end := RunEnd(f, h + 1);
      h' := end - 1;
      forall k | dbNonce < k < end
        ensures k in sent
      {
        if k > h {
          assert k in f;
        }
      }
      assert HasRun(sent, dbNonce, end);
    }
  }

  lemma StageSent(accounts: Accounts, pool: Pool, tx: Transaction, sent: Queue, a: Address, h: nat) returns (h': nat)
    requires a in accounts && tx.from == a
    requires Stage(At(pool.pending, a), At(pool.future, a), sent, accounts[a].nonce, h)
    ensures var next := Called(accounts, pool, Send(tx));
            Stage(At(next.pending, a), At(next.future, a), WithCall(sent, Send(tx), a, accounts[a].nonce), accounts[a].nonce, h')
  {
    AdmittedAt(pool, tx, Decide(pool, tx, accounts[a].nonce), a);
    h' := StageSend(At(pool.pending, a), At(pool.future, a), sent, accounts[a].nonce, h, tx);
  }

  lemma OthersSent(accounts: Accounts, pool: Pool, tx: Transaction, a: Address)
    requires tx.from != a
    ensures At(Called(accounts, pool, Send(tx)).pending, a) == At(pool.pending, a)
    ensures At(Called(accounts, pool, Send(tx)).future, a) == At(pool.future, a)
  {
    var admission := if tx.from in accounts then Decide(pool, tx, accounts[tx.from].nonce) else UnknownSender;
    AdmittedAt(pool, tx, admission, a);
  }

  /** One call, seen from one account. */
  lemma StageCall(accounts: Accounts, pool: Pool, call: Call, sent: Queue, a: Address, h: nat) returns (h': nat)
    requires a in accounts
    requires Stage(At(pool.pending, a), At(pool.future, a), sent, accounts[a].nonce, h)
    ensures var next := Called(accounts, pool, call);
            Stage(At(next.pending, a), At(next.future, a), WithCall(sent, call, a, accounts[a].nonce), accounts[a].nonce, h')
  {
    match call {
      case Send(tx) =>
        if tx.from == a {
          h' := StageSent(accounts, pool, tx, sent, a, h);
        } else {
          OthersSent(accounts, pool, tx, a);
          h' := h;
        }
      case Sync =>
        SyncedAt(pool, a);
        h' := StageSync(At(pool.pending, a), At(pool.future, a), sent, accounts[a].nonce, h);
    }
  }

  lemma {:induction false} StageReached(accounts: Accounts, calls: seq<Call>, a: Address) returns (h: nat)
    requires a in accounts
    ensures var pool := After(accounts, calls);
            Stage(At(pool.pending, a), At(pool.future, a), SentBy(calls, a, accounts[a].nonce), accounts[a].nonce, h)
  {
    if calls == [] {
      h := accounts[a].nonce;
    } else {
      var before := calls[..|calls| - 1];
      h := StageReached(accounts, before, a);
      h := StageCall(accounts, After(accounts, before), calls[|calls| - 1],
                     SentBy(before, a, accounts[a].nonce), a, h);
    }
  }

  // ---------------------------------------------------------------- confluence

  /** The end of the run that starts right above a nonce. */
  ghost function RunAfter(q: Queue, nonce: nat): nat {
    RunEnd(q, nonce + 1)
  }

  /** Ending in a promotion, any calls leave pending exactly the maximal run above the account nonce
      of what counts, and future exactly the rest. Repeated, low and foreign transactions, and those
      of unknown senders, may be among them. */
  lemma AdmissionIsConfluent(accounts: Accounts, calls: seq<Call>, a: Address)
    requires a in accounts
    requires calls != [] && calls[|calls| - 1].Sync?
    ensures var pool, dbNonce := After(accounts, calls), accounts[a].nonce;
            var sent := SentBy(calls, a, dbNonce);
            && At(pool.pending, a) == Between(sent, dbNonce, RunAfter(sent, dbNonce))
            && At(pool.future, a) == Outside(sent, dbNonce, RunAfter(sent, dbNonce))
  {
    var before := calls[..|calls| - 1];
    var h := StageReached(accounts, before, a);
    SyncLast(accounts, calls, a, accounts[a].nonce);
    SyncSettles(After(accounts, before), a, SentBy(calls, a, accounts[a].nonce), accounts[a].nonce, h);
  }

  lemma SyncLast(accounts: Accounts, calls: seq<Call>, a: Address, dbNonce: nat)
    requires calls != [] && calls[|calls| - 1].Sync?
    ensures After(accounts, calls) == Synced(After(accounts, calls[..|calls| - 1]))
    ensures SentBy(calls, a, dbNonce) == SentBy(calls[..|calls| - 1], a, dbNonce)
  {
  }

  lemma SyncSettles(pool: Pool, a: Address, sent: Queue, dbNonce: nat, h: nat)
    requires Stage(At(pool.pending, a), At(pool.future, a), sent, dbNonce, h)
    ensures At(Synced(pool).pending, a) == Between(sent, dbNonce, RunAfter(sent, dbNonce))
    ensures At(Synced(pool).future, a) == Outside(sent, dbNonce, RunAfter(sent, dbNonce))
  {
    var p, f := At(pool.pending, a), At(pool.future, a);
    SyncedAt(pool, a);
    var h' := StageSync(p, f, sent, dbNonce, h);
    StageSettled(PromotedPending(p, f), PromotedFuture(p, f), sent, dbNonce, h');
  }

  lemma StageSettled(p: Queue, f: Queue, sent: Queue, dbNonce: nat, h: nat)
    requires Stage(p, f, sent, dbNonce, h) && h + 1 !in sent
    ensures p == Between(sent, dbNonce, RunAfter(sent, dbNonce))
    ensures f == Outside(sent, dbNonce, RunAfter(sent, dbNonce))
  {
  }

  /** A nonce of a sender always stands for the same transaction, however often it is sent. */
  ghost predicate Consistent(calls: seq<Call>) {
    forall tx, u :: Send(tx) in calls && Send(u) in calls && tx.from == u.from && tx.nonce == u.nonce ==> tx == u
  }

  /** What counts was sent, and of each nonce above the account nonce that was sent something counts. */
  lemma {:induction false} SentMembers(calls: seq<Call>, a: Address, dbNonce: nat)
    ensures var sent := SentBy(calls, a, dbNonce);
            && (forall n :: n in sent ==> Send(sent[n]) in calls && sent[n].from == a && sent[n].nonce == n && n > dbNonce)
            && (forall tx :: Send(tx) in calls && tx.from == a && tx.nonce > dbNonce ==> tx.nonce in sent)
  {
    if calls != [] {
      var before, last := calls[..|calls| - 1], calls[|calls| - 1];
      SentMembers(before, a, dbNonce);
      assert forall call :: call in calls <==> call in before || call == last;
      forall n | n in SentBy(calls, a, dbNonce)
        ensures var tx := SentBy(calls, a, dbNonce)[n];
                Send(tx) in calls && tx.from == a && tx.nonce == n && n > dbNonce
      {
        if n in SentBy(before, a, dbNonce) {
          assert Send(SentBy(before, a, dbNonce)[n]) in before;
        } else {
          assert last == Send(SentBy(calls, a, dbNonce)[n]);
        }
      }
    }
  }

  lemma SentOf(calls: seq<Call>, other: seq<Call>, a: Address, dbNonce: nat, n: nat)
    requires Consistent(other) && (forall tx :: Send(tx) in calls ==> Send(tx) in other)
    requires n in SentBy(calls, a, dbNonce)
    ensures n in SentBy(other, a, dbNonce) && SentBy(other, a, dbNonce)[n] == SentBy(calls, a, dbNonce)[n]
  {
    SentMembers(calls, a, dbNonce);
    SentMembers(other, a, dbNonce);
    assert Send(SentBy(calls, a, dbNonce)[n]) in other;
  }

  lemma SameSends(calls: seq<Call>, other: seq<Call>, a: Address, dbNonce: nat)
    requires Consistent(calls) && forall tx :: Send(tx) in calls <==> Send(tx) in other
    ensures SentBy(calls, a, dbNonce) == SentBy(other, a, dbNonce)
  {
    forall n: nat
      ensures n in SentBy(calls, a, dbNonce) <==> n in SentBy(other, a, dbNonce)
      ensures n in SentBy(calls, a, dbNonce) ==> SentBy(other, a, dbNonce)[n] == SentBy(calls, a, dbNonce)[n]
    {
      if n in SentBy(calls, a, dbNonce) {
        SentOf(calls, other, a, dbNonce, n);
      }
      if n in SentBy(other, a, dbNonce) {
        SentOf(other, calls, a, dbNonce, n);
      }
    }
  }

  /** Any order and any repetition: two sequences that send the same transactions and end in a
      promotion leave every account with the same queues. */
  lemma AnyOrder(accounts: Accounts, calls: seq<Call>, other: seq<Call>, a: Address)
    requires Consistent(calls) && a in accounts
    requires calls != [] && calls[|calls| - 1].Sync? && other != [] && other[|other| - 1].Sync?
    requires forall tx :: Send(tx) in calls <==> Send(tx) in other
    ensures At(After(accounts, calls).pending, a) == At(After(accounts, other).pending, a)
    ensures At(After(accounts, calls).future, a) == At(After(accounts, other).future, a)
  {
    SameSends(calls, other, a, accounts[a].nonce);
    AdmissionIsConfluent(accounts, calls, a);
    AdmissionIsConfluent(accounts, other, a);
  }

  /** In particular the n transactions after the account nonce, sent in any order and however often,
      all become pending. */
  lemma ConsecutiveAllPending(accounts: Accounts, calls: seq<Call>, a: Address, n: nat)
    requires a in accounts
    requires calls != [] && calls[|calls| - 1].Sync?
    requires forall k: nat :: k in SentBy(calls, a, accounts[a].nonce) <==> accounts[a].nonce < k <= accounts[a].nonce + n
    ensures At(After(accounts, calls).pending, a) == SentBy(calls, a, accounts[a].nonce)
    ensures At(After(accounts, calls).future, a) == map[]
  {
    var dbNonce := accounts[a].nonce;
    AdmissionIsConfluent(accounts, calls, a);
    RunEndUnique(SentBy(calls, a, dbNonce), dbNonce, dbNonce + n + 1);
  }

  // ---------------------------------------------------------------- what promotion misses

  /** The next transaction to execute is still future after a promotion. */
  ghost predicate LeftBehind(p: Queue, f: Queue, dbNonce: nat) {
    Highest(PromotedPending(p, f).Keys, dbNonce) + 1 in PromotedFuture(p, f)
  }

  /** Promotion leaves the next transaction behind if and only if that transaction is future and the
      run that promotion looks at ends at or below the account nonce; this holds of all queues,
      also of stale ones. */
  lemma LeftBehindIff(p: Queue, f: Queue, dbNonce: nat)
    ensures LeftBehind(p, f, dbNonce) <==> RunEnd(f, Highest(p.Keys, 0) + 1) <= dbNonce && dbNonce + 1 in f
  {
    HighestPromoted(p, f, dbNonce);
  }

  lemma HighestPromoted(p: Queue, f: Queue, dbNonce: nat)
    ensures var last := RunEnd(f, Highest(p.Keys, 0) + 1) - 1;
            Highest(PromotedPending(p, f).Keys, dbNonce) == if last > dbNonce then last else dbNonce
  {
    var h := Highest(p.Keys, 0);
    var end := RunEnd(f, h + 1);
    assert end > h + 1 ==> end - 1 in Between(f, h, end);
    HighestUnique(PromotedPending(p, f).Keys, dbNonce, if end - 1 > dbNonce then end - 1 else dbNonce);
  }

  /** In coherent queues this is the case exactly when nothing is pending, the account nonce is not 0
      and the next transaction is future. */
  lemma CoherentLeftBehindIff(p: Queue, f: Queue, dbNonce: nat)
    requires CoherentAt(p, f, dbNonce)
    ensures LeftBehind(p, f, dbNonce) <==> p == map[] && dbNonce > 0 && dbNonce + 1 in f
  {
  }
}
