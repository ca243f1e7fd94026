/** The failover loop of the request handler, alone on the pool. */
module BackendHandler {
  import opened Wrappers
  import opened ServerPool

  /** How the request sent to a backend ends: a response, an error, or the client's cancellation. */
  datatype Outcome = Answered | Failed | Cancelled

  /** What the environment does until the next send: `fulls` times the chosen channel stays full, then the outcome. */
  datatype Round = Round(fulls: nat, outcome: Outcome)

  datatype Reply = Forwarded | Unavailable | Abandoned

  /** The backends that have failed among the first `n` sends. */
  ghost predicate FailedOn(sent: seq<Backend>, rounds: nat -> Round, b: Backend) {
    exists t: nat :: t < |sent| && sent[t] == b && rounds(t).outcome == Failed
  }

  /** One turn of the loop. */
  datatype Turn = NoServer | ChannelFull | Sent(backend: Backend)

  /**
   Choose the server that is due, assign, send and free; mark the server dead on an error. `busy`: the
   channel stays full.
   */
  method TakeTurn(pool: ServerPool, busy: bool, outcome: Outcome) returns (turn: Turn)
    requires pool.Valid() && forall b :: b in pool.servers ==> b.requests < b.maximalRequests
    modifies pool`current, pool.servers
    ensures pool.Valid()
    ensures turn.Sent? ==> !busy && Some(turn.backend) == old(pool.Due())
    ensures turn == ChannelFull ==> busy && old(pool.Due()).Some?
    ensures turn == NoServer ==> old(pool.Due()).None?
    ensures forall b :: b in pool.servers ==>
              b.requests == old(b.requests) && b.alive == (old(b.alive) && !(turn == Sent(b) && outcome == Failed))
  {
    var server := pool.GetNextPeer();
    if server.None? {
      return NoServer;
    }
    assert pool.Valid() && server == old(pool.Due());
    var b := server.value;
    var ok := b.AssignRequest(busy);
    if !ok {
      return ChannelFull;
    }
    var _ := b.Free();
    if outcome == Failed {
      b.SetAlive(false);
    }
    return Sent(b);
  }

  /** A turn, apart from the order in which servers are due. */
  method TakeSomeTurn(pool: ServerPool, busy: bool, outcome: Outcome) returns (turn: Turn)
    requires pool.Valid() && forall b :: b in pool.servers ==> b.requests < b.maximalRequests
    modifies pool`current, pool.servers
    ensures pool.Valid()
    ensures turn == NoServer <==> forall b :: b in pool.servers ==> !old(b.alive)
    ensures turn == ChannelFull ==> busy
    ensures turn.Sent? ==> !busy && turn.backend in pool.servers && old(turn.backend.alive)
    ensures forall b :: b in pool.servers ==>
              b.requests == old(b.requests) && b.alive == (old(b.alive) && !(turn == Sent(b) && outcome == Failed))
  {
    pool.DueIsAlive();
    turn := TakeTurn(pool, busy, outcome);
  }

  /**
   Take turns until a response or a cancellation arrives or no server is alive. With finitely many full
   channels in a row the loop ends, each further round with fewer alive servers. `sent` lists the
   backends the request was sent to.
   */
  method Handle(pool: ServerPool, rounds: nat -> Round) returns (reply: Reply, sent: seq<Backend>)
    requires pool.Valid()
    requires forall b :: b in pool.servers ==> b.requests < b.maximalRequests
    modifies pool`current, pool.servers
    ensures pool.Valid()
    // no backend gets the request twice, and only backends alive at the start get it
    ensures Distinct(sent)
    ensures forall b :: b in sent ==> b in pool.servers && old(b.alive)
    // it is sent on only after a failure
    ensures forall t: nat :: t + 1 < |sent| ==> rounds(t).outcome == Failed
    // 503 exactly when every backend alive at the start was tried and failed
    ensures reply == Unavailable <==>
              && (forall b :: b in pool.servers && old(b.alive) ==> b in sent)
              && (forall t: nat :: t < |sent| ==> rounds(t).outcome == Failed)
    ensures reply == Forwarded <==> |sent| > 0 && rounds(|sent| - 1).outcome == Answered
    ensures reply == Abandoned <==> |sent| > 0 && rounds(|sent| - 1).outcome == Cancelled
    // exactly the failed backends are marked dead, and every slot is given back
    ensures forall b :: b in pool.servers ==> b.alive == (old(b.alive) && !FailedOn(sent, rounds, b))
    ensures forall b :: b in pool.servers ==> b.requests == old(b.requests)
  {
    sent := [];
    var left := rounds(0).fulls;
    ghost var untried := set b | b in pool.servers && b.alive;
    while true
      invariant pool.Valid() && Distinct(sent)
      invariant forall b :: b in pool.servers ==> b.requests == old(b.requests)
      invariant forall b :: b in sent ==> b in pool.servers && old(b.alive)
      invariant forall t: nat :: t < |sent| ==> rounds(t).outcome == Failed
      invariant forall b :: b in pool.servers ==> b.alive == (old(b.alive) && b !in sent)
      invariant forall b :: b in untried <==> b in pool.servers && b.alive
      decreases untried, left
    {
      var outcome := rounds(|sent|).outcome;
      var turn := TakeSomeTurn(pool, left > 0, outcome);
      match turn {
        case NoServer =>
          FailedIsSent(sent, rounds);
          return Unavailable, sent;
        case ChannelFull =>
          left := left - 1;
        case Sent(b) =>
          if outcome != Failed {
            SentOnceMore(sent, rounds, b);
            sent := sent + [b];
            return if outcome == Answered then Forwarded else Abandoned, sent;
          }
          sent := sent + [b];
          untried := untried - {b};
          left := rounds(|sent|).fulls;
      }
    }
  }

  lemma FailedIsSent(sent: seq<Backend>, rounds: nat -> Round)
    requires forall t: nat :: t < |sent| ==> rounds(t).outcome == Failed
    ensures forall b :: FailedOn(sent, rounds, b) <==> b in sent
  {
    forall b | b in sent ensures FailedOn(sent, rounds, b) {
      var t :| 0 <= t < |sent| && sent[t] == b;
    }
  }

  /** A send that does not fail adds no failed backend. */
  lemma SentOnceMore(before: seq<Backend>, rounds: nat -> Round, last: Backend)
    requires forall t: nat :: t < |before| ==> rounds(t).outcome == Failed
    requires rounds(|before|).outcome != Failed
    ensures forall b :: FailedOn(before + [last], rounds, b) <==> b in before
  {
    FailedIsSent(before, rounds);
    var sent := before + [last];
    forall b ensures FailedOn(sent, rounds, b) <==> b in before {
      if b in before {
        var t: nat :| t < |before| && before[t] == b;
        assert sent[t] == b;
      }
    }
  }
}
