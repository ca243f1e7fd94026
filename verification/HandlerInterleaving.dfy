/**
 The server pool under concurrency. Request handlers, health checks and changes of the pool interleave
 freely: taking the pool's lock, looking at one server, every operation on a request channel, the end of
 a send and every change of liveness are steps of their own. Only the pool's lock excludes other steps.
 */
module HandlerInterleaving {
  import opened BackendHandler
  import opened Wrappers
  import RR = RoundRobin
  import Tally

  type Bid = nat
  type Hid = nat

  /** `capacity` and `occupancy` are those of the request channel. */
  datatype Backend = Backend(capacity: nat, occupancy: nat, alive: bool)

  /**
   What a handler does next. `fulls` counts the full channels since the last send; `start` remembers
   where the scan found the pointer.
   */
  datatype Pc =
    | Choosing(fulls: nat)                          // take the pool's lock
    | Scanning(fulls: nat, start: int, looked: nat) // look at the next server
    | Chosen(fulls: nat, b: Bid)                    // lock released; assign
    | Sending(b: Bid)                               // a slot is held, the send is under way
    | Returned(b: Bid, outcome: Outcome)            // the send is over; free the slot
    | Freed(b: Bid, outcome: Outcome)               // reply, or mark the backend dead
    | Finished(reply: Reply)

  /** `tried` is the history of the backends the request was sent to, `outcomes` how the sends ended. */
  datatype Handler = Handler(pc: Pc, tried: seq<Bid>, outcomes: seq<Outcome>)

  /** `backends` are all that were ever created, in the pool or not; `scanner` holds the pool's lock. */
  datatype State = State(
    backends: map<Bid, Backend>,
    pool: seq<Bid>,
    current: int,
    scanner: Option<Hid>,
    handlers: map<Hid, Handler>)

  datatype Step =
    | Arrive(h: Hid)
    | Lock(h: Hid)
    | Look(h: Hid)
    | GiveUp(h: Hid)
    | Assign(h: Hid)
    | TimeOut(h: Hid)                   // the channel stays full until the timer fires
    | Return(h: Hid, outcome: Outcome)
    | Free(h: Hid)
    | MarkDead(h: Hid)
    | Respond(h: Hid)
    | SetAlive(b: Bid, alive: bool)     // a health check
    | AddServer(b: Bid, capacity: nat)
    | RemoveServer(i: nat)

  predicate Enabled(s: State, a: Step) {
    match a
    case Arrive(h) => h !in s.handlers
    case Lock(h) => h in s.handlers && s.handlers[h].pc.Choosing? && s.scanner.None?
    case Look(h) =>
      h in s.handlers && s.handlers[h].pc.Scanning? && s.handlers[h].pc.looked < |s.pool| && s.current >= -1
      && s.pool[RR.Successor(s.current, |s.pool|)] in s.backends
    case GiveUp(h) => h in s.handlers && s.handlers[h].pc.Scanning? && s.handlers[h].pc.looked == |s.pool|
    case Assign(h) =>
      h in s.handlers && s.handlers[h].pc.Chosen? && s.handlers[h].pc.b in s.backends
      && s.backends[s.handlers[h].pc.b].occupancy < s.backends[s.handlers[h].pc.b].capacity
    case TimeOut(h) =>
      h in s.handlers && s.handlers[h].pc.Chosen? && s.handlers[h].pc.b in s.backends
      && s.backends[s.handlers[h].pc.b].occupancy == s.backends[s.handlers[h].pc.b].capacity
    case Return(h, _) => h in s.handlers && s.handlers[h].pc.Sending?
    case Free(h) => h in s.handlers && s.handlers[h].pc.Returned? && s.handlers[h].pc.b in s.backends
    case MarkDead(h) =>
      h in s.handlers && s.handlers[h].pc.Freed? && s.handlers[h].pc.outcome == Failed
      && s.handlers[h].pc.b in s.backends
    case Respond(h) => h in s.handlers && s.handlers[h].pc.Freed? && s.handlers[h].pc.outcome != Failed
    case SetAlive(b, _) => b in s.backends
    case AddServer(b, _) => b !in s.backends && s.scanner.None?
    case RemoveServer(i) => i < |s.pool| && s.scanner.None?
  }

  function Goto(s: State, h: Hid, pc: Pc): State
    requires h in s.handlers
  {
    s.(handlers := s.handlers[h := s.handlers[h].(pc := pc)])
  }

  function WithAlive(s: State, b: Bid, alive: bool): State
    requires b in s.backends
  {
    s.(backends := s.backends[b := s.backends[b].(alive := alive)])
  }

  function WithOccupancy(s: State, b: Bid, occupancy: nat): State
    requires b in s.backends
  {
    s.(backends := s.backends[b := s.backends[b].(occupancy := occupancy)])
  }

  function Apply(s: State, a: Step): State
    requires Enabled(s, a)
  {
    match a
    case Arrive(h) => s.(handlers := s.handlers[h := Handler(Choosing(0), [], [])])
    case Lock(h) => Goto(s.(scanner := Some(h)), h, Scanning(s.handlers[h].pc.fulls, s.current, 0))
    case Look(h) =>
      var pc := s.handlers[h].pc;
      var current := RR.Successor(s.current, |s.pool|);
      var moved := s.(current := current);
      if s.backends[s.pool[current]].alive then
        Goto(moved.(scanner := None), h, Chosen(pc.fulls, s.pool[current]))
      else Goto(moved, h, Scanning(pc.fulls, pc.start, pc.looked + 1))
    case GiveUp(h) => Goto(s.(scanner := None), h, Finished(Unavailable))
    case Assign(h) =>
      var b := s.handlers[h].pc.b;
      var full := WithOccupancy(s, b, s.backends[b].occupancy + 1);
      full.(handlers := s.handlers[h := Handler(Sending(b), s.handlers[h].tried + [b], s.handlers[h].outcomes)])
    case TimeOut(h) => Goto(s, h, Choosing(s.handlers[h].pc.fulls + 1))
    case Return(h, outcome) =>
      var handler := s.handlers[h];
      s.(handlers := s.handlers[h := Handler(Returned(handler.pc.b, outcome), handler.tried,
                                             handler.outcomes + [outcome])])
    case Free(h) =>
      var b := s.handlers[h].pc.b;
      var o := s.backends[b].occupancy;
      Goto(WithOccupancy(s, b, if o > 0 then o - 1 else 0), h, Freed(b, s.handlers[h].pc.outcome))
    case MarkDead(h) => Goto(WithAlive(s, s.handlers[h].pc.b, false), h, Choosing(0))
    case Respond(h) =>
      Goto(s, h, Finished(if s.handlers[h].pc.outcome == Answered then Forwarded else Abandoned))
    case SetAlive(b, alive) => WithAlive(s, b, alive)
    case AddServer(b, capacity) =>
      s.(backends := s.backends[b := Backend(capacity, 0, false)], pool := s.pool + [b])
    case RemoveServer(i) => s.(pool := s.pool[..i] + s.pool[i + 1..])
  }

  /** The state after a sequence of steps, if each is enabled in its turn. */
  function Exec(s: State, steps: seq<Step>): Option<State> {
    if steps == [] then Some(s)
    else
      match Exec(s, steps[..|steps| - 1])
      case None => None
      case Some(m) =>
        var a := steps[|steps| - 1];
        if Enabled(m, a) then Some(Apply(m, a)) else None
  }

  // ---------- What every step keeps ----------

  predicate Owns(pc: Pc) {
    pc.Chosen? || pc.Sending? || pc.Returned? || pc.Freed?
  }

  /** All backends in use are known. */
  ghost predicate Known(s: State) {
    && (forall i :: 0 <= i < |s.pool| ==> s.pool[i] in s.backends)
    && (forall h :: h in s.handlers && Owns(s.handlers[h].pc) ==> s.handlers[h].pc.b in s.backends)
  }

  /** The lock is held by the one handler that scans, and the pointer is where its scan has brought it. */
  ghost predicate Locked(s: State) {
    && s.current >= -1
    && (s.scanner.Some? ==> s.scanner.value in s.handlers)
    && (forall h :: h in s.handlers ==> (s.handlers[h].pc.Scanning? <==> s.scanner == Some(h)))
    && (forall h :: h in s.handlers && s.handlers[h].pc.Scanning? ==> ScanAt(s, s.handlers[h].pc))
  }

  ghost predicate ScanAt(s: State, pc: Pc)
    requires pc.Scanning?
  {
    && pc.start >= -1 && pc.looked <= |s.pool|
    && s.current == if pc.looked == 0 then pc.start
                    else RR.Shifted(|s.pool|, RR.Successor(pc.start, |s.pool|), pc.looked - 1)
  }

  lemma StepKnown(s: State, a: Step)
    requires Known(s) && Enabled(s, a)
    ensures Known(Apply(s, a))
  {
  }

  lemma StepScanAt(s: State, a: Step, h: Hid)
    requires Locked(s) && Enabled(s, a) && h in Apply(s, a).handlers && Apply(s, a).handlers[h].pc.Scanning?
    ensures ScanAt(Apply(s, a), Apply(s, a).handlers[h].pc)
  {
  }

  lemma StepLocked(s: State, a: Step)
    requires Locked(s) && Enabled(s, a)
    ensures Locked(Apply(s, a))
  {
    var r := Apply(s, a);
    forall h | h in r.handlers && r.handlers[h].pc.Scanning? ensures ScanAt(r, r.handlers[h].pc) {
      StepScanAt(s, a, h);
    }
  }

  // ---------- Slots ----------

  /** Handlers hold a slot from the assignment until they free it. */
  function Holds(handler: Handler, b: Bid): int {
    if (handler.pc.Sending? || handler.pc.Returned?) && handler.pc.b == b then 1 else 0
  }

  ghost function Holdings(handlers: map<Hid, Handler>, b: Bid): map<Hid, int> {
    map h | h in handlers :: Holds(handlers[h], b)
  }

  /** How many handlers hold a slot of `b`. */
  ghost function Holders(handlers: map<Hid, Handler>, b: Bid): int {
    Tally.Sum(Holdings(handlers, b))
  }

  /** Every channel holds as many items as handlers hold slots of its backend, and never too many. */
  ghost predicate Slots(s: State) {
    forall b :: b in s.backends ==>
      s.backends[b].occupancy == Holders(s.handlers, b) && s.backends[b].occupancy <= s.backends[b].capacity
  }

  lemma HoldersPut(handlers: map<Hid, Handler>, h: Hid, x: Handler, b: Bid)
    ensures Holders(handlers[h := x], b)
         == Holders(handlers, b) + Holds(x, b) - if h in handlers then Holds(handlers[h], b) else 0
  {
    Tally.SumPut(Holdings(handlers, b), h, Holds(x, b));
    assert Holdings(handlers[h := x], b) == Holdings(handlers, b)[h := Holds(x, b)];
  }

  lemma HolderCounts(handlers: map<Hid, Handler>, h: Hid, b: Bid)
    requires h in handlers
    ensures Holds(handlers[h], b) <= Holders(handlers, b)
  {
    Tally.SumNonNegative(Holdings(handlers, b));
    assert Holdings(handlers, b)[h] == Holds(handlers[h], b);
  }

  lemma NoHolders(handlers: map<Hid, Handler>, b: Bid)
    requires forall h :: h in handlers ==> Holds(handlers[h], b) == 0
    ensures Holders(handlers, b) == 0
  {
    Tally.SumZero(Holdings(handlers, b));
  }

  predicate ByHandler(a: Step) {
    !a.SetAlive? && !a.AddServer? && !a.RemoveServer?
  }

  /** What a handler's step does to the number of holders and to the channel of one backend. */
  lemma HandlerStepSlots(s: State, a: Step, b: Bid)
    requires Enabled(s, a) && ByHandler(a) && b in s.backends
    requires s.backends[b].occupancy == Holders(s.handlers, b) && s.backends[b].occupancy <= s.backends[b].capacity
    ensures var r := Apply(s, a);
            b in r.backends
            && r.backends[b].occupancy == Holders(r.handlers, b) && r.backends[b].occupancy <= r.backends[b].capacity
  {
    var r := Apply(s, a);
    assert r.handlers == s.handlers[a.h := r.handlers[a.h]];
    HoldersPut(s.handlers, a.h, r.handlers[a.h], b);
    if a.Free? {
      HolderCounts(s.handlers, a.h, b);
    }
  }

  lemma StepSlots(s: State, a: Step)
    requires Slots(s) && Known(s) && Enabled(s, a)
    ensures Slots(Apply(s, a))
  {
    var r := Apply(s, a);
    forall b | b in r.backends
      ensures r.backends[b].occupancy == Holders(r.handlers, b) && r.backends[b].occupancy <= r.backends[b].capacity
    {
      if ByHandler(a) {
        HandlerStepSlots(s, a, b);
      } else if a.AddServer? && a.b == b {
        NoHolders(s.handlers, b);
      }
    }
  }

  /** No handler is at work, all slots are free and the lock is not held. */
  ghost predicate Initial(s: State) {
    && s.handlers == map[] && s.scanner == None && s.current >= -1
    && (forall i :: 0 <= i < |s.pool| ==> s.pool[i] in s.backends)
    && (forall b :: b in s.backends ==> s.backends[b].occupancy == 0)
  }

  ghost predicate Consistent(s: State) {
    Known(s) && Locked(s) && Slots(s)
  }

  lemma InitialConsistent(s: State)
    requires Initial(s)
    ensures Consistent(s)
  {
    forall b | b in s.backends ensures s.backends[b].occupancy == Holders(s.handlers, b) {
      NoHolders(s.handlers, b);
    }
  }

  lemma {:induction false} ConsistentThroughout(s0: State, steps: seq<Step>, s: State)
    requires Consistent(s0) && Exec(s0, steps) == Some(s)
    ensures Consistent(s)
  {
    if steps != [] {
      var init, a := steps[..|steps| - 1], steps[|steps| - 1];
      var before := Exec(s0, init).value;
      ConsistentThroughout(s0, init, before);
      StepKnown(before, a);
      StepLocked(before, a);
      StepSlots(before, a);
    }
  }

  /**
   In every interleaving each request channel holds exactly as many items as handlers are between
   assign and free on its backend, at most its capacity; Free always finds an item; and when all handlers
   are done, however they ended, no slot is lost. This includes backends marked dead or removed meanwhile.
   */
  lemma SlotsAccounted(s0: State, steps: seq<Step>, s: State, b: Bid)
    requires Initial(s0) && Exec(s0, steps) == Some(s) && b in s.backends
    ensures s.backends[b].occupancy == Holders(s.handlers, b) <= s.backends[b].capacity
    ensures forall h :: h in s.handlers && s.handlers[h].pc.Returned? && s.handlers[h].pc.b == b ==>
              s.backends[b].occupancy > 0
    ensures (forall h :: h in s.handlers ==> s.handlers[h].pc.Finished?) ==> s.backends[b].occupancy == 0
  {
    InitialConsistent(s0);
    ConsistentThroughout(s0, steps, s);
    forall h | h in s.handlers && s.handlers[h].pc.Returned? && s.handlers[h].pc.b == b
      ensures s.backends[b].occupancy > 0
    {
      HolderCounts(s.handlers, h, b);
    }
    if forall h :: h in s.handlers ==> s.handlers[h].pc.Finished? {
      NoHolders(s.handlers, b);
    }
  }

  /** In a consistent state a channel is full exactly if as many handlers hold its slots as it has. */
  lemma FullMeansHeld(s: State, h: Hid)
    requires Consistent(s) && h in s.handlers && s.handlers[h].pc.Chosen?
    ensures var b := s.handlers[h].pc.b;
            b in s.backends
            && (Enabled(s, TimeOut(h)) <==> Holders(s.handlers, b) == s.backends[b].capacity)
            && (Enabled(s, Assign(h)) <==> Holders(s.handlers, b) < s.backends[b].capacity)
  {
  }

  /** Some step of handler `h` is possible. */
  ghost predicate CanStep(s: State, h: Hid) {
    exists a: Step :: Enabled(s, a) && ByHandler(a) && a.h == h
  }

  /** No deadlock: an unfinished handler can go on, or waits for the lock of one that can. */
  lemma NoDeadlock(s0: State, steps: seq<Step>, s: State, h: Hid)
    requires Consistent(s0) && Exec(s0, steps) == Some(s) && h in s.handlers && !s.handlers[h].pc.Finished?
    ensures CanStep(s, h) || (s.handlers[h].pc.Choosing? && s.scanner.Some? && CanStep(s, s.scanner.value))
  {
    ConsistentThroughout(s0, steps, s);
    var who := if s.handlers[h].pc.Choosing? && s.scanner.Some? then s.scanner.value else h;
    var pc := s.handlers[who].pc;
    var a :=
      if pc.Choosing? then
        Lock(who)
      else if pc.Scanning? then
        if pc.looked < |s.pool| then Look(who) else GiveUp(who)
      else if pc.Chosen? then
        if s.backends[pc.b].occupancy < s.backends[pc.b].capacity then Assign(who) else TimeOut(who)
      else if pc.Sending? then
        Return(who, Answered)
      else if pc.Returned? then
        Free(who)
      else if pc.outcome == Failed then
        MarkDead(who)
      else
        Respond(who);
    assert Enabled(s, a);
  }

  // ---------- At most one send to each backend ----------

  /** A health check finds a dead backend alive; one that finds a live backend alive changes nothing. */
  predicate Revives(s: State, a: Step, b: Bid) {
    a == SetAlive(b, true) && b in s.backends && !s.backends[b].alive
  }

  /** Some step of the run revives `b`. */
  ghost predicate Revived(s0: State, steps: seq<Step>, b: Bid) {
    exists i :: 0 <= i < |steps| && Exec(s0, steps[..i]).Some? && Revives(Exec(s0, steps[..i]).value, steps[i], b)
  }

  lemma NotRevivedBefore(s0: State, init: seq<Step>, m: State, a: Step, b: Bid)
    requires Exec(s0, init) == Some(m) && !Revived(s0, init + [a], b)
    ensures !Revived(s0, init, b) && !Revives(m, a, b)
  {
    var steps := init + [a];
    assert steps[..|init|] == init;
    assert forall i :: 0 <= i < |init| ==> init[..i] == steps[..i] && init[i] == steps[i];
  }

  lemma NothingRevivedBefore(s0: State, init: seq<Step>, m: State, a: Step)
    requires Exec(s0, init) == Some(m) && forall b :: !Revived(s0, init + [a], b)
    ensures forall b :: !Revived(s0, init, b)
    ensures forall b :: !Revives(m, a, b)
  {
    forall b ensures !Revived(s0, init, b) && !Revives(m, a, b) {
      NotRevivedBefore(s0, init, m, a, b);
    }
  }

  ghost predicate AliveAt(s: State, b: Bid) {
    b in s.backends && s.backends[b].alive
  }

  ghost predicate DeadAt(s: State, b: Bid) {
    b in s.backends && !s.backends[b].alive
  }

  /** The request went to `b` at most once, and once it is elsewhere again `b` is dead. */
  ghost predicate OnceOn(s: State, handler: Handler, b: Bid) {
    var tried := handler.tried;
    && (forall i, j :: 0 <= i < j < |tried| ==> tried[i] != b || tried[j] != b)
    && (b in tried ==> b in s.backends)
    && match handler.pc {
         case Choosing(_) => b in tried ==> DeadAt(s, b)
         case Scanning(_, _, _) => b in tried ==> DeadAt(s, b)
         case Chosen(_, c) => b in tried ==> DeadAt(s, b) && c != b
         case Finished(_) => true
         case _ => b in tried && handler.pc.b != b ==> DeadAt(s, b)
       }
  }

  lemma OthersOnceOn(s: State, a: Step, handler: Handler, b: Bid)
    requires Enabled(s, a) && !Revives(s, a, b) && OnceOn(s, handler, b)
    ensures OnceOn(Apply(s, a), handler, b)
  {
  }

  lemma OwnOnceOn(s: State, a: Step, b: Bid)
    requires Enabled(s, a) && ByHandler(a) && (a.Arrive? || OnceOn(s, s.handlers[a.h], b))
    ensures OnceOn(Apply(s, a), Apply(s, a).handlers[a.h], b)
  {
  }

  lemma {:induction false} OnceUnlessRevived(s0: State, steps: seq<Step>, s: State, h: Hid, b: Bid)
    requires h !in s0.handlers && Exec(s0, steps) == Some(s) && h in s.handlers && !Revived(s0, steps, b)
    ensures OnceOn(s, s.handlers[h], b)
  {
    var init, a := steps[..|steps| - 1], steps[|steps| - 1];
    var before := Exec(s0, init).value;
    assert steps == init + [a];
    NotRevivedBefore(s0, init, before, a, b);
    if h in before.handlers {
      OnceUnlessRevived(s0, init, before, h, b);
    }
    if ByHandler(a) && a.h == h {
      OwnOnceOn(before, a, b);
    } else {
      OthersOnceOn(before, a, before.handlers[h], b);
    }
  }

  /**
   A request that arrives in any state goes to a backend twice only if the backend was revived since; a
   backend that was not revived is dead once the request has left it for another.
   */
  lemma NeverTwice(s0: State, steps: seq<Step>, s: State, h: Hid)
    requires h !in s0.handlers && Exec(s0, steps) == Some(s) && h in s.handlers
    ensures var tried := s.handlers[h].tried;
            forall i, j :: 0 <= i < j < |tried| && tried[i] == tried[j] ==> Revived(s0, steps, tried[i])
    ensures forall b :: !Revived(s0, steps, b) ==> OnceOn(s, s.handlers[h], b)
  {
    forall b | !Revived(s0, steps, b) ensures OnceOn(s, s.handlers[h], b) {
      OnceUnlessRevived(s0, steps, s, h, b);
    }
  }

  // ---------- When a handler gives up ----------

  /** The server at the `d`-th place of a scan. */
  function Scanned(s: State, pc: Pc, d: nat): Bid
    requires pc.Scanning? && pc.start >= -1 && d < |s.pool|
  {
    s.pool[RR.Shifted(|s.pool|, RR.Successor(pc.start, |s.pool|), d)]
  }

  ghost predicate Scans(s: State, h: Hid) {
    h in s.handlers && s.handlers[h].pc.Scanning?
  }

  /** If handler `h` is scanning and has passed `b`, then `b` is dead. */
  ghost predicate PassedDead(s: State, h: Hid, b: Bid) {
    Scans(s, h) ==>
      var pc := s.handlers[h].pc;
      && pc.start >= -1 && pc.looked <= |s.pool|
      && forall d: nat :: d < pc.looked && Scanned(s, pc, d) == b ==> !AliveAt(s, b)
  }

  lemma OthersPassedDead(s: State, a: Step, h: Hid, b: Bid)
    requires Locked(s) && PassedDead(s, h, b) && Enabled(s, a) && !Revives(s, a, b) && !(ByHandler(a) && a.h == h)
    ensures PassedDead(Apply(s, a), h, b)
  {
    var r := Apply(s, a);
    if Scans(r, h) {
      var pc := s.handlers[h].pc;
      assert s.scanner == Some(h) && r.pool == s.pool;
      forall d: nat | d < pc.looked && Scanned(r, pc, d) == b ensures !AliveAt(r, b) {
        assert Scanned(s, pc, d) == b;
      }
    }
  }

  lemma OwnPassedDead(s: State, a: Step, b: Bid)
    requires Known(s) && Locked(s) && Enabled(s, a) && ByHandler(a) && PassedDead(s, a.h, b)
    ensures PassedDead(Apply(s, a), a.h, b)
  {
    var r := Apply(s, a);
    if a.Look? && r.handlers[a.h].pc.Scanning? {
      var before, pc := s.handlers[a.h].pc, r.handlers[a.h].pc;
      assert ScanAt(s, before);
      forall d: nat | d < pc.looked && Scanned(r, pc, d) == b ensures !AliveAt(r, b) {
        if d < before.looked {
          assert Scanned(s, before, d) == b;
        }
      }
    }
  }

  lemma {:induction false} PassedDeadThroughout(s0: State, steps: seq<Step>, s: State, h: Hid, b: Bid)
    requires Consistent(s0) && !Scans(s0, h) && Exec(s0, steps) == Some(s) && !Revived(s0, steps, b)
    ensures PassedDead(s, h, b)
  {
    if steps != [] {
      var init, a := steps[..|steps| - 1], steps[|steps| - 1];
      var before := Exec(s0, init).value;
      assert steps == init + [a];
      NotRevivedBefore(s0, init, before, a, b);
      PassedDeadThroughout(s0, init, before, h, b);
      ConsistentThroughout(s0, init, before);
      if ByHandler(a) && a.h == h {
        OwnPassedDead(before, a, b);
      } else {
        OthersPassedDead(before, a, h, b);
      }
    }
  }

  /**
   A handler answers 503 only at a moment when every server of the pool is dead, but for those that were
   revived since the handler began to scan.
   */
  lemma UnavailableMeansAllDead(s0: State, steps: seq<Step>, s: State, h: Hid)
    requires Consistent(s0) && !Scans(s0, h) && Exec(s0, steps) == Some(s) && Enabled(s, GiveUp(h))
    ensures forall b :: b in s.pool && !Revived(s0, steps, b) ==> DeadAt(s, b)
  {
    ConsistentThroughout(s0, steps, s);
    var n, pc := |s.pool|, s.handlers[h].pc;
    assert ScanAt(s, pc);
    forall b | b in s.pool && !Revived(s0, steps, b) ensures DeadAt(s, b) {
      PassedDeadThroughout(s0, steps, s, h, b);
      var i :| 0 <= i < n && s.pool[i] == b;
      var start := RR.Successor(pc.start, n);
      var d := RR.Distance(n, start, i);
      assert i == RR.Shifted(n, start, d);
      assert Scanned(s, pc, d) == b;
    }
  }

  /** Which servers of the pool are alive. */
  ghost function MaskOf(s: State): (mask: RR.Mask)
    ensures |mask| == |s.pool| && forall i :: 0 <= i < |s.pool| ==> (mask[i] <==> AliveAt(s, s.pool[i]))
  {
    seq(|s.pool|, i requires 0 <= i < |s.pool| => AliveAt(s, s.pool[i]))
  }

  lemma PassedInMask(s0: State, steps: seq<Step>, s: State, h: Hid)
    requires Consistent(s0) && !Scans(s0, h) && Exec(s0, steps) == Some(s) && Scans(s, h)
    requires forall b :: b in s.pool ==> !Revived(s0, steps, b)
    ensures ScanAt(s, s.handlers[h].pc)
    ensures forall d: nat :: d < s.handlers[h].pc.looked ==>
              !MaskOf(s)[RR.Shifted(|s.pool|, RR.Successor(s.handlers[h].pc.start, |s.pool|), d)]
  {
    ConsistentThroughout(s0, steps, s);
    var n, pc := |s.pool|, s.handlers[h].pc;
    assert ScanAt(s, pc);
    forall d: nat | d < pc.looked ensures !MaskOf(s)[RR.Shifted(n, RR.Successor(pc.start, n), d)] {
      PassedDeadThroughout(s0, steps, s, h, Scanned(s, pc, d));
    }
  }

  /** The pick of a scan whose passed servers are dead. */
  lemma PickIsNext(s: State, h: Hid)
    requires Scans(s, h) && Enabled(s, Look(h)) && ScanAt(s, s.handlers[h].pc)
    requires Apply(s, Look(h)).handlers[h].pc.Chosen?
    requires forall d: nat :: d < s.handlers[h].pc.looked ==>
               !MaskOf(s)[RR.Shifted(|s.pool|, RR.Successor(s.handlers[h].pc.start, |s.pool|), d)]
    ensures var r := Apply(s, Look(h));
            && RR.Next(MaskOf(s), s.handlers[h].pc.start) == Some(r.current)
            && r.handlers[h].pc.b == s.pool[r.current]
  {
    var pc := s.handlers[h].pc;
    assert RR.Successor(s.current, |s.pool|) == RR.Shifted(|s.pool|, RR.Successor(pc.start, |s.pool|), pc.looked);
    RR.ScanFinds(MaskOf(s), pc.start, pc.looked);
  }

  /** The end of a scan that has found all servers dead. */
  lemma EndIsAround(s: State, h: Hid)
    requires Scans(s, h) && Enabled(s, GiveUp(h)) && ScanAt(s, s.handlers[h].pc)
    requires forall d: nat :: d < s.handlers[h].pc.looked ==>
               !MaskOf(s)[RR.Shifted(|s.pool|, RR.Successor(s.handlers[h].pc.start, |s.pool|), d)]
    ensures RR.Next(MaskOf(s), s.handlers[h].pc.start) == None
    ensures s.current == RR.Pointer(MaskOf(s), s.handlers[h].pc.start)
  {
    var mask, pc := MaskOf(s), s.handlers[h].pc;
    if s.pool != [] {
      RR.ScanEnds(mask, pc.start);
      RR.OutageKeepsTurn(mask, pc.start, mask);
    }
  }

  /**
   A scan, though others change the servers' liveness between its looks, picks what one undisturbed call
   of GetNextPeer would pick at the moment it ends, from the pointer as the scan found it; and if it gives
   up it leaves the pointer where that call would. This holds if no server was revived since it began.
   */
  lemma ScanIsOneCall(s0: State, steps: seq<Step>, s: State, h: Hid)
    requires Consistent(s0) && !Scans(s0, h) && Exec(s0, steps) == Some(s) && Scans(s, h)
    requires forall b :: b in s.pool ==> !Revived(s0, steps, b)
    ensures s.handlers[h].pc.start >= -1
    ensures Enabled(s, Look(h)) && Apply(s, Look(h)).handlers[h].pc.Chosen? ==>
              var r := Apply(s, Look(h));
              && RR.Next(MaskOf(s), s.handlers[h].pc.start) == Some(r.current)
              && r.handlers[h].pc.b == s.pool[r.current]
    ensures Enabled(s, GiveUp(h)) ==>
              && RR.Next(MaskOf(s), s.handlers[h].pc.start) == None
              && s.current == RR.Pointer(MaskOf(s), s.handlers[h].pc.start)
  {
    PassedInMask(s0, steps, s, h);
    if Enabled(s, GiveUp(h)) {
      EndIsAround(s, h);
    } else if Enabled(s, Look(h)) && Apply(s, Look(h)).handlers[h].pc.Chosen? {
      PickIsNext(s, h);
    }
  }

  /** A new server comes last and is dead; a removed one leaves the others and the pointer in place. */
  lemma PoolChanges(s: State, a: Step)
    requires Known(s) && Enabled(s, a) && !ByHandler(a) && !a.SetAlive?
    ensures var r := Apply(s, a);
            && r.current == s.current && r.handlers == s.handlers
            && (a.AddServer? ==>
                  && r.pool == s.pool + [a.b] && MaskOf(r) == MaskOf(s) + [false]
                  && r.backends[a.b] == Backend(a.capacity, 0, false))
            && (a.RemoveServer? ==>
                  && r.backends == s.backends && MaskOf(r) == RR.Removed(MaskOf(s), a.i)
                  && forall j :: 0 <= j < |r.pool| ==> r.pool[j] == s.pool[RR.OldIndex(a.i, j)])
  {
    var r := Apply(s, a);
    if a.AddServer? {
      assert forall j :: 0 <= j < |s.pool| ==> r.backends[s.pool[j]] == s.backends[s.pool[j]];
    }
  }

  // ---------- What a handler answers ----------

  ghost predicate AllFailed(outcomes: seq<Outcome>) {
    forall i :: 0 <= i < |outcomes| ==> outcomes[i] == Failed
  }

  /** All sends before the last one failed, and the reply says how the last one ended. */
  ghost predicate Earned(handler: Handler) {
    var sent, ended := handler.tried, handler.outcomes;
    match handler.pc
    case Sending(_) => |sent| == |ended| + 1 && AllFailed(ended)
    case Returned(b, o) => |sent| == |ended| > 0 && AllFailed(ended[..|ended| - 1]) && ended[|ended| - 1] == o
    case Freed(b, o) => |sent| == |ended| > 0 && AllFailed(ended[..|ended| - 1]) && ended[|ended| - 1] == o
    case Finished(reply) =>
      && |sent| == |ended|
      && (reply == Unavailable ==> AllFailed(ended))
      && (reply != Unavailable ==>
            && |ended| > 0 && AllFailed(ended[..|ended| - 1])
            && ended[|ended| - 1] == if reply == Forwarded then Answered else Cancelled)
    case _ => |sent| == |ended| && AllFailed(ended)
  }

  lemma StepEarned(s: State, a: Step)
    requires Enabled(s, a) && ByHandler(a) && (a.Arrive? || Earned(s.handlers[a.h]))
    ensures Earned(Apply(s, a).handlers[a.h])
  {
    if a.Return? {
      var ended := s.handlers[a.h].outcomes;
      assert (ended + [a.outcome])[..|ended|] == ended;
    } else if a.MarkDead? {
      var ended := s.handlers[a.h].outcomes;
      assert ended == ended[..|ended| - 1] + [Failed];
    }
  }

  /**
   In every interleaving a request is sent on only after a failure; the client gets the response exactly
   if the last send was answered, an error without reply exactly if it was cancelled, and 503 only if
   every send failed.
   */
  lemma {:induction false} ReplyIsEarned(s0: State, steps: seq<Step>, s: State, h: Hid)
    requires h !in s0.handlers && Exec(s0, steps) == Some(s) && h in s.handlers
    ensures Earned(s.handlers[h])
  {
    var init, a := steps[..|steps| - 1], steps[|steps| - 1];
    var before := Exec(s0, init).value;
    if h in before.handlers {
      ReplyIsEarned(s0, init, before, h);
    }
    if ByHandler(a) && a.h == h {
      StepEarned(before, a);
    }
  }

  // ---------- Failover ends ----------

  /** The backends a new request could be sent to. */
  ghost function Live(s: State): set<Bid> {
    set b | b in s.pool && AliveAt(s, b)
  }

  lemma SubsetSmaller<T>(x: set<T>, y: set<T>)
    requires x <= y
    ensures |x| <= |y|
  {
    assert y == x + (y - x);
  }

  /** No step but a revival adds to the live backends; of a handler's own steps only marking dead takes one away. */
  lemma LiveShrinks(s: State, a: Step)
    requires Enabled(s, a) && forall b :: !Revives(s, a, b)
    ensures Live(Apply(s, a)) <= Live(s)
    ensures ByHandler(a) ==> Live(Apply(s, a)) == if a.MarkDead? then Live(s) - {s.handlers[a.h].pc.b} else Live(s)
  {
    assert a.SetAlive? ==> !Revives(s, a, a.b);
  }

  /** The live backends that the request has still to be sent to, at most. */
  ghost function Untried(live: set<Bid>, pc: Pc): nat {
    match pc
    case Choosing(_) => |live|
    case Scanning(_, _, _) => |live|
    case Chosen(_, b) => |live - {b}| + 1
    case Sending(b) => |live - {b}|
    case Returned(b, _) => |live - {b}|
    case Freed(b, _) => |live - {b}|
    case Finished(_) => 0
  }

  lemma FewerUntried(fewer: set<Bid>, live: set<Bid>, pc: Pc)
    requires fewer <= live
    ensures Untried(fewer, pc) <= Untried(live, pc)
  {
    SubsetSmaller(fewer, live);
    if Owns(pc) {
      SubsetSmaller(fewer - {pc.b}, live - {pc.b});
    }
  }

  /** A bound for the steps from one choice to the next when a channel is full: lock, scan, time out. */
  function Attempt(n: nat): nat {
    n + 3
  }

  /** A bound for the steps of one send and of the choices before it. */
  function Turn(n: nat, fulls: nat): nat {
    Attempt(n) * (fulls + 1) + 3
  }

  /** A bound for the steps a handler takes in its present turn. */
  function Present(pc: Pc, n: nat, fulls: nat): int {
    match pc
    case Choosing(f) => Attempt(n) * (fulls - f + 1)
    case Scanning(f, _, looked) => Attempt(n) * (fulls - f + 1) - 1 - looked
    case Chosen(f, _) => Attempt(n) * (fulls - f) + 1
    case Sending(_) => Turn(n, fulls)
    case Returned(_, _) => Turn(n, fulls) - 1
    case Freed(_, _) => Turn(n, fulls) - 2
    case Finished(_) => 0
  }

  /** The number of steps that handler `h` still takes, at most. */
  ghost function Remaining(s: State, h: Hid, n: nat, fulls: nat): int
    requires h in s.handlers
  {
    Turn(n, fulls) * Untried(Live(s), s.handlers[h].pc) + Present(s.handlers[h].pc, n, fulls)
  }

  /** The pool has at most `n` servers and handler `h` meets at most `fulls` full channels in a row. */
  ghost predicate Bounded(s: State, h: Hid, n: nat, fulls: nat) {
    && |s.pool| <= n
    && (h in s.handlers ==>
          match s.handlers[h].pc
          case Choosing(f) => f <= fulls
          case Scanning(f, _, _) => f <= fulls
          case Chosen(f, _) => f <= fulls
          case _ => true)
  }

  /** One attempt more or fewer. */
  lemma Attempts(n: nat, k: nat)
    ensures Attempt(n) * (k + 1) == Attempt(n) * k + Attempt(n) && Attempt(n) * k >= 0
  {
  }

  /** Where a handler's own step leads. */
  ghost predicate Moves(before: Pc, after: Pc, a: Step, live: set<Bid>) {
    match a
    case Lock(_) => before.Choosing? && after.Scanning?
    case Look(_) => before.Scanning? && (after.Scanning? || (after.Chosen? && after.b in live))
    case GiveUp(_) => before.Scanning? && after.Finished?
    case Assign(_) => before.Chosen? && after == Sending(before.b)
    case TimeOut(_) => before.Chosen? && after.Choosing?
    case Return(_, outcome) => before.Sending? && after == Returned(before.b, outcome)
    case Free(_) => before.Returned? && after == Freed(before.b, before.outcome)
    case MarkDead(_) => before.Freed? && after.Choosing?
    case Respond(_) => before.Freed? && after.Finished?
    case _ => false
  }

  lemma OwnStepMoves(s: State, a: Step)
    requires Locked(s) && Enabled(s, a) && ByHandler(a) && !a.Arrive?
    ensures Moves(s.handlers[a.h].pc, Apply(s, a).handlers[a.h].pc, a, Live(s))
  {
  }

  /** A handler's own step leaves no more backends to be tried, and a send leaves one fewer. */
  lemma MoveUntried(before: Pc, after: Pc, a: Step, live: set<Bid>, now: set<Bid>)
    requires Moves(before, after, a, live) && now == if a.MarkDead? then live - {before.b} else live
    ensures Untried(now, after) + (if a.Assign? then 1 else 0) <= Untried(live, before)
  {
  }

  /** It brings the present turn nearer to its end, except that a send begins the turn's last part. */
  lemma OwnStepPresent(s: State, a: Step, n: nat, fulls: nat)
    requires Locked(s) && Enabled(s, a) && ByHandler(a) && !a.Arrive?
    requires Bounded(s, a.h, n, fulls) && Bounded(Apply(s, a), a.h, n, fulls)
    ensures Present(Apply(s, a).handlers[a.h].pc, n, fulls)
          < Present(s.handlers[a.h].pc, n, fulls) + if a.Assign? then Turn(n, fulls) else 0
  {
    var pc := s.handlers[a.h].pc;
    Attempts(n, fulls);
    if pc.Scanning? {
      assert ScanAt(s, pc);
      Attempts(n, fulls - pc.fulls);
    } else if pc.Chosen? {
      Attempts(n, fulls - pc.fulls);
    }
  }

  lemma LessRemains(turn: nat, left0: nat, now0: int, left1: nat, now1: int, send: bool)
    requires left1 + (if send then 1 else 0) <= left0
    requires now1 < now0 + if send then turn else 0
    ensures turn * left1 + now1 < turn * left0 + now0
  {
    var sends := if send then 1 else 0;
    Tally.Times(turn, left1 + sends, left0);
    Tally.Distribute(turn, left1, sends);
  }

  /** Every step of the handler lowers what remains. */
  lemma OwnStepRemaining(s: State, a: Step, n: nat, fulls: nat)
    requires Locked(s) && Enabled(s, a) && ByHandler(a) && !a.Arrive?
    requires Bounded(s, a.h, n, fulls) && Bounded(Apply(s, a), a.h, n, fulls)
    ensures Remaining(Apply(s, a), a.h, n, fulls) < Remaining(s, a.h, n, fulls)
  {
    var r := Apply(s, a);
    var before, after := s.handlers[a.h].pc, r.handlers[a.h].pc;
    OwnStepMoves(s, a);
    LiveShrinks(s, a);
    MoveUntried(before, after, a, Live(s), Live(r));
    OwnStepPresent(s, a, n, fulls);
    LessRemains(Turn(n, fulls), Untried(Live(s), before), Present(before, n, fulls),
                Untried(Live(r), after), Present(after, n, fulls), a.Assign?);
  }

  /** A step of anything else does not raise it, unless it is a revival. */
  lemma OthersRemaining(s: State, a: Step, h: Hid, n: nat, fulls: nat)
    requires h in s.handlers && Enabled(s, a) && !(ByHandler(a) && a.h == h) && forall b :: !Revives(s, a, b)
    ensures h in Apply(s, a).handlers && Remaining(Apply(s, a), h, n, fulls) <= Remaining(s, h, n, fulls)
  {
    var r, pc := Apply(s, a), s.handlers[h].pc;
    LiveShrinks(s, a);
    FewerUntried(Live(r), Live(s), pc);
    Tally.Times(Turn(n, fulls), Untried(Live(r), pc), Untried(Live(s), pc));
  }

  lemma RemainingNonNegative(s: State, h: Hid, n: nat, fulls: nat)
    requires Locked(s) && h in s.handlers && Bounded(s, h, n, fulls)
    ensures Remaining(s, h, n, fulls) >= 0
  {
    var pc := s.handlers[h].pc;
    Attempts(n, fulls);
    Tally.Times(Turn(n, fulls), 0, Untried(Live(s), pc));
    if pc.Scanning? {
      assert ScanAt(s, pc);
    }
    if pc.Choosing? || pc.Scanning? || pc.Chosen? {
      Attempts(n, fulls - pc.fulls);
    }
  }

  lemma RemainingAtArrival(s: State, h: Hid, n: nat, fulls: nat)
    requires h in s.handlers && s.handlers[h].pc == Choosing(0)
    ensures Remaining(s, h, n, fulls) == Turn(n, fulls) * |Live(s)| + Attempt(n) * (fulls + 1)
  {
  }

  /** How many of the steps are those of handler `h`. */
  function Own(steps: seq<Step>, h: Hid): nat {
    if steps == [] then 0
    else
      var a := steps[|steps| - 1];
      Own(steps[..|steps| - 1], h) + if ByHandler(a) && a.h == h then 1 else 0
  }

  ghost predicate BoundedThroughout(s0: State, steps: seq<Step>, h: Hid, n: nat, fulls: nat) {
    forall i :: 0 <= i <= |steps| && Exec(s0, steps[..i]).Some? ==>
      Bounded(Exec(s0, steps[..i]).value, h, n, fulls)
  }

  lemma BoundedBefore(s0: State, init: seq<Step>, a: Step, h: Hid, n: nat, fulls: nat)
    requires Exec(s0, init + [a]).Some? && BoundedThroughout(s0, init + [a], h, n, fulls)
    ensures BoundedThroughout(s0, init, h, n, fulls) && Exec(s0, init).Some?
    ensures Bounded(Exec(s0, init).value, h, n, fulls) && Bounded(Exec(s0, init + [a]).value, h, n, fulls)
  {
    var steps := init + [a];
    assert steps[..|steps|] == steps && steps[..|init|] == init;
    assert forall i :: 0 <= i <= |init| ==> init[..i] == steps[..i];
  }

  lemma {:induction false} StepsAreBounded(s0: State, steps: seq<Step>, s: State, h: Hid, n: nat, fulls: nat)
    requires Locked(s0) && h in s0.handlers && Exec(s0, steps) == Some(s)
    requires BoundedThroughout(s0, steps, h, n, fulls) && forall b :: !Revived(s0, steps, b)
    ensures Locked(s) && h in s.handlers
    ensures Own(steps, h) + Remaining(s, h, n, fulls) <= Remaining(s0, h, n, fulls)
  {
    if steps != [] {
      var init, a := steps[..|steps| - 1], steps[|steps| - 1];
      assert steps == init + [a];
      BoundedBefore(s0, init, a, h, n, fulls);
      var before := Exec(s0, init).value;
      NothingRevivedBefore(s0, init, before, a);
      StepsAreBounded(s0, init, before, h, n, fulls);
      StepLocked(before, a);
      if ByHandler(a) && a.h == h {
        OwnStepRemaining(before, a, n, fulls);
      } else {
        OthersRemaining(before, a, h, n, fulls);
      }
    }
  }

  /**
   Failover ends: from the arrival of a request, with no dead backend revived, at most `n` servers in the pool and at
   most `fulls` full channels in a row, its handler takes at most as many steps as one turn for every
   live backend and a last scan need, whatever other handlers, health checks and pool changes do.
   */
  lemma FailoverEnds(s0: State, steps: seq<Step>, s: State, h: Hid, n: nat, fulls: nat)
    requires Locked(s0) && h in s0.handlers && s0.handlers[h].pc == Choosing(0) && Exec(s0, steps) == Some(s)
    requires BoundedThroughout(s0, steps, h, n, fulls) && forall b :: !Revived(s0, steps, b)
    ensures Own(steps, h) <= Turn(n, fulls) * |Live(s0)| + Attempt(n) * (fulls + 1)
  {
    StepsAreBounded(s0, steps, s, h, n, fulls);
    assert Bounded(s, h, n, fulls) by {
      assert steps[..|steps|] == steps;
    }
    RemainingNonNegative(s, h, n, fulls);
    RemainingAtArrival(s0, h, n, fulls);
  }

  lemma StepTried(s: State, a: Step, h: Hid)
    requires Enabled(s, a) && h in s.handlers
    ensures h in Apply(s, a).handlers
    ensures !(ByHandler(a) && a.h == h) ==> Apply(s, a).handlers[h] == s.handlers[h]
    ensures ByHandler(a) && a.h == h ==>
              |Apply(s, a).handlers[h].tried| == |s.handlers[h].tried| + if a.Assign? then 1 else 0
  {
  }

  /** With the number of live backends as measure: no more sends than backends were alive at the arrival. */
  lemma {:induction false} SendsAreBounded(s0: State, steps: seq<Step>, s: State, h: Hid)
    requires Locked(s0) && h in s0.handlers && s0.handlers[h] == Handler(Choosing(0), [], [])
    requires Exec(s0, steps) == Some(s)
    requires forall b :: !Revived(s0, steps, b)
    ensures Locked(s) && h in s.handlers && |s.handlers[h].tried| + Untried(Live(s), s.handlers[h].pc) <= |Live(s0)|
  {
    if steps != [] {
      var init, a := steps[..|steps| - 1], steps[|steps| - 1];
      var before := Exec(s0, init).value;
      assert steps == init + [a];
      NothingRevivedBefore(s0, init, before, a);
      SendsAreBounded(s0, init, before, h);
      StepLocked(before, a);
      StepTried(before, a, h);
      LiveShrinks(before, a);
      if ByHandler(a) && a.h == h {
        OwnStepMoves(before, a);
        MoveUntried(before.handlers[h].pc, s.handlers[h].pc, a, Live(before), Live(s));
      } else {
        FewerUntried(Live(s), Live(before), s.handlers[h].pc);
      }
    }
  }

  // ---------- What a health check can do to a scan ----------

  lemma ExecMore(s0: State, steps: seq<Step>, s: State, a: Step)
    requires Exec(s0, steps) == Some(s) && Enabled(s, a)
    ensures Exec(s0, steps + [a]) == Some(Apply(s, a))
  {
    assert (steps + [a])[..|steps|] == steps;
  }

  /** A run goes on with one step. */
  lemma More(s0: State, steps: seq<Step>, s: State, a: Step) returns (more: seq<Step>, r: State)
    requires Exec(s0, steps) == Some(s) && Enabled(s, a)
    ensures Exec(s0, more) == Some(r) && r == Apply(s, a)
  {
    ExecMore(s0, steps, s, a);
    more, r := steps + [a], Apply(s, a);
  }

  /** At every moment of the run some server of the pool is alive. */
  ghost predicate SomeLiveThroughout(s0: State, steps: seq<Step>) {
    forall i :: 0 <= i <= |steps| && Exec(s0, steps[..i]).Some? ==> Live(Exec(s0, steps[..i]).value) != {}
  }

  /** One more step that leaves the backend `b` of the pool alive. */
  lemma OneMore(s0: State, steps: seq<Step>, s: State, a: Step, b: Bid)
    requires Exec(s0, steps) == Some(s) && SomeLiveThroughout(s0, steps)
    requires Enabled(s, a) && b in Apply(s, a).pool && AliveAt(Apply(s, a), b)
    ensures Exec(s0, steps + [a]) == Some(Apply(s, a)) && SomeLiveThroughout(s0, steps + [a])
  {
    ExecMore(s0, steps, s, a);
    var more := steps + [a];
    forall i | 0 <= i <= |more| && Exec(s0, more[..i]).Some? ensures Live(Exec(s0, more[..i]).value) != {} {
      if i <= |steps| {
        assert more[..i] == steps[..i];
      } else {
        assert more[..i] == more && b in Live(Apply(s, a));
      }
    }
  }

  /** A run that has not begun. */
  lemma StartLive(s: State, b: Bid) returns (steps: seq<Step>, r: State)
    requires b in s.pool && AliveAt(s, b)
    ensures Exec(s, steps) == Some(r) && r == s && SomeLiveThroughout(s, steps)
  {
    steps, r := [], s;
    assert b in Live(s) && forall i :: 0 <= i <= |steps| ==> steps[..i] == [];
  }

  /** A new handler takes the lock. */
  lemma ScanBegun(s: State, h: Hid, y: Bid) returns (steps: seq<Step>, r: State)
    requires y in s.pool && AliveAt(s, y) && s.scanner == None && h !in s.handlers
    ensures Exec(s, steps) == Some(r) && SomeLiveThroughout(s, steps)
    ensures r == s.(scanner := Some(h), handlers := s.handlers[h := Handler(Scanning(0, s.current, 0), [], [])])
  {
    steps, r := StartLive(s, y);
    OneMore(s, steps, r, Arrive(h), y);
    steps, r := steps + [Arrive(h)], Apply(r, Arrive(h));
    OneMore(s, steps, r, Lock(h), y);
    steps, r := steps + [Lock(h)], Apply(r, Lock(h));
  }

  /** A new handler looks at the first server of two, `x`, and finds it dead. */
  lemma FirstLook(s: State, h: Hid, x: Bid, y: Bid) returns (steps: seq<Step>, r: State)
    requires s.pool == [x, y] && x in s.backends && y in s.backends && s.scanner == None
    requires s.current == -1 && !s.backends[x].alive && s.backends[y].alive && h !in s.handlers
    ensures Exec(s, steps) == Some(r) && SomeLiveThroughout(s, steps)
    ensures r == s.(current := 0, scanner := Some(h), handlers := s.handlers[h := Handler(Scanning(0, -1, 1), [], [])])
  {
    steps, r := ScanBegun(s, h, y);
    OneMore(s, steps, r, Look(h), y);
    steps, r := steps + [Look(h)], Apply(r, Look(h));
  }

  /** A health check revives `x`, another one finds `y` dead. */
  lemma ChecksSwap(s0: State, before: seq<Step>, s: State, x: Bid, y: Bid) returns (steps: seq<Step>, r: State)
    requires Exec(s0, before) == Some(s) && SomeLiveThroughout(s0, before)
    requires x != y && x in s.backends && y in s.backends && x in s.pool
    ensures Exec(s0, steps) == Some(r) && SomeLiveThroughout(s0, steps)
    ensures r == s.(backends := s.backends[x := s.backends[x].(alive := true)][y := s.backends[y].(alive := false)])
  {
    steps, r := before, s;
    OneMore(s0, steps, r, SetAlive(x, true), x);
    steps, r := steps + [SetAlive(x, true)], Apply(r, SetAlive(x, true));
    OneMore(s0, steps, r, SetAlive(y, false), x);
    steps, r := steps + [SetAlive(y, false)], Apply(r, SetAlive(y, false));
  }

  /** The handler looks at the second server, finds it dead and gives up. */
  lemma LastLook(s0: State, before: seq<Step>, s: State, h: Hid, x: Bid, y: Bid) returns (steps: seq<Step>, r: State)
    requires Exec(s0, before) == Some(s) && SomeLiveThroughout(s0, before)
    requires s.pool == [x, y] && AliveAt(s, x) && y in s.backends && !s.backends[y].alive && s.current == 0
    requires h in s.handlers && s.handlers[h] == Handler(Scanning(0, -1, 1), [], [])
    ensures Exec(s0, steps) == Some(r) && SomeLiveThroughout(s0, steps)
    ensures h in r.handlers && r.handlers[h] == Handler(Finished(Unavailable), [], [])
  {
    steps, r := before, s;
    OneMore(s0, steps, r, Look(h), x);
    steps, r := steps + [Look(h)], Apply(r, Look(h));
    OneMore(s0, steps, r, GiveUp(h), x);
    steps, r := steps + [GiveUp(h)], Apply(r, GiveUp(h));
  }

  /**
   With a revival a handler can answer 503 although at every moment some server of the pool is alive: the
   health checks revive the first server after the scan has passed it and find the second one dead before
   the scan reaches it.
   */
  lemma UnavailableThoughLive(s: State, h: Hid, x: Bid, y: Bid) returns (steps: seq<Step>, r: State)
    requires s.pool == [x, y] && x != y && x in s.backends && y in s.backends && s.scanner == None
    requires s.current == -1 && !s.backends[x].alive && s.backends[y].alive && h !in s.handlers
    ensures Exec(s, steps) == Some(r) && SomeLiveThroughout(s, steps)
    ensures h in r.handlers && r.handlers[h] == Handler(Finished(Unavailable), [], [])
  {
    steps, r := FirstLook(s, h, x, y);
    steps, r := ChecksSwap(s, steps, r, x, y);
    steps, r := LastLook(s, steps, r, h, x, y);
  }

  /** A run goes on with the choice of `x`, the only server of the pool. */
  lemma OnlyChoice(s0: State, before: seq<Step>, s: State, h: Hid, x: Bid, tried: seq<Bid>, ended: seq<Outcome>)
    returns (steps: seq<Step>, r: State)
    requires Exec(s0, before) == Some(s)
    requires s.pool == [x] && AliveAt(s, x) && s.scanner == None && s.current in {-1, 0}
    requires h in s.handlers && s.handlers[h] == Handler(Choosing(0), tried, ended)
    ensures Exec(s0, steps) == Some(r)
    ensures r == s.(current := 0, handlers := s.handlers[h := Handler(Chosen(0, x), tried, ended)])
  {
    steps, r := before, s;
    steps, r := More(s0, steps, r, Lock(h));
    steps, r := More(s0, steps, r, Look(h));
  }

  /** And with the assignment of a slot. */
  lemma Dispatched(s0: State, before: seq<Step>, s: State, h: Hid, x: Bid, tried: seq<Bid>, ended: seq<Outcome>)
    returns (steps: seq<Step>, r: State)
    requires Exec(s0, before) == Some(s)
    requires s.pool == [x] && x in s.backends && s.scanner == None && s.current in {-1, 0}
    requires s.backends[x].alive && s.backends[x].occupancy < s.backends[x].capacity
    requires h in s.handlers && s.handlers[h] == Handler(Choosing(0), tried, ended)
    ensures Exec(s0, steps) == Some(r)
    ensures r == s.(current := 0,
                    backends := s.backends[x := s.backends[x].(occupancy := s.backends[x].occupancy + 1)],
                    handlers := s.handlers[h := Handler(Sending(x), tried + [x], ended)])
  {
    steps, r := OnlyChoice(s0, before, s, h, x, tried, ended);
    steps, r := More(s0, steps, r, Assign(h));
  }

  /** A run goes on with the failure of a send. */
  lemma FailedSend(s0: State, before: seq<Step>, s: State, h: Hid, x: Bid, tried: seq<Bid>, ended: seq<Outcome>)
    returns (steps: seq<Step>, r: State)
    requires Exec(s0, before) == Some(s) && x in s.backends && s.backends[x].occupancy > 0
    requires h in s.handlers && s.handlers[h] == Handler(Sending(x), tried, ended)
    ensures Exec(s0, steps) == Some(r)
    ensures r == s.(backends := s.backends[x := Backend(s.backends[x].capacity, s.backends[x].occupancy - 1, false)],
                    handlers := s.handlers[h := Handler(Choosing(0), tried, ended + [Failed])])
  {
    steps, r := before, s;
    steps, r := More(s0, steps, r, Return(h, Failed));
    steps, r := More(s0, steps, r, Free(h));
    steps, r := More(s0, steps, r, MarkDead(h));
  }

  /** With a revival between two turns the same backend gets the request twice. */
  lemma RevivedGetsItTwice(s: State, h: Hid, x: Bid) returns (steps: seq<Step>, r: State)
    requires s.pool == [x] && x in s.backends && s.scanner == None && s.current in {-1, 0}
    requires s.backends[x].alive && s.backends[x].occupancy < s.backends[x].capacity
    requires h in s.handlers && s.handlers[h] == Handler(Choosing(0), [], [])
    ensures Exec(s, steps) == Some(r) && h in r.handlers && r.handlers[h].tried == [x, x]
  {
    steps, r := Dispatched(s, [], s, h, x, [], []);
    steps, r := FailedSend(s, steps, r, h, x, [x], []);
    steps, r := More(s, steps, r, SetAlive(x, true));
    steps, r := Dispatched(s, steps, r, h, x, [x], [Failed]);
  }
}
