/**
 The cache under concurrency. Inserts run in goroutines of their own next to removals and lookups; each
 bolt transaction, each atomic addition to the counter and each access to a page file is one step, and
 the steps of different goroutines interleave freely.
 */
module CacheInterleaving {
  import opened PageTree
  import opened Wrappers
  import Tally

  type Tid = nat

  datatype Entry = Entry(size: nat, uses: nat)

  /** What a goroutine will do next. */
  datatype Pc =
    | Checked(k: Key, size: nat)              // insert: the capacity test has passed
    | Created(k: Key, size: nat)              // insert: a new bucket is committed, not yet counted
    | Writing(k: Key)                         // insert: the page file is written next
    | Deleting(k: Key, page: bool)            // the bucket is deleted next, then the page file if `page`
    | Deleted(k: Key, size: nat, page: bool)  // the bucket is deleted, the counter not yet lowered
    | Unlinking(k: Key)                       // the page file is removed next
    | Viewed(k: Key)                          // lookup: the metadata is read, the use not yet counted
    | Used(k: Key)                            // lookup: the page is tested for freshness, then read
    | Crashed                                 // lookup: the bucket to count the use in is nil

  datatype State = State(db: map<Key, Entry>, files: set<Key>, size: int, maxFileSize: int, threads: map<Tid, Pc>)

  datatype Step =
    | BeginInsert(t: Tid, k: Key, bytes: nat)
    | Reject(t: Tid)                     // the directives forbid storing, or the commit fails
    | Commit(t: Tid)
    | Count(t: Tid)
    | WriteOk(t: Tid)
    | WriteFail(t: Tid, torn: bool)    // with or without the file truncated
    | BeginRemove(t: Tid, k: Key)
    | Delete(t: Tid)
    | Uncount(t: Tid)
    | Unlink(t: Tid)
    | BeginLookup(t: Tid, k: Key)
    | Use(t: Tid)
    | Stale(t: Tid)
    | Read(t: Tid)

  predicate Enabled(s: State, a: Step) {
    match a
    case BeginInsert(t, _, _) => t !in s.threads
    case BeginRemove(t, _) => t !in s.threads
    case BeginLookup(t, _) => t !in s.threads
    case Reject(t) => t in s.threads && s.threads[t].Checked?
    case Commit(t) => t in s.threads && s.threads[t].Checked?
    case Count(t) => t in s.threads && s.threads[t].Created?
    case WriteOk(t) => t in s.threads && s.threads[t].Writing?
    case WriteFail(t, _) => t in s.threads && s.threads[t].Writing?
    case Delete(t) => t in s.threads && s.threads[t].Deleting?
    case Uncount(t) => t in s.threads && s.threads[t].Deleted?
    case Unlink(t) => t in s.threads && s.threads[t].Unlinking?
    case Use(t) => t in s.threads && s.threads[t].Viewed?
    case Stale(t) => t in s.threads && s.threads[t].Used?
    case Read(t) => t in s.threads && s.threads[t].Used?
  }

  function Goto(s: State, t: Tid, pc: Pc): State {
    s.(threads := s.threads[t := pc])
  }

  function Done(s: State, t: Tid): State {
    s.(threads := s.threads - {t})
  }

  function Apply(s: State, a: Step): State
    requires Enabled(s, a)
  {
    match a
    case BeginInsert(t, k, bytes) =>
      if s.size + bytes > s.maxFileSize then s else Goto(s, t, Checked(k, bytes))
    case Reject(t) => Done(s, t)
    case Commit(t) =>
      var pc := s.threads[t];
      if pc.k in s.db then Goto(s, t, Writing(pc.k)) // the transaction is rolled back
      else Goto(s.(db := s.db[pc.k := Entry(pc.size, 0)]), t, Created(pc.k, pc.size))
    case Count(t) =>
      var pc := s.threads[t];
      Goto(s.(size := s.size + pc.size), t, Writing(pc.k))
    case WriteOk(t) => Done(s.(files := s.files + {s.threads[t].k}), t)
    case WriteFail(t, torn) =>
      var k := s.threads[t].k;
      Goto(s.(files := if torn then s.files + {k} else s.files), t, Deleting(k, false))
    case BeginRemove(t, k) => Goto(s, t, Deleting(k, true))
    case Delete(t) =>
      var pc := s.threads[t];
      if pc.k !in s.db then Done(s, t)
      else Goto(s.(db := s.db - {pc.k}), t, Deleted(pc.k, s.db[pc.k].size, pc.page))
    case Uncount(t) =>
      var pc := s.threads[t];
      var lowered := s.(size := s.size - pc.size);
      if pc.page then Goto(lowered, t, Unlinking(pc.k)) else Done(lowered, t)
    case Unlink(t) => Done(s.(files := s.files - {s.threads[t].k}), t)
    case BeginLookup(t, k) => if k in s.db then Goto(s, t, Viewed(k)) else s
    case Use(t) =>
      var k := s.threads[t].k;
      if k in s.db then
        Goto(s.(db := s.db[k := Entry(s.db[k].size, (s.db[k].uses + 1) % 0x1_0000_0000)]), t, Used(k))
      else Goto(s, t, Crashed)
    case Stale(t) => Done(s, t)
    case Read(t) =>
      var k := s.threads[t].k;
      if k in s.files then Done(s, t) else Goto(s, t, Deleting(k, false))
  }

  /** The state after a sequence of steps, if each is enabled in its turn. */
  function Exec(s: State, steps: seq<Step>): Option<State> {
    if steps == [] then Some(s)
    else
      match Exec(s, steps[..|steps| - 1])
      case None => None
      case Some(m) =>
        var a := steps[|steps| - 1];
        if Enabled(m, a) then Some(Apply(m, a)) else None
  }

  // ---------- Accounting ----------

  /** Bytes committed to the database but not yet counted, negative for bytes deleted but still counted. */
  function Pending(pc: Pc): int {
    match pc
    case Created(_, size) => size
    case Deleted(_, size, _) => 0 - size as int
    case _ => 0
  }

  /** Bytes admitted by the capacity test but not yet counted. */
  function Admitted(pc: Pc): int {
    if pc.Checked? || pc.Created? then pc.size else 0
  }

  function InWindow(pc: Pc): int {
    if pc.Checked? || pc.Created? then 1 else 0
  }

  ghost function Weights(threads: map<Tid, Pc>, f: Pc -> int): map<Tid, int> {
    map t | t in threads :: f(threads[t])
  }

  ghost function Weigh(s: State, f: Pc -> int): int {
    Tally.Sum(Weights(s.threads, f))
  }

  ghost function Sizes(db: map<Key, Entry>): map<Key, int> {
    map k | k in db :: db[k].size
  }

  ghost function Stored(db: map<Key, Entry>): int {
    Tally.Sum(Sizes(db))
  }

  lemma WeighGoto(s: State, t: Tid, pc: Pc, f: Pc -> int)
    ensures Weigh(Goto(s, t, pc), f) == Weigh(s, f) + f(pc) - if t in s.threads then f(s.threads[t]) else 0
  {
    Tally.SumPut(Weights(s.threads, f), t, f(pc));
    assert Weights(s.threads[t := pc], f) == Weights(s.threads, f)[t := f(pc)];
  }

  lemma WeighDone(s: State, t: Tid, f: Pc -> int)
    requires t in s.threads
    ensures Weigh(Done(s, t), f) == Weigh(s, f) - f(s.threads[t])
  {
    Tally.SumSplit(Weights(s.threads, f), t);
    assert Weights(s.threads - {t}, f) == Weights(s.threads, f) - {t};
  }

  lemma StoredPut(db: map<Key, Entry>, k: Key, e: Entry)
    ensures Stored(db[k := e]) == Stored(db) + e.size - if k in db then db[k].size else 0
  {
    Tally.SumPut(Sizes(db), k, e.size);
    assert Sizes(db[k := e]) == Sizes(db)[k := e.size];
  }

  lemma StoredDrop(db: map<Key, Entry>, k: Key)
    requires k in db
    ensures Stored(db - {k}) == Stored(db) - db[k].size
  {
    Tally.SumSplit(Sizes(db), k);
    assert Sizes(db - {k}) == Sizes(db) - {k};
  }

  /** The counter plus what is still to be counted is the sum of the sizes in the database. */
  ghost predicate Accounted(s: State) {
    s.size + Weigh(s, Pending) == Stored(s.db)
  }

  /** What a step does to the weight of the goroutines: the change is that of the goroutine it moves. */
  lemma StepWeight(s: State, a: Step, f: Pc -> int)
    requires Enabled(s, a)
    ensures var r := Apply(s, a);
            Weigh(r, f) == Weigh(s, f) + (if a.t in r.threads then f(r.threads[a.t]) else 0)
                                       - (if a.t in s.threads then f(s.threads[a.t]) else 0)
  {
    var r := Apply(s, a);
    if a.t in r.threads {
      WeighGoto(s, a.t, r.threads[a.t], f);
      assert s.threads[a.t := r.threads[a.t]] == r.threads;
    } else if a.t in s.threads {
      WeighDone(s, a.t, f);
    }
  }

  lemma StepAccounted(s: State, a: Step)
    requires Accounted(s) && Enabled(s, a)
    ensures Accounted(Apply(s, a))
  {
    StepWeight(s, a, Pending);
    match a
    case Commit(t) => StoredPut(s.db, s.threads[t].k, Entry(s.threads[t].size, 0));
    case Delete(t) =>
      if s.threads[t].k in s.db {
        StoredDrop(s.db, s.threads[t].k);
      }
    case Use(t) =>
      var k := s.threads[t].k;
      if k in s.db {
        StoredPut(s.db, k, Entry(s.db[k].size, (s.db[k].uses + 1) % 0x1_0000_0000));
      }
    case _ =>
  }

  predicate Quiet(s: State) {
    forall t :: t in s.threads ==> s.threads[t].Crashed?
  }

  /**
   In every interleaving the counter plus the committed but uncounted additions minus the committed but
   uncounted removals is the sum of the sizes in the database; with no operation in flight, the counter
   is exactly that sum.
   */
  lemma {:induction false} CounterIsAccounted(s0: State, steps: seq<Step>, s: State)
    requires Accounted(s0) && Exec(s0, steps) == Some(s)
    ensures Accounted(s)
    ensures Quiet(s) ==> s.size == Stored(s.db)
  {
    if steps != [] {
      var init := steps[..|steps| - 1];
      CounterIsAccounted(s0, init, Exec(s0, init).value);
      StepAccounted(Exec(s0, init).value, steps[|steps| - 1]);
    }
    if Quiet(s) {
      Tally.SumZero(Weights(s.threads, Pending));
    }
  }

  // ---------- Capacity ----------

  /** At most `n` inserts are between their test and their count, with bodies of at most `m` bytes. */
  ghost predicate Window(s: State, n: nat, m: nat) {
    Weigh(s, InWindow) <= n && forall t :: t in s.threads ==> Admitted(s.threads[t]) <= m
  }

  ghost predicate WindowThroughout(s0: State, steps: seq<Step>, n: nat, m: nat) {
    forall i :: 0 <= i <= |steps| && Exec(s0, steps[..i]).Some? ==> Window(Exec(s0, steps[..i]).value, n, m)
  }

  /** `slack` is how far beyond maxFileSize the counter and the admitted bytes may go together. */
  ghost predicate WithinBound(s: State, slack: int) {
    s.size + Weigh(s, Admitted) <= s.maxFileSize + slack
  }

  /** Admitted bytes are bounded by the number of inserts that have been admitted. */
  lemma AdmittedBound(s: State, n: nat, m: nat)
    requires forall t :: t in s.threads ==> Admitted(s.threads[t]) <= m
    requires Weigh(s, InWindow) <= n
    ensures Weigh(s, Admitted) <= m * n
  {
    Tally.SumBound(Weights(s.threads, Admitted), Weights(s.threads, InWindow), m);
    Tally.Times(m, Weigh(s, InWindow), n);
  }

  lemma StepWithinBound(s: State, a: Step, n: nat, m: nat, slack: int)
    requires n >= 1 && slack == m * (n - 1) && WithinBound(s, slack) && Window(s, n, m)
    requires Enabled(s, a) && Window(Apply(s, a), n, m)
    ensures WithinBound(Apply(s, a), slack)
  {
    StepWeight(s, a, Admitted);
    if a.BeginInsert? && s.size + a.bytes <= s.maxFileSize {
      StepWeight(s, a, InWindow);
      AdmittedBound(s, n - 1, m);
    }
  }

  /** Committed bytes are admitted bytes. */
  lemma PendingAdmitted(s: State)
    ensures Weigh(s, Pending) <= Weigh(s, Admitted)
  {
    Tally.SumBound(Weights(s.threads, Pending), Weights(s.threads, Admitted), 1);
  }

  /**
   With at most `n` inserts between test and count and bodies of at most `m` bytes, neither the counter
   with the admitted bytes nor the bytes in the database ever exceed maxFileSize + (n - 1) * m; with one
   insert at a time they never exceed maxFileSize.
   */
  lemma {:induction false} CapacityBound(s0: State, steps: seq<Step>, s: State, n: nat, m: nat)
    requires n >= 1 && Accounted(s0) && s0.threads == map[] && s0.size <= s0.maxFileSize
    requires Exec(s0, steps) == Some(s) && WindowThroughout(s0, steps, n, m)
    ensures s.maxFileSize == s0.maxFileSize
    ensures s.size + Weigh(s, Admitted) <= s.maxFileSize + m * (n - 1)
    ensures Stored(s.db) <= s.maxFileSize + m * (n - 1)
  {
    assert steps[..|steps|] == steps;
    var slack := m * (n - 1);
    if steps == [] {
      Tally.SumZero(Weights(s.threads, Admitted));
      Tally.Times(m, 0, n - 1);
    } else {
      var init, a := steps[..|steps| - 1], steps[|steps| - 1];
      var before := Exec(s0, init).value;
      assert forall i :: 0 <= i <= |init| ==> init[..i] == steps[..i];
      CapacityBound(s0, init, before, n, m);
      assert Window(before, n, m);
      StepWithinBound(before, a, n, m, slack);
    }
    CounterIsAccounted(s0, steps, s);
    PendingAdmitted(s);
  }

  lemma AdmittedNonNegative(s: State)
    ensures Weigh(s, Admitted) >= 0
  {
    Tally.SumNonNegative(Weights(s.threads, Admitted));
  }

  /** One insert at a time never takes the counter beyond maxFileSize. */
  lemma OneAtATime(s0: State, steps: seq<Step>, s: State, m: nat)
    requires Accounted(s0) && s0.threads == map[] && s0.size <= s0.maxFileSize
    requires Exec(s0, steps) == Some(s) && WindowThroughout(s0, steps, 1, m)
    ensures s.size <= s.maxFileSize && Stored(s.db) <= s.maxFileSize
  {
    CapacityBound(s0, steps, s, 1, m);
    AdmittedNonNegative(s);
  }

  // ---------- The bound is reached ----------

  lemma ExecMore(s0: State, steps: seq<Step>, s: State, a: Step)
    requires Exec(s0, steps) == Some(s) && Enabled(s, a)
    ensures Exec(s0, steps + [a]) == Some(Apply(s, a))
  {
    assert (steps + [a])[..|steps|] == steps;
  }

  /** A run that has not begun. */
  lemma NotBegun(s: State) returns (steps: seq<Step>, r: State)
    ensures Exec(s, steps) == Some(r) && r == s
    ensures forall a :: a !in steps
  {
    steps, r := [], s;
  }

  /** A run goes on with one step. */
  lemma More(s0: State, steps: seq<Step>, s: State, a: Step) returns (more: seq<Step>, r: State)
    requires Exec(s0, steps) == Some(s) && Enabled(s, a)
    ensures Exec(s0, more) == Some(r) && r == Apply(s, a)
    ensures forall b :: b in more <==> b in steps || b == a
  {
    ExecMore(s0, steps, s, a);
    more, r := steps + [a], Apply(s, a);
  }

  /** `m` added `i` times. */
  function Repeated(m: nat, i: nat): nat {
    if i == 0 then 0 else Repeated(m, i - 1) + m
  }

  lemma {:induction false} RepeatedIsProduct(m: nat, i: nat)
    ensures Repeated(m, i) == m * i
  {
    if i > 0 {
      RepeatedIsProduct(m, i - 1);
    }
  }

  /** One more step whose outcome respects the window. */
  lemma OneMore(s0: State, steps: seq<Step>, s: State, a: Step, n: nat, m: nat)
    requires Exec(s0, steps) == Some(s) && WindowThroughout(s0, steps, n, m)
    requires Enabled(s, a) && Window(Apply(s, a), n, m)
    ensures Exec(s0, steps + [a]) == Some(Apply(s, a)) && WindowThroughout(s0, steps + [a], n, m)
  {
    ExecMore(s0, steps, s, a);
    var more := steps + [a];
    forall i | 0 <= i <= |more| && Exec(s0, more[..i]).Some? ensures Window(Exec(s0, more[..i]).value, n, m) {
      if i <= |steps| {
        assert more[..i] == steps[..i];
      } else {
        assert more[..i] == more;
      }
    }
  }

  /** The goroutines 0 to `i` - 1 have passed the test, each for a key of its own. */
  ghost function Passed(names: seq<Key>, i: nat, m: nat): map<Tid, Pc>
    requires i <= |names|
  {
    map t: nat | t < i :: Checked(names[t], m)
  }

  lemma OnePasses(b: State, s0: State, names: seq<Key>, i: nat, m: nat) returns (s: State)
    requires i < |names| && b == s0.(threads := Passed(names, i, m)) && Weigh(b, InWindow) == i
    requires s0.size + m <= s0.maxFileSize
    ensures s == Apply(b, BeginInsert(i, names[i], m)) == s0.(threads := Passed(names, i + 1, m))
    ensures Weigh(s, InWindow) == i + 1
  {
    s := Apply(b, BeginInsert(i, names[i], m));
    StepWeight(b, BeginInsert(i, names[i], m), InWindow);
    assert Passed(names, i, m)[i := Checked(names[i], m)] == Passed(names, i + 1, m);
  }

  /** `i` goroutines have passed the test, each with a page of `m` bytes for a key of its own. */
  lemma {:induction false} AllPass(s0: State, names: seq<Key>, i: nat, m: nat) returns (steps: seq<Step>, s: State)
    requires s0.threads == map[] && s0.size + m <= s0.maxFileSize && i <= |names|
    ensures Exec(s0, steps) == Some(s) && WindowThroughout(s0, steps, |names|, m)
    ensures s == s0.(threads := Passed(names, i, m)) && Weigh(s, InWindow) == i
  {
    if i == 0 {
      steps, s := [], s0;
      Tally.SumZero(Weights(s.threads, InWindow));
      assert s.threads == Passed(names, 0, m);
    } else {
      var before, b := AllPass(s0, names, i - 1, m);
      s := OnePasses(b, s0, names, i - 1, m);
      steps := before + [BeginInsert(i - 1, names[i - 1], m)];
      OneMore(s0, before, b, BeginInsert(i - 1, names[i - 1], m), |names|, m);
    }
  }

  /** One admitted insert of a new page commits and counts. */
  lemma CommitAndCount(s0: State, steps: seq<Step>, s: State, t: Tid, k: Key, n: nat, m: nat)
    returns (more: seq<Step>, r: State)
    requires Exec(s0, steps) == Some(s) && WindowThroughout(s0, steps, n, m) && Window(s, n, m)
    requires t in s.threads && s.threads[t] == Checked(k, m) && k !in s.db
    ensures Exec(s0, more) == Some(r) && WindowThroughout(s0, more, n, m)
    ensures r == s.(db := s.db[k := Entry(m, 0)], size := s.size + m, threads := s.threads[t := Writing(k)])
    ensures Weigh(r, InWindow) == Weigh(s, InWindow) - 1
  {
    var s1 := Apply(s, Commit(t));
    StepWeight(s, Commit(t), InWindow);
    OneMore(s0, steps, s, Commit(t), n, m);
    r := Apply(s1, Count(t));
    StepWeight(s1, Count(t), InWindow);
    OneMore(s0, steps + [Commit(t)], s1, Count(t), n, m);
    more := steps + [Commit(t)] + [Count(t)];
    assert s.threads[t := Created(k, m)][t := Writing(k)] == s.threads[t := Writing(k)];
  }

  /** Keys of pages to be stored: all different and none in use. */
  ghost predicate Unused(s: State, names: seq<Key>) {
    Distinct(names) && forall k :: k in names ==> k !in s.db
  }

  ghost function Counting(names: seq<Key>, i: nat, m: nat): map<Tid, Pc>
    requires i <= |names|
  {
    map t: nat | t < |names| :: if t < i then Writing(names[t]) else Checked(names[t], m)
  }

  /** Of `|names|` goroutines that have passed the test, the first `i` have committed and counted. */
  ghost predicate Halfway(s: State, s0: State, names: seq<Key>, i: nat, m: nat)
    requires i <= |names|
  {
    && s.size == s0.size + Repeated(m, i) && s.maxFileSize == s0.maxFileSize
    && s.threads == Counting(names, i, m)
    && (forall j :: i <= j < |names| ==> names[j] !in s.db)
    && Weigh(s, InWindow) == |names| - i
  }

  lemma HalfwayStart(s: State, s0: State, names: seq<Key>, m: nat)
    requires s == s0.(threads := Passed(names, |names|, m))
    requires Weigh(s, InWindow) == |names| && Unused(s0, names)
    ensures Halfway(s, s0, names, 0, m)
  {
    assert Passed(names, |names|, m) == Counting(names, 0, m);
  }

  lemma HalfwayReady(b: State, s0: State, names: seq<Key>, i: nat, m: nat)
    requires i < |names| && Halfway(b, s0, names, i, m)
    ensures Window(b, |names|, m) && i in b.threads && b.threads[i] == Checked(names[i], m) && names[i] !in b.db
  {
  }

  lemma HalfwayStep(b: State, s0: State, s: State, names: seq<Key>, i: nat, m: nat)
    requires i < |names| && Halfway(b, s0, names, i, m) && Distinct(names)
    requires s == b.(db := b.db[names[i] := Entry(m, 0)], size := b.size + m,
                     threads := b.threads[i := Writing(names[i])])
    requires Weigh(s, InWindow) == |names| - i - 1
    ensures Halfway(s, s0, names, i + 1, m)
  {
    assert Counting(names, i, m)[i := Writing(names[i])] == Counting(names, i + 1, m);
    assert Repeated(m, i + 1) == Repeated(m, i) + m;
  }

  lemma NextCounts(s0: State, before: seq<Step>, b: State, names: seq<Key>, i: nat, m: nat)
    returns (steps: seq<Step>, s: State)
    requires Exec(s0, before) == Some(b) && WindowThroughout(s0, before, |names|, m)
    requires i < |names| && Halfway(b, s0, names, i, m) && Unused(s0, names)
    ensures Exec(s0, steps) == Some(s) && WindowThroughout(s0, steps, |names|, m)
    ensures Halfway(s, s0, names, i + 1, m)
  {
    HalfwayReady(b, s0, names, i, m);
    steps, s := CommitAndCount(s0, before, b, i, names[i], |names|, m);
    HalfwayStep(b, s0, s, names, i, m);
  }

  lemma NoneCount(s0: State, names: seq<Key>, m: nat) returns (steps: seq<Step>, s: State)
    requires s0.threads == map[] && s0.size + m <= s0.maxFileSize && Unused(s0, names)
    ensures Exec(s0, steps) == Some(s) && WindowThroughout(s0, steps, |names|, m)
    ensures Halfway(s, s0, names, 0, m)
  {
    steps, s := AllPass(s0, names, |names|, m);
    HalfwayStart(s, s0, names, m);
  }

  lemma {:induction false} AllCount(s0: State, names: seq<Key>, i: nat, m: nat) returns (steps: seq<Step>, s: State)
    requires s0.threads == map[] && s0.size + m <= s0.maxFileSize && Unused(s0, names) && i <= |names|
    ensures Exec(s0, steps) == Some(s) && WindowThroughout(s0, steps, |names|, m)
    ensures Halfway(s, s0, names, i, m)
  {
    if i == 0 {
      steps, s := NoneCount(s0, names, m);
    } else {
      var before, b := AllCount(s0, names, i - 1, m);
      steps, s := NextCounts(s0, before, b, names, i - 1, m);
    }
  }

  /**
   The capacity bound cannot be improved: for any number of concurrent inserts, of pages of any size for
   any unused keys, there is an interleaving within the window in which the counter reaches it exactly.
   */
  lemma BoundIsReached(s0: State, names: seq<Key>, m: nat) returns (steps: seq<Step>, s: State)
    requires names != [] && s0.threads == map[] && Unused(s0, names) && s0.size + m == s0.maxFileSize
    ensures Exec(s0, steps) == Some(s) && WindowThroughout(s0, steps, |names|, m)
    ensures s.size == s.maxFileSize + m * (|names| - 1)
  {
    steps, s := AllCount(s0, names, |names|, m);
    RepeatedIsProduct(m, |names|);
    assert m * |names| == m * (|names| - 1) + m;
  }
}
