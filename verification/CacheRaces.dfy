/**
 What concurrent operations on one key can do to each other: when a bucket can lose its page, and when a
 lookup can meet a bucket that is gone.
 */
module CacheRaces {
  import opened PageTree
  import opened Wrappers
  import opened CacheInterleaving

  // ---------- Buckets and their pages ----------

  /** A goroutine that will still write the page of bucket `k` or delete the bucket. */
  predicate Completes(pc: Pc, k: Key) {
    match pc
    case Created(l, _) => l == k
    case Writing(l) => l == k
    case Deleting(l, page) => l == k && !page
    case _ => false
  }

  /** A removal of `k` that has deleted the bucket and will still remove the page file. */
  predicate Unlinks(pc: Pc, k: Key) {
    match pc
    case Deleted(l, _, page) => l == k && page
    case Unlinking(l) => l == k
    case _ => false
  }

  /** A bucket without page is being completed, and a key whose page is about to go has no bucket. */
  ghost predicate Paged(s: State) {
    && (forall k :: k in s.db && k !in s.files ==> exists t :: t in s.threads && Completes(s.threads[t], k))
    && (forall t, k :: t in s.threads && Unlinks(s.threads[t], k) ==> k !in s.db)
  }

  /** A new bucket is committed for a key whose removal is between its deletion and its unlinking. */
  ghost predicate Overtakes(s: State, a: Step) {
    && a.Commit? && a.t in s.threads && s.threads[a.t].Checked? && s.threads[a.t].k !in s.db
    && exists u :: u in s.threads && Unlinks(s.threads[u], s.threads[a.t].k)
  }

  /** No step of the run is such a commit. */
  ghost predicate NoneOvertakes(s0: State, steps: seq<Step>) {
    forall i :: 0 <= i < |steps| && Exec(s0, steps[..i]).Some? ==> !Overtakes(Exec(s0, steps[..i]).value, steps[i])
  }

  /** After a step a bucket that has no page is still being completed. */
  lemma StepCompletes(s: State, a: Step, k: Key) returns (t: Tid)
    requires Paged(s) && Enabled(s, a) && k in Apply(s, a).db && k !in Apply(s, a).files
    ensures t in Apply(s, a).threads && Completes(Apply(s, a).threads[t], k)
  {
    var r := Apply(s, a);
    if k in s.db {
      assert k !in s.files;
      t :| t in s.threads && Completes(s.threads[t], k);
    } else {
      t := a.t;
    }
  }

  lemma StepPaged(s: State, a: Step)
    requires Paged(s) && Enabled(s, a) && !Overtakes(s, a)
    ensures Paged(Apply(s, a))
  {
    var r := Apply(s, a);
    forall k | k in r.db && k !in r.files ensures exists t :: t in r.threads && Completes(r.threads[t], k) {
      var t := StepCompletes(s, a, k);
    }
    forall t, k | t in r.threads && Unlinks(r.threads[t], k) ensures k !in r.db {
      if t in s.threads && Unlinks(s.threads[t], k) {
        assert k !in s.db;
      }
    }
  }

  /**
   If no new bucket overtakes a removal of its key, a bucket without page is always one that some
   goroutine is about to complete or delete, and whenever no operation is in flight every bucket has its
   page.
   */
  lemma {:induction false} EveryBucketHasItsPage(s0: State, steps: seq<Step>, s: State)
    requires Paged(s0) && Exec(s0, steps) == Some(s) && NoneOvertakes(s0, steps)
    ensures Paged(s)
    ensures Quiet(s) ==> s.db.Keys <= s.files
  {
    if steps != [] {
      var init, a := steps[..|steps| - 1], steps[|steps| - 1];
      assert forall i :: 0 <= i < |init| ==> init[..i] == steps[..i] && init[i] == steps[i];
      EveryBucketHasItsPage(s0, init, Exec(s0, init).value);
      StepPaged(Exec(s0, init).value, a);
    }
  }

  /** Runs may start with any pages, as long as no operation is in flight and every bucket has its page. */
  lemma StartPaged(s: State)
    requires s.threads == map[] && s.db.Keys <= s.files
    ensures Paged(s)
  {
  }

  /** A removal up to the point where the page file is removed. */
  lemma RemoveBegun(s: State, t: Tid, k: Key) returns (steps: seq<Step>, r: State)
    requires t !in s.threads && k in s.db
    ensures Exec(s, steps) == Some(r)
    ensures r == s.(db := s.db - {k}, size := s.size - s.db[k].size, threads := s.threads[t := Unlinking(k)])
  {
    steps, r := NotBegun(s);
    steps, r := More(s, steps, r, BeginRemove(t, k));
    steps, r := More(s, steps, r, Delete(t));
    steps, r := More(s, steps, r, Uncount(t));
  }

  /** A run goes on with an insert from its test to its written page. */
  lemma InsertRuns(s0: State, before: seq<Step>, s: State, t: Tid, k: Key, bytes: nat)
    returns (steps: seq<Step>, r: State)
    requires Exec(s0, before) == Some(s)
    requires t !in s.threads && k !in s.db && s.size + bytes <= s.maxFileSize
    ensures Exec(s0, steps) == Some(r)
    ensures r == s.(db := s.db[k := Entry(bytes, 0)], size := s.size + bytes, files := s.files + {k})
  {
    steps, r := before, s;
    steps, r := More(s0, steps, r, BeginInsert(t, k, bytes));
    steps, r := More(s0, steps, r, Commit(t));
    steps, r := More(s0, steps, r, Count(t));
    steps, r := More(s0, steps, r, WriteOk(t));
    assert r.threads == s.threads;
  }

  /** A run goes on with a removal's last steps after the deletion of its bucket. */
  lemma RemovalEnds(s0: State, before: seq<Step>, s: State, u: Tid, k: Key) returns (steps: seq<Step>, r: State)
    requires Exec(s0, before) == Some(s) && u in s.threads && Unlinks(s.threads[u], k)
    ensures Exec(s0, steps) == Some(r)
    ensures r.db == s.db && r.files == s.files - {k} && r.threads == s.threads - {u}
  {
    steps, r := before, s;
    if s.threads[u].Deleted? {
      steps, r := More(s0, steps, r, Uncount(u));
    }
    steps, r := More(s0, steps, r, Unlink(u));
    assert r.threads == s.threads - {u};
  }

  /** A run goes on with the rest of an insert after its commit. */
  lemma InsertEnds(s0: State, before: seq<Step>, s: State, t: Tid, k: Key, bytes: nat)
    returns (steps: seq<Step>, r: State)
    requires Exec(s0, before) == Some(s) && t in s.threads && s.threads[t] == Created(k, bytes)
    ensures Exec(s0, steps) == Some(r)
    ensures r == s.(size := s.size + bytes, files := s.files + {k}, threads := s.threads - {t})
  {
    steps, r := before, s;
    steps, r := More(s0, steps, r, Count(t));
    steps, r := More(s0, steps, r, WriteOk(t));
    assert r.threads == s.threads - {t};
  }

  /**
   The condition cannot be weakened: after any commit that overtakes a removal, the insert may end before
   the removal goes on, and then the new bucket is left without page.
   */
  lemma OvertakingLosesPage(s: State, a: Step, u: Tid) returns (steps: seq<Step>, r: State)
    requires Enabled(s, a) && Overtakes(s, a) && u in s.threads && Unlinks(s.threads[u], s.threads[a.t].k)
    ensures Exec(Apply(s, a), steps) == Some(r)
    ensures var k := s.threads[a.t].k;
            r.threads == s.threads - {a.t, u} && k in r.db && k !in r.files
  {
    var t, k := a.t, s.threads[a.t].k;
    steps, r := NotBegun(Apply(s, a));
    steps, r := InsertEnds(Apply(s, a), steps, r, t, k, s.threads[t].size);
    steps, r := RemovalEnds(Apply(s, a), steps, r, u, k);
    assert s.threads - {t} - {u} == s.threads - {t, u};
  }

  /**
   A removal overtaken by an insert of the same key: the new page is unlinked, and all operations end
   with a bucket that has no page. The counter is still right.
   */
  lemma RemoveOvertaken(s: State, t: Tid, u: Tid, k: Key, bytes: nat) returns (steps: seq<Step>, r: State)
    requires s.threads == map[] && t != u && k in s.db && k in s.files
    requires s.size - s.db[k].size + bytes <= s.maxFileSize
    ensures Exec(s, steps) == Some(r) && r.threads == map[]
    ensures k in r.db && r.db[k].size == bytes && k !in r.files
    ensures Accounted(s) ==> r.size == Stored(r.db)
  {
    steps, r := RemoveBegun(s, u, k);
    steps, r := InsertRuns(s, steps, r, t, k, bytes);
    steps, r := RemovalEnds(s, steps, r, u, k);
    assert r.threads == map[];
    if Accounted(s) {
      CounterIsAccounted(s, steps, r);
    }
  }

  // ---------- Lookups ----------

  /** A run goes on with the deletion of a bucket whose page is missing. */
  lemma DeleteRuns(s0: State, before: seq<Step>, s: State, t: Tid, k: Key) returns (steps: seq<Step>, r: State)
    requires Exec(s0, before) == Some(s) && t in s.threads && s.threads[t] == Deleting(k, false) && k in s.db
    ensures Exec(s0, steps) == Some(r)
    ensures r == s.(db := s.db - {k}, size := s.size - s.db[k].size, threads := s.threads - {t})
  {
    steps, r := before, s;
    steps, r := More(s0, steps, r, Delete(t));
    steps, r := More(s0, steps, r, Uncount(t));
    assert r.threads == s.threads - {t};
  }

  /** The next fresh lookup of a bucket without page deletes the bucket and corrects the counter. */
  lemma LookupHeals(s: State, k: Key, t: Tid) returns (steps: seq<Step>, r: State)
    requires t !in s.threads && k in s.db && k !in s.files
    ensures Exec(s, steps) == Some(r)
    ensures r == s.(db := s.db - {k}, size := s.size - s.db[k].size)
  {
    steps, r := NotBegun(s);
    steps, r := More(s, steps, r, BeginLookup(t, k));
    steps, r := More(s, steps, r, Use(t));
    steps, r := More(s, steps, r, Read(t));
    steps, r := DeleteRuns(s, steps, r, t, k);
    assert r.threads == s.threads;
    assert s.db[k := Entry(s.db[k].size, (s.db[k].uses + 1) % 0x1_0000_0000)] - {k} == s.db - {k};
  }

  /** A bucket deleted between a lookup's two transactions: counting the use finds no bucket. */
  lemma LookupCrashes(s: State, t: Tid, u: Tid, k: Key) returns (steps: seq<Step>, r: State)
    requires t !in s.threads && u !in s.threads && t != u && k in s.db
    ensures Exec(s, steps) == Some(r) && t in r.threads && r.threads[t] == Crashed
  {
    steps, r := NotBegun(s);
    steps, r := More(s, steps, r, BeginLookup(t, k));
    steps, r := More(s, steps, r, BeginRemove(u, k));
    steps, r := More(s, steps, r, Delete(u));
    steps, r := More(s, steps, r, Use(t));
  }

  /** Buckets that lookups have seen are still there and no lookup has crashed. */
  ghost predicate LookupsSafe(s: State) {
    forall t :: t in s.threads ==>
      !s.threads[t].Crashed? && (s.threads[t].Viewed? ==> s.threads[t].k in s.db)
  }

  /** The bucket of `k` is deleted. */
  predicate Drops(s: State, a: Step, k: Key) {
    a.Delete? && a.t in s.threads && s.threads[a.t].Deleting? && s.threads[a.t].k == k && k in s.db
  }

  /** A bucket is deleted that a lookup has seen and not yet counted its use in. */
  ghost predicate PullsAway(s: State, a: Step) {
    exists t :: t in s.threads && s.threads[t].Viewed? && Drops(s, a, s.threads[t].k)
  }

  /** Lookups become unsafe by such a deletion and by nothing else. */
  lemma StepSafe(s: State, a: Step)
    requires LookupsSafe(s) && Enabled(s, a)
    ensures LookupsSafe(Apply(s, a)) <==> !PullsAway(s, a)
  {
    var r := Apply(s, a);
    if PullsAway(s, a) {
      var t :| t in s.threads && s.threads[t].Viewed? && Drops(s, a, s.threads[t].k);
      assert t in r.threads && r.threads[t] == s.threads[t];
    } else {
      forall t | t in r.threads
        ensures !r.threads[t].Crashed? && (r.threads[t].Viewed? ==> r.threads[t].k in r.db)
      {
        if t != a.t {
          assert t in s.threads && r.threads[t] == s.threads[t];
          assert s.threads[t].Viewed? ==> !Drops(s, a, s.threads[t].k);
        }
      }
    }
  }

  ghost predicate NonePullsAway(s0: State, steps: seq<Step>) {
    forall i :: 0 <= i < |steps| && Exec(s0, steps[..i]).Some? ==> !PullsAway(Exec(s0, steps[..i]).value, steps[i])
  }

  /** Whatever else is deleted, no lookup of the run crashes if none has its bucket pulled away. */
  lemma {:induction false} OnlyDeletionsCrash(s0: State, steps: seq<Step>, s: State)
    requires LookupsSafe(s0) && Exec(s0, steps) == Some(s) && NonePullsAway(s0, steps)
    ensures LookupsSafe(s)
  {
    if steps != [] {
      var init, a := steps[..|steps| - 1], steps[|steps| - 1];
      assert forall i :: 0 <= i < |init| ==> init[..i] == steps[..i] && init[i] == steps[i];
      OnlyDeletionsCrash(s0, init, Exec(s0, init).value);
      StepSafe(Exec(s0, init).value, a);
    }
  }

  /** Some step of the run deletes the bucket of `k`. */
  ghost predicate Dropped(s0: State, steps: seq<Step>, k: Key) {
    exists i :: 0 <= i < |steps| && Exec(s0, steps[..i]).Some? && Drops(Exec(s0, steps[..i]).value, steps[i], k)
  }

  lemma DroppedMore(s0: State, init: seq<Step>, m: State, a: Step, k: Key)
    requires Exec(s0, init) == Some(m)
    ensures Dropped(s0, init, k) || Drops(m, a, k) ==> Dropped(s0, init + [a], k)
  {
    var steps := init + [a];
    assert steps[..|init|] == init && steps[|init|] == a;
    assert forall i :: 0 <= i < |init| ==> init[..i] == steps[..i] && init[i] == steps[i];
  }

  lemma StepWhileViewed(m: State, a: Step, t: Tid, k: Key)
    requires t in m.threads && m.threads[t] == Viewed(k) && Enabled(m, a) && a.t != t
    ensures t in Apply(m, a).threads && Apply(m, a).threads[t] == Viewed(k)
    ensures k in m.db && k !in Apply(m, a).db ==> Drops(m, a, k)
  {
  }

  lemma {:induction false} ViewedStays(s0: State, steps: seq<Step>, s: State, t: Tid, k: Key)
    requires t in s0.threads && s0.threads[t] == Viewed(k) && k in s0.db
    requires Exec(s0, steps) == Some(s) && forall a :: a in steps ==> a.t != t
    ensures t in s.threads && s.threads[t] == Viewed(k)
    ensures k in s.db || Dropped(s0, steps, k)
  {
    if steps != [] {
      var init, a := steps[..|steps| - 1], steps[|steps| - 1];
      var m := Exec(s0, init).value;
      assert a in steps && forall b :: b in init ==> b in steps;
      ViewedStays(s0, init, m, t, k);
      StepWhileViewed(m, a, t, k);
      assert steps == init + [a];
      DroppedMore(s0, init, m, a, k);
    }
  }

  /**
   One lookup: between its two transactions others may do anything; it crashes only if its own key's
   bucket is deleted meanwhile, and certainly crashes if the bucket is then still missing.
   */
  lemma CrashNeedsDeletion(s0: State, steps: seq<Step>, s: State, t: Tid, k: Key)
    requires t in s0.threads && s0.threads[t] == Viewed(k) && k in s0.db
    requires Exec(s0, steps) == Some(s) && forall a :: a in steps ==> a.t != t
    ensures t in s.threads && s.threads[t] == Viewed(k)
    ensures k in s.db || Dropped(s0, steps, k)
    ensures Apply(s, Use(t)).threads[t].Crashed? <==> k !in s.db
  {
    ViewedStays(s0, steps, s, t, k);
  }
}
