/**
 The two models of the cache agree: the steps of one goroutine that no other interrupts do to the stores
 what the operations of CacheModel do.
 */
module CacheAlone {
  import opened CacheControl
  import opened RequestDirectives
  import opened Wrappers
  import opened UseCounter
  import opened PageTree
  import opened CacheInterleaving
  import M = CacheModel

  ghost function Entries(db: M.Db): map<Key, Entry>
    requires M.WellFormed(db)
  {
    map k | k in db :: Entry(db[k].size, Uint32(db[k].uses))
  }

  lemma EntriesWith(db: M.Db, k: Key, b: M.Bucket)
    requires M.WellFormed(db) && IsKey(k) && b.size >= 0 && IsCounter(b.uses)
    ensures M.WellFormed(db[k := b])
    ensures Entries(db[k := b]) == Entries(db)[k := Entry(b.size, Uint32(b.uses))]
  {
  }

  lemma EntriesWithout(db: M.Db, k: Key)
    requires M.WellFormed(db)
    ensures M.WellFormed(db - {k}) && Entries(db - {k}) == Entries(db) - {k}
  {
  }

  /** A cache as the step machine sees it, with no operation in flight. */
  ghost function Seen(c: M.Cache): State
    requires M.WellFormed(c.db)
  {
    State(Entries(c.db), c.tree.files.Keys, c.size, c.maxFileSize, map[])
  }

  // ---------- Inserting ----------

  /** Up to the written page: the bucket is committed and counted unless there is one. */
  lemma Admitted(c: M.Cache, k: Key, b: M.Bucket, t: Tid) returns (steps: seq<Step>, r: State)
    requires M.WellFormed(c.db) && IsKey(k) && b.size >= 0 && b.uses == ZERO && c.size + b.size <= c.maxFileSize
    ensures M.WellFormed(M.Counted(c, k, b).db)
    ensures Exec(Seen(c), steps) == Some(r)
    ensures r == Seen(M.Counted(c, k, b)).(threads := map[t := Writing(k)])
    ensures Commit(t) in steps && WriteOk(t) !in steps
  {
    var s := Seen(c);
    steps, r := NotBegun(s);
    steps, r := More(s, steps, r, BeginInsert(t, k, b.size));
    steps, r := More(s, steps, r, Commit(t));
    if k !in c.db {
      steps, r := More(s, steps, r, Count(t));
      EntriesWith(c.db, k, b);
    }
    assert r.threads == map[t := Writing(k)];
  }

  /** From there on: the page is written, or the bucket goes again. */
  lemma Concluded(s0: State, before: seq<Step>, c: M.Cache, k: Key, page: Page, end: WriteEnd, t: Tid)
    returns (steps: seq<Step>, r: State)
    requires M.WellFormed(c.db) && IsKey(k) && k in c.db
    requires Exec(s0, before) == Some(Seen(c).(threads := map[t := Writing(k)]))
    ensures Exec(s0, steps) == Some(r)
    ensures var written := c.(tree := WithPage(c.tree, k, page, end));
            r == Seen(if end.Written? then written else M.WithoutMetadata(written, k))
    ensures forall a :: a in before ==> a in steps
    ensures WriteOk(t) in steps <==> WriteOk(t) in before || end.Written?
  {
    var s := Seen(c).(threads := map[t := Writing(k)]);
    if end.Written? {
      steps, r := More(s0, before, s, WriteOk(t));
    } else {
      steps, r := More(s0, before, s, WriteFail(t, end.FlushFails?));
      steps, r := More(s0, steps, r, Delete(t));
      steps, r := More(s0, steps, r, Uncount(t));
      EntriesWithout(c.db, k);
    }
    assert r.threads == map[];
  }

  /** An insert that is turned down by its directives or by the database. */
  lemma TurnedDown(c: M.Cache, k: Key, bytes: nat, t: Tid) returns (steps: seq<Step>)
    requires M.WellFormed(c.db) && c.size + bytes <= c.maxFileSize
    ensures Exec(Seen(c), steps) == Some(Seen(c))
    ensures Commit(t) !in steps && WriteOk(t) !in steps
  {
    var s := Seen(c);
    var r;
    steps, r := NotBegun(s);
    steps, r := More(s, steps, r, BeginInsert(t, k, bytes));
    steps, r := More(s, steps, r, Reject(t));
    assert r.threads == map[];
  }

  /** An insert alone, however it ends, with the conditions for its commit and its write. */
  lemma InsertAlone(c: M.Cache, k: Key, req: M.Request, resp: M.Response, page: Page, now: int,
                    commits: bool, end: WriteEnd, t: Tid) returns (steps: seq<Step>)
    requires M.Valid(c) && IsKey(k)
    ensures var d := M.Inserted(c, k, req, resp, page, now, commits, end).0;
            M.WellFormed(d.db) && Exec(Seen(c), steps) == Some(Seen(d))
    ensures var admitted :=
              && c.size + |page.body| <= c.maxFileSize && req.method_ == "GET"
              && "no-store" !in Trimmed(req.cacheControl)
              && "no-store" !in Trimmed(resp.cacheControl) && "private" !in Trimmed(resp.cacheControl)
              && (k in c.db || commits);
            (Commit(t) in steps <==> admitted) && (WriteOk(t) in steps <==> admitted && end == Written)
  {
    M.InsertAnswers(c, k, req, resp, page, now, commits, end);
    M.InsertedValid(c, k, req, resp, page, now, commits, end);
    var r: State;
    if c.size + |page.body| > c.maxFileSize {
      steps, r := NotBegun(Seen(c));
      steps, r := More(Seen(c), steps, r, BeginInsert(t, k, |page.body|));
    } else if !M.Storable(req, resp, now) || (k !in c.db && !commits) {
      steps := TurnedDown(c, k, |page.body|, t);
    } else {
      var b := M.NewBucket(page, resp, now);
      steps, r := Admitted(c, k, b, t);
      steps, r := Concluded(Seen(c), steps, M.Counted(c, k, b), k, page, end, t);
    }
  }

  // ---------- Removing and looking up ----------

  lemma RemovePresent(c: M.Cache, k: Key, t: Tid) returns (steps: seq<Step>, r: State)
    requires M.WellFormed(c.db) && k in c.db
    ensures Exec(Seen(c), steps) == Some(r) && Unlink(t) in steps
    ensures r == Seen(c).(db := Entries(c.db) - {k}, files := c.tree.files.Keys - {k}, size := c.size - c.db[k].size)
  {
    var s := Seen(c);
    steps, r := NotBegun(s);
    steps, r := More(s, steps, r, BeginRemove(t, k));
    steps, r := More(s, steps, r, Delete(t));
    steps, r := More(s, steps, r, Uncount(t));
    steps, r := More(s, steps, r, Unlink(t));
    assert r.threads == map[];
  }

  lemma RemoveMissing(c: M.Cache, k: Key, t: Tid) returns (steps: seq<Step>)
    requires M.WellFormed(c.db) && k !in c.db
    ensures Exec(Seen(c), steps) == Some(Seen(c)) && Unlink(t) !in steps
  {
    var s := Seen(c);
    var r;
    steps, r := NotBegun(s);
    steps, r := More(s, steps, r, BeginRemove(t, k));
    steps, r := More(s, steps, r, Delete(t));
    assert r.threads == map[];
  }

  /** A removal alone; it comes to the page file exactly if there is a bucket. */
  lemma RemoveAlone(c: M.Cache, k: Key, t: Tid) returns (steps: seq<Step>)
    requires M.Valid(c)
    ensures var d := M.RemovedPage(c, k).cache;
            M.WellFormed(d.db) && Exec(Seen(c), steps) == Some(Seen(d))
    ensures Unlink(t) in steps <==> k in c.db
  {
    M.RemovedPageEffect(c, k);
    if k in c.db {
      var r;
      steps, r := RemovePresent(c, k, t);
      EntriesWithout(c.db, k);
    } else {
      steps := RemoveMissing(c, k, t);
    }
  }

  /** A use of a bucket is counted. */
  lemma Counting(c: M.Cache, k: Key, t: Tid) returns (steps: seq<Step>, r: State)
    requires M.WellFormed(c.db) && k in c.db
    ensures M.WellFormed(M.Used(c, k).db)
    ensures Exec(Seen(c), steps) == Some(r) && r == Seen(M.Used(c, k)).(threads := map[t := Used(k)])
    ensures Read(t) !in steps
  {
    var s := Seen(c);
    steps, r := NotBegun(s);
    steps, r := More(s, steps, r, BeginLookup(t, k));
    steps, r := More(s, steps, r, Use(t));
    EntriesWith(c.db, k, c.db[k].(uses := Incremented(c.db[k].uses)));
    assert r.threads == map[t := Used(k)];
  }

  /** The page is read, or the bucket without page is deleted. */
  lemma Reading(s0: State, before: seq<Step>, c: M.Cache, k: Key, t: Tid) returns (steps: seq<Step>, r: State)
    requires M.WellFormed(c.db) && k in c.db
    requires Exec(s0, before) == Some(Seen(c).(threads := map[t := Used(k)]))
    ensures M.WellFormed(M.WithoutMetadata(c, k).db)
    ensures Exec(s0, steps) == Some(r) && r == Seen(if k in c.tree.files then c else M.WithoutMetadata(c, k))
    ensures Read(t) in steps
  {
    var s := Seen(c).(threads := map[t := Used(k)]);
    steps, r := More(s0, before, s, Read(t));
    if k !in c.tree.files {
      steps, r := More(s0, steps, r, Delete(t));
      steps, r := More(s0, steps, r, Uncount(t));
      EntriesWithout(c.db, k);
    }
    assert r.threads == map[];
  }

  /** A lookup that finds a bucket. */
  lemma FoundAlone(c: M.Cache, k: Key, freshEnough: bool, t: Tid) returns (steps: seq<Step>)
    requires M.Valid(c) && k in c.db
    ensures M.WellFormed(M.Used(c, k).db) && M.WellFormed(M.WithoutMetadata(M.Used(c, k), k).db)
    ensures var used := M.Used(c, k);
            var d := if freshEnough && k !in c.tree.files then M.WithoutMetadata(used, k) else used;
            Exec(Seen(c), steps) == Some(Seen(d))
    ensures Read(t) in steps <==> freshEnough
  {
    var r: State;
    steps, r := Counting(c, k, t);
    if freshEnough {
      steps, r := Reading(Seen(c), steps, M.Used(c, k), k, t);
    } else {
      steps, r := More(Seen(c), steps, r, Stale(t));
      assert r.threads == map[];
    }
  }

  /** A lookup alone, whatever it answers; it comes to the page file exactly if the page is in time. */
  lemma LookupAlone(c: M.Cache, k: Key, req: M.Request, t0: int, t1: int, t2: int, t: Tid)
    returns (steps: seq<Step>)
    requires M.Valid(c)
    ensures var d := M.LookedUp(c, k, req, t0, t1, t2).0;
            M.WellFormed(d.db) && Exec(Seen(c), steps) == Some(Seen(d))
    ensures Read(t) in steps <==>
              k in c.db && var d, q := c.db[k].directives, RequestOf(req.cacheControl, t0);
                           && t2 > q.minFresh
                           && t1 <= (if d.sMaxAge != -62_135_596_800_000_000_000 then d.sMaxAge else d.maxAge)
                                + if d.mustRevalidate then 0 else q.maxStale
  {
    M.LookupAnswers(c, k, req, t0, t1, t2);
    if k !in c.db {
      var r: State;
      steps, r := NotBegun(Seen(c));
      steps, r := More(Seen(c), steps, r, BeginLookup(t, k));
    } else {
      steps := FoundAlone(c, k, !M.LookedUp(c, k, req, t0, t1, t2).1.NotFresh?, t);
    }
  }
}
