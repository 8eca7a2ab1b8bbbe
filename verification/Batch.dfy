/** Batch ingest (`process_batch`): what it does to the registry does not depend on the processing order. */
module Batch {
  import opened Storage
  import opened Records
  import opened Lifecycle
  import opened Wrappers

  datatype Job = Job(candidate: Staged, options: Options, op: string)

  datatype Outcome = Outcome(key: Key, action: Action, destination: Option<Path>)

  function Decision(j: Job, s: Snapshot): Action {
    Decide(j.candidate, j.options, Content(s.files, j.candidate.staging), s.registry, s.meta)
  }

  /** What ingesting one job does. */
  ghost predicate JobEffect(s: Snapshot, t: Snapshot, j: Job, one: Ingest) {
    IngestEffect(s, t, j.candidate, j.options, one, Decision(j, s))
  }

  /** Why a job can fail: every name for it is taken, or the copy of it went wrong. */
  ghost predicate Stuck(j: Job, files: Files) {
    || AllNamesTaken(files, j.options.base, j.options.collisionMax)
    || (!j.options.samePool && j.candidate.staging in files && files[j.candidate.staging] != j.options.copied)
  }

  ghost predicate SomeStuck(jobs: seq<Job>, files: Files) {
    exists i :: 0 <= i < |jobs| && Stuck(jobs[i], files)
  }

  /** The decisions taken up front, in the state before the batch: independent of any order. */
  ghost function Decisions(jobs: seq<Job>, s: Snapshot): (d: seq<Action>)
    ensures |d| == |jobs| && forall i :: 0 <= i < |jobs| ==> d[i] == Decision(jobs[i], s)
  {
    seq(|jobs|, i requires 0 <= i < |jobs| => Decision(jobs[i], s))
  }

  /** The hashes a batch adds. */
  ghost function NewHashes(d: seq<Action>): set<Sha> {
    set i | 0 <= i < |d| && d[i].Queued? :: d[i].sha
  }

  /** The action a job ends with is the one decided up front, except that a hash queued by another job of the
      batch meanwhile is discarded as pending. */
  ghost predicate Agrees(decided: Action, a: Action) {
    a == decided || (decided.Queued? && a == Discarded(IsPending, decided.sha, false))
  }

  ghost predicate MetaClosed(s: Snapshot) {
    forall k :: k in s.meta ==> s.meta[k].sha in s.registry
  }

  /** The registry has only gained pending records, and this job's own row and file are as they were. */
  ghost predicate Grown(s: Snapshot, t: Snapshot) {
    && (forall sha :: sha in s.registry ==> sha in t.registry && t.registry[sha].status == s.registry[sha].status)
    && (forall sha :: sha in t.registry && sha !in s.registry ==> t.registry[sha].status.IsPending?)
  }

  ghost predicate Untouched(j: Job, s: Snapshot, t: Snapshot) {
    && Content(t.files, j.candidate.staging) == Content(s.files, j.candidate.staging)
    && (j.candidate.key in t.meta <==> j.candidate.key in s.meta)
    && (j.candidate.key in s.meta ==> t.meta[j.candidate.key] == s.meta[j.candidate.key])
  }

  lemma DecisionLater(j: Job, s: Snapshot, t: Snapshot)
    requires MetaClosed(s) && Grown(s, t) && Untouched(j, s, t) && !j.options.blocked
    ensures Agrees(Decision(j, s), Decision(j, t)) && !Decision(j, t).Blocked?
    ensures Decision(j, s).Queued? ==> Decision(j, s).sha !in s.registry
    ensures Decision(j, t).Queued? ==> Decision(j, t) == Decision(j, s)
    ensures Decision(j, t).Queued? <==> Decision(j, s).Queued? && Decision(j, s).sha !in t.registry
  {
    assert Prefilter(j.candidate, s.registry, s.meta) == Prefilter(j.candidate, t.registry, t.meta);
  }

  ghost predicate Permutation(order: seq<nat>, n: nat) {
    && (forall i :: 0 <= i < n <==> i in order)
    && (forall a, b :: 0 <= a < b < |order| ==> order[a] != order[b])
  }

  ghost predicate GoodBatch(jobs: seq<Job>) {
    && (forall i :: 0 <= i < |jobs| ==>
          jobs[i].candidate.staging.root == Staging && GoodOptions(jobs[i].options) && !jobs[i].options.blocked)
    && (forall i, j :: 0 <= i < j < |jobs| ==>
          jobs[i].candidate.key != jobs[j].candidate.key && jobs[i].candidate.staging != jobs[j].candidate.staging)
  }

  /** Each new hash is queued by exactly one job among those done. */
  ghost predicate Owned(done: map<nat, Outcome>, owner: map<Sha, nat>) {
    && (forall sha :: sha in owner ==> owner[sha] in done && done[owner[sha]].action == Queued(sha))
    && (forall i :: i in done && done[i].action.Queued? ==>
          done[i].action.sha in owner && owner[done[i].action.sha] == i)
  }

  /** Key, decision and outcome belong together, and a hash that was to be queued has an owner. */
  ghost predicate Ended(key: Key, decided: Action, o: Outcome, owned: set<Sha>) {
    o.key == key && Agrees(decided, o.action) && (decided.Queued? ==> decided.sha in owned)
  }

  ghost predicate AllEnded(jobs: seq<Job>, d: seq<Action>, done: map<nat, Outcome>, owned: set<Sha>)
    requires |d| == |jobs|
  {
    forall i :: i in done ==> i < |jobs| && Ended(jobs[i].candidate.key, d[i], done[i], owned)
  }

  /** How far a batch has come, in terms of the state it started from and the decisions `d` taken there. */
  ghost predicate Progress(jobs: seq<Job>, d: seq<Action>, s: Snapshot, now: Snapshot, done: map<nat, Outcome>,
                           owner: map<Sha, nat>)
    requires |d| == |jobs|
  {
    && Grown(s, now)
    && (forall i :: 0 <= i < |jobs| && i !in done ==> Untouched(jobs[i], s, now))
    && AllEnded(jobs, d, done, owner.Keys)
    && now.registry.Keys == s.registry.Keys + owner.Keys && s.registry.Keys !! owner.Keys
    && Owned(done, owner)
  }

  /** What processing one job does. */
  ghost predicate Processed(j: Job, now: Snapshot, next: Snapshot, o: Outcome) {
    && o.key == j.candidate.key
    && next.registry == Registered(now.registry, o.action, o.destination)
    && next.meta == Indexed(now.meta, j.candidate, o.action)
    && (forall p: Path :: p.root == Staging && p != j.candidate.staging ==>
          Content(next.files, p) == Content(now.files, p))
  }

  function NextOwner(owner: map<Sha, nat>, i: nat, a: Action): map<Sha, nat> {
    if a.Queued? then owner[a.sha := i] else owner
  }

  lemma StepGrown(s: Snapshot, now: Snapshot, next: Snapshot, o: Outcome, i: nat, owner: map<Sha, nat>)
    requires Grown(s, now) && now.registry.Keys == s.registry.Keys + owner.Keys && s.registry.Keys !! owner.Keys
    requires next.registry == Registered(now.registry, o.action, o.destination)
    requires !o.action.Blocked? && (o.action.Queued? ==> o.action.sha !in now.registry)
    ensures Grown(s, next) && next.registry.Keys == s.registry.Keys + NextOwner(owner, i, o.action).Keys
    ensures s.registry.Keys !! NextOwner(owner, i, o.action).Keys
  {
  }

  lemma StepUntouched(done: Job, other: Job, s: Snapshot, now: Snapshot, next: Snapshot, o: Outcome)
    requires Untouched(other, s, now) && Processed(done, now, next, o) && other.candidate.staging.root == Staging
    requires done.candidate.key != other.candidate.key && done.candidate.staging != other.candidate.staging
    ensures Untouched(other, s, next)
  {
  }

  lemma StepOwned(done: map<nat, Outcome>, owner: map<Sha, nat>, i: nat, o: Outcome)
    requires Owned(done, owner) && i !in done && (o.action.Queued? ==> o.action.sha !in owner)
    ensures Owned(done[i := o], NextOwner(owner, i, o.action))
  {
  }

  lemma StepEnded(jobs: seq<Job>, d: seq<Action>, now: Snapshot, i: nat, o: Outcome, done: map<nat, Outcome>,
                  owner: map<Sha, nat>, start: Registry)
    requires |d| == |jobs| && i < |jobs| && AllEnded(jobs, d, done, owner.Keys)
    requires o.key == jobs[i].candidate.key && Agrees(d[i], o.action)
    requires o.action.Queued? <==> d[i].Queued? && d[i].sha !in now.registry
    requires now.registry.Keys == start.Keys + owner.Keys && (d[i].Queued? ==> d[i].sha !in start)
    ensures AllEnded(jobs, d, done[i := o], NextOwner(owner, i, o.action).Keys)
  {
    var done', owned' := done[i := o], NextOwner(owner, i, o.action).Keys;
    assert owner.Keys <= owned';
    forall k | k in done' ensures k < |jobs| && Ended(jobs[k].candidate.key, d[k], done'[k], owned') {
      if k != i {
        assert Ended(jobs[k].candidate.key, d[k], done[k], owner.Keys);
      }
    }
  }

  lemma StepProgress(jobs: seq<Job>, d: seq<Action>, s: Snapshot, now: Snapshot, next: Snapshot, i: nat, o: Outcome,
                     done: map<nat, Outcome>, owner: map<Sha, nat>)
    requires GoodBatch(jobs) && |d| == |jobs| && i < |jobs| && i !in done
    requires Progress(jobs, d, s, now, done, owner) && Processed(jobs[i], now, next, o)
    requires Agrees(d[i], o.action) && !o.action.Blocked? && (d[i].Queued? ==> d[i].sha !in s.registry)
    requires o.action.Queued? <==> d[i].Queued? && d[i].sha !in now.registry
    ensures Progress(jobs, d, s, next, done[i := o], NextOwner(owner, i, o.action))
  {
    var owner' := NextOwner(owner, i, o.action);
    StepGrown(s, now, next, o, i, owner);
    forall k | 0 <= k < |jobs| && k !in done && k != i ensures Untouched(jobs[k], s, next) {
      StepUntouched(jobs[i], jobs[k], s, now, next, o);
    }
    StepEnded(jobs, d, now, i, o, done, owner, s.registry);
    StepOwned(done, owner, i, o);
  }

  datatype BatchResult = Finished(outcomes: seq<Outcome>) | Failed

  ghost predicate QueuedAt(outcomes: seq<Outcome>, i: int, sha: Sha) {
    0 <= i < |outcomes| && outcomes[i].action == Queued(sha)
  }

  /** No two outcomes queue the same hash. */
  ghost predicate QueuedOnce(outcomes: seq<Outcome>) {
    forall i, k, sha :: QueuedAt(outcomes, i, sha) && QueuedAt(outcomes, k, sha) ==> i == k
  }

  /** The whole effect of a completed batch, stated without its order: outcome i belongs to candidate i and agrees
      with the decision made up front; the registry gains exactly the new hashes; each is queued exactly once. */
  ghost predicate OrderFree(jobs: seq<Job>, d: seq<Action>, s: Snapshot, now: Snapshot, outcomes: seq<Outcome>) {
    && |outcomes| == |jobs| == |d|
    && (forall i :: 0 <= i < |jobs| ==> outcomes[i].key == jobs[i].candidate.key && Agrees(d[i], outcomes[i].action))
    && Grown(s, now) && now.registry.Keys == s.registry.Keys + NewHashes(d)
    && (forall sha :: sha in NewHashes(d) ==> exists i :: QueuedAt(outcomes, i, sha))
    && QueuedOnce(outcomes)
  }

  lemma ProgressIsOrderFree(jobs: seq<Job>, d: seq<Action>, s: Snapshot, now: Snapshot, done: map<nat, Outcome>,
                            owner: map<Sha, nat>, outcomes: seq<Outcome>)
    requires |d| == |jobs| && Progress(jobs, d, s, now, done, owner) && forall i :: 0 <= i < |jobs| ==> i in done
    requires |outcomes| == |jobs| && forall i :: 0 <= i < |jobs| ==> outcomes[i] == done[i]
    ensures OrderFree(jobs, d, s, now, outcomes)
  {
    forall sha | sha in owner ensures sha in NewHashes(d) && QueuedAt(outcomes, owner[sha], sha) {
      assert Ended(jobs[owner[sha]].candidate.key, d[owner[sha]], done[owner[sha]], owner.Keys);
      assert d[owner[sha]] == Queued(sha);
    }
    forall sha | sha in NewHashes(d) ensures sha in owner {
      var i :| 0 <= i < |d| && d[i].Queued? && d[i].sha == sha;
      assert Ended(jobs[i].candidate.key, d[i], done[i], owner.Keys);
    }
    assert owner.Keys == NewHashes(d);
  }

  /** What ingesting one job gives the batch. */
  lemma EffectStep(jobs: seq<Job>, d: seq<Action>, s: Snapshot, now: Snapshot, next: Snapshot, i: nat, one: Ingest,
                   done: map<nat, Outcome>, owner: map<Sha, nat>)
    requires GoodBatch(jobs) && d == Decisions(jobs, s) && MetaClosed(s) && i < |jobs| && i !in done
    requires Progress(jobs, d, s, now, done, owner) && one.Ingested?
    requires JobEffect(now, next, jobs[i], one)
    ensures var o := Outcome(jobs[i].candidate.key, one.action, one.destination);
            Progress(jobs, d, s, next, done[i := o], NextOwner(owner, i, one.action))
  {
    DecisionLater(jobs[i], s, now);
    StepProgress(jobs, d, s, now, next, i, Outcome(jobs[i].candidate.key, one.action, one.destination), done, owner);
  }

  /** The jobs taken in the first k steps of an order. */
  ghost function Taken(order: seq<nat>, k: nat): set<nat>
    requires k <= |order|
  {
    if k == 0 then {} else Taken(order, k - 1) + {order[k - 1]}
  }

  lemma {:induction false} TakenMembers(order: seq<nat>, k: nat, i: nat)
    requires k <= |order|
    ensures i in Taken(order, k) <==> i in order[..k]
  {
    if k == 0 {
    } else {
      TakenMembers(order, k - 1, i);
      assert order[..k] == order[..k - 1] + [order[k - 1]];
    }
  }

  lemma NextIsNew(order: seq<nat>, n: nat, k: nat)
    requires Permutation(order, n) && k < |order|
    ensures order[k] < n && order[k] !in Taken(order, k)
  {
    assert order[k] in order;
    TakenMembers(order, k, order[k]);
  }

  lemma AllTaken(order: seq<nat>, n: nat)
    requires Permutation(order, n)
    ensures forall i :: 0 <= i < n ==> i in Taken(order, |order|)
  {
    forall i | 0 <= i < n ensures i in Taken(order, |order|) {
      assert order[..|order|] == order && i in order;
      TakenMembers(order, |order|, i);
    }
  }

  method IngestJob(pipeline: Pipeline, j: Job) returns (one: Ingest)
    requires pipeline.Valid() && j.candidate.staging.root == Staging && GoodOptions(j.options)
    modifies pipeline`registry, pipeline`meta, pipeline`origins, pipeline`lines, pipeline`moments, pipeline`begun
    modifies pipeline.disk
    ensures pipeline.Valid()
    ensures JobEffect(old(pipeline.Shot()), pipeline.Shot(), j, one)
  {
    one := pipeline.ProcessOne(j.candidate, j.options, j.op);
  }

  // ---- any batch at all: each job ends, and what was hashed is on record ----

  /** The hash an action speaks of. */
  function HashOf(a: Action): Option<Sha> {
    match a
    case Discarded(_, sha, _) => Some(sha)
    case Blocked(sha) => Some(sha)
    case Queued(sha) => Some(sha)
    case _ => None
  }

  ghost predicate OnRecord(o: Outcome, hashes: set<Sha>) {
    HashOf(o.action).Some? ==> HashOf(o.action).value in hashes
  }

  /** Some jobs have ended, each with an outcome of its own key whose hash is on record. */
  ghost predicate Answered(jobs: seq<Job>, done: map<nat, Outcome>, hashes: set<Sha>) {
    forall i :: i in done ==> i < |jobs| && done[i].key == jobs[i].candidate.key && OnRecord(done[i], hashes)
  }

  lemma EffectAnswers(jobs: seq<Job>, s: Snapshot, t: Snapshot, i: nat, one: Ingest, done: map<nat, Outcome>)
    requires i < |jobs| && one.Ingested? && JobEffect(s, t, jobs[i], one)
    requires Answered(jobs, done, s.registry.Keys)
    ensures s.registry.Keys <= t.registry.Keys
    ensures Answered(jobs, done[i := Outcome(jobs[i].candidate.key, one.action, one.destination)], t.registry.Keys)
  {
  }

  lemma EffectGrows(s: Snapshot, t: Snapshot, j: Job, one: Ingest)
    requires JobEffect(s, t, j, one)
    ensures s.registry.Keys <= t.registry.Keys && (!one.Ingested? ==> Stuck(j, t.files))
  {
  }

  ghost predicate GoodJobs(jobs: seq<Job>) {
    forall i :: 0 <= i < |jobs| ==> jobs[i].candidate.staging.root == Staging && GoodOptions(jobs[i].options)
  }

  /** Jobs of any kind, block rules and repeated keys included, in any order. */
  method IngestBatch(pipeline: Pipeline, jobs: seq<Job>, order: seq<nat>) returns (r: BatchResult)
    requires pipeline.Valid() && GoodJobs(jobs) && Permutation(order, |jobs|)
    modifies pipeline`registry, pipeline`meta, pipeline`origins, pipeline`lines, pipeline`moments, pipeline`begun
    modifies pipeline.disk
    ensures pipeline.Valid() && old(pipeline.registry).Keys <= pipeline.registry.Keys
    ensures r.Failed? ==> SomeStuck(jobs, pipeline.disk.files)
    ensures r.Finished? ==> |r.outcomes| == |jobs|
    ensures r.Finished? ==> forall i :: 0 <= i < |jobs| ==>
      r.outcomes[i].key == jobs[i].candidate.key && OnRecord(r.outcomes[i], pipeline.registry.Keys)
  {
    var done: map<nat, Outcome> := map[];
    for k := 0 to |order|
      invariant pipeline.Valid() && old(pipeline.registry).Keys <= pipeline.registry.Keys
      invariant done.Keys == Taken(order, k) && Answered(jobs, done, pipeline.registry.Keys)
    {
      var i := order[k];
      NextIsNew(order, |jobs|, k);
      ghost var s := pipeline.Shot();
      var one := IngestJob(pipeline, jobs[i]);
      EffectGrows(s, pipeline.Shot(), jobs[i], one);
      if !one.Ingested? {
        return Failed;
      }
      EffectAnswers(jobs, s, pipeline.Shot(), i, one, done);
      done := done[i := Outcome(jobs[i].candidate.key, one.action, one.destination)];
    }
    AllTaken(order, |jobs|);
    return Finished(seq(|jobs|, i requires 0 <= i < |jobs| && i in done => done[i]));
  }

  // ---- the batch without block rules ----

  /** The next job of the order. */
  method RunJob(pipeline: Pipeline, jobs: seq<Job>, i: nat, ghost s: Snapshot, done: map<nat, Outcome>,
                ghost owner: map<Sha, nat>)
    returns (ok: bool, done': map<nat, Outcome>, ghost owner': map<Sha, nat>)
    requires pipeline.Valid() && GoodBatch(jobs) && MetaClosed(s) && i < |jobs| && i !in done
    requires Progress(jobs, Decisions(jobs, s), s, pipeline.Shot(), done, owner)
    modifies pipeline`registry, pipeline`meta, pipeline`origins, pipeline`lines, pipeline`moments, pipeline`begun
    modifies pipeline.disk
    ensures pipeline.Valid()
    ensures !ok ==> Stuck(jobs[i], pipeline.disk.files)
    ensures ok ==> done'.Keys == done.Keys + {i}
    ensures ok ==> Progress(jobs, Decisions(jobs, s), s, pipeline.Shot(), done', owner')
  {
    ghost var now := pipeline.Shot();
    var one := IngestJob(pipeline, jobs[i]);
    ok, done', owner' := one.Ingested?, done, owner;
    EffectGrows(now, pipeline.Shot(), jobs[i], one);
    if ok {
      EffectStep(jobs, Decisions(jobs, s), s, now, pipeline.Shot(), i, one, done, owner);
      owner' := NextOwner(owner, i, one.action);
      done' := done[i := Outcome(jobs[i].candidate.key, one.action, one.destination)];
    }
  }

  lemma NothingDone(jobs: seq<Job>, d: seq<Action>, s: Snapshot)
    requires |d| == |jobs|
    ensures Progress(jobs, d, s, s, map[], map[])
  {
  }

  /** The jobs one after the other, in the given order. */
  method RunJobs(pipeline: Pipeline, jobs: seq<Job>, order: seq<nat>, ghost s: Snapshot)
    returns (ok: bool, done: map<nat, Outcome>, ghost owner: map<Sha, nat>)
    requires pipeline.Valid() && GoodBatch(jobs) && Permutation(order, |jobs|) && s == pipeline.Shot() && MetaClosed(s)
    modifies pipeline`registry, pipeline`meta, pipeline`origins, pipeline`lines, pipeline`moments, pipeline`begun
    modifies pipeline.disk
    ensures pipeline.Valid()
    ensures !ok ==> SomeStuck(jobs, pipeline.disk.files)
    ensures ok ==> done.Keys == Taken(order, |order|)
    ensures ok ==> Progress(jobs, Decisions(jobs, s), s, pipeline.Shot(), done, owner)
  {
    ok, done, owner := true, map[], map[];
    NothingDone(jobs, Decisions(jobs, s), s);
    for k := 0 to |order|
      invariant pipeline.Valid() && done.Keys == Taken(order, k)
      invariant Progress(jobs, Decisions(jobs, s), s, pipeline.Shot(), done, owner)
    {
      NextIsNew(order, |jobs|, k);
      ok, done, owner := RunJob(pipeline, jobs, order[k], s, done, owner);
      if !ok {
        return;
      }
    }
  }

  /** One worker, any schedule. */
  method ProcessBatch(pipeline: Pipeline, jobs: seq<Job>, order: seq<nat>) returns (r: BatchResult)
    requires pipeline.Valid() && GoodBatch(jobs) && Permutation(order, |jobs|)
    modifies pipeline`registry, pipeline`meta, pipeline`origins, pipeline`lines, pipeline`moments, pipeline`begun
    modifies pipeline.disk
    ensures pipeline.Valid()
    ensures r.Failed? ==> SomeStuck(jobs, pipeline.disk.files)
    ensures r.Finished? ==>
      var s := old(pipeline.Shot());
      OrderFree(jobs, Decisions(jobs, s), s, pipeline.Shot(), r.outcomes)
  {
    ghost var s := pipeline.Shot();
    var ok, done, owner := RunJobs(pipeline, jobs, order, s);
    if !ok {
      return Failed;
    }
    AllTaken(order, |jobs|);
    var outcomes := seq(|jobs|, i requires 0 <= i < |jobs| && i in done => done[i]);
    ProgressIsOrderFree(jobs, Decisions(jobs, s), s, pipeline.Shot(), done, owner, outcomes);
    return Finished(outcomes);
  }

  ghost function QueuedShas(outcomes: seq<Outcome>): set<Sha> {
    set i | 0 <= i < |outcomes| && outcomes[i].action.Queued? :: outcomes[i].action.sha
  }

  lemma QueuedAreNew(jobs: seq<Job>, d: seq<Action>, s: Snapshot, now: Snapshot, outcomes: seq<Outcome>)
    requires OrderFree(jobs, d, s, now, outcomes)
    ensures QueuedShas(outcomes) == NewHashes(d)
  {
    forall sha | sha in QueuedShas(outcomes) ensures sha in NewHashes(d) {
      var i :| 0 <= i < |outcomes| && outcomes[i].action.Queued? && outcomes[i].action.sha == sha;
      assert Agrees(d[i], outcomes[i].action);
    }
    forall sha | sha in NewHashes(d) ensures sha in QueuedShas(outcomes) {
      var i :| QueuedAt(outcomes, i, sha);
    }
  }

  /** Another job was to queue the same content. */
  ghost predicate HasTwin(d: seq<Action>, i: nat)
    requires i < |d|
  {
    exists j :: 0 <= j < |d| && j != i && d[j] == d[i]
  }

  lemma DiscardedHasTwin(jobs: seq<Job>, d: seq<Action>, s: Snapshot, now: Snapshot, outcomes: seq<Outcome>, i: nat)
    requires OrderFree(jobs, d, s, now, outcomes) && i < |d| && d[i].Queued? && outcomes[i].action != d[i]
    ensures HasTwin(d, i)
  {
    assert d[i].sha in NewHashes(d);
    var j :| QueuedAt(outcomes, j, d[i].sha);
    assert Agrees(d[j], outcomes[j].action);
    assert d[j] == d[i];
  }

  /** Two complete batches over the same start, in whatever orders, register the same hashes with the same statuses
      and queue the same ones; a job that ends differently is one of several with the same new content. */
  lemma SchedulesAgree(jobs: seq<Job>, d: seq<Action>, s: Snapshot, a: Snapshot, b: Snapshot, x: seq<Outcome>,
                       y: seq<Outcome>)
    requires OrderFree(jobs, d, s, a, x) && OrderFree(jobs, d, s, b, y)
    ensures a.registry.Keys == b.registry.Keys
    ensures forall sha :: sha in a.registry ==> a.registry[sha].status == b.registry[sha].status
    ensures QueuedShas(x) == QueuedShas(y)
    ensures forall i :: 0 <= i < |jobs| && x[i].action != y[i].action ==> d[i].Queued? && HasTwin(d, i)
    ensures forall i :: 0 <= i < |jobs| && x[i].action != y[i].action ==>
      x[i].action in {d[i], Discarded(IsPending, d[i].sha, false)}
  {
    QueuedAreNew(jobs, d, s, a, x);
    QueuedAreNew(jobs, d, s, b, y);
    forall i | 0 <= i < |jobs| && x[i].action != y[i].action
      ensures d[i].Queued? && HasTwin(d, i) && x[i].action in {d[i], Discarded(IsPending, d[i].sha, false)}
    {
      assert Agrees(d[i], x[i].action) && Agrees(d[i], y[i].action);
      if x[i].action == d[i] {
        DiscardedHasTwin(jobs, d, s, b, y, i);
      } else {
        DiscardedHasTwin(jobs, d, s, a, x, i);
      }
    }
  }

  // ---- the batch summary ----

  function Count(outcomes: seq<Outcome>, p: Action -> bool): nat {
    if outcomes == [] then 0
    else Count(outcomes[..|outcomes| - 1], p) + (if p(outcomes[|outcomes| - 1].action) then 1 else 0)
  }

  /** The counters of `IngestBatchResult`; a block-rule hit is reported as `discard_rejected`. */
  datatype Summary = Summary(pending: nat, discarded: nat, prefilterHits: nat, prefilterMisses: nat, sizeMismatch: nat,
                             zeroRejected: nat, zeroQuarantined: nat)

  predicate IsDiscard(a: Action) {
    a.Discarded? || a.Blocked? || a.MissingStaged?
  }

  predicate IsHit(a: Action) {
    a.Discarded? && a.prefilter
  }

  function Summarize(outcomes: seq<Outcome>): Summary {
    Summary(Count(outcomes, (a: Action) => a.Queued?), Count(outcomes, (a: Action) => IsDiscard(a)),
            Count(outcomes, (a: Action) => IsHit(a)), Count(outcomes, (a: Action) => !IsHit(a)),
            Count(outcomes, (a: Action) => a.SizeMismatched?),
            Count(outcomes, (a: Action) => a.ZeroRejected?), Count(outcomes, (a: Action) => a.ZeroQuarantined?))
  }

  /** Every outcome is counted once. */
  lemma {:induction false} CountersCoverBatch(outcomes: seq<Outcome>)
    ensures var m := Summarize(outcomes);
            m.pending + m.discarded + m.sizeMismatch + m.zeroRejected + m.zeroQuarantined == |outcomes| &&
            m.prefilterHits + m.prefilterMisses == |outcomes|
  {
    if outcomes == [] {
    } else {
      CountersCoverBatch(outcomes[..|outcomes| - 1]);
    }
  }

  lemma QueuedShasSnoc(outcomes: seq<Outcome>)
    requires outcomes != []
    ensures var last := outcomes[|outcomes| - 1].action;
            QueuedShas(outcomes) == QueuedShas(outcomes[..|outcomes| - 1]) + (if last.Queued? then {last.sha} else {})
  {
    var n := |outcomes| - 1;
    var init := outcomes[..n];
    forall sha | sha in QueuedShas(outcomes) && !(outcomes[n].action == Queued(sha)) ensures sha in QueuedShas(init) {
      var i :| 0 <= i < |outcomes| && outcomes[i].action.Queued? && outcomes[i].action.sha == sha;
      assert init[i] == outcomes[i];
    }
    forall sha | sha in QueuedShas(init) ensures sha in QueuedShas(outcomes) {
      var i :| 0 <= i < n && init[i].action.Queued? && init[i].action.sha == sha;
      assert init[i] == outcomes[i];
    }
  }

  lemma {:induction false} PendingCountsShas(outcomes: seq<Outcome>)
    requires QueuedOnce(outcomes)
    ensures Summarize(outcomes).pending == |QueuedShas(outcomes)|
  {
    if outcomes == [] {
      assert QueuedShas(outcomes) == {};
    } else {
      var init, last := outcomes[..|outcomes| - 1], outcomes[|outcomes| - 1];
      assert forall i, sha :: QueuedAt(init, i, sha) ==> QueuedAt(outcomes, i, sha);
      PendingCountsShas(init);
      QueuedShasSnoc(outcomes);
      if last.action.Queued? {
        assert QueuedAt(outcomes, |init|, last.action.sha);
        forall i | 0 <= i < |init| && init[i].action.Queued? ensures init[i].action.sha != last.action.sha {
          assert QueuedAt(outcomes, i, init[i].action.sha);
        }
      }
    }
  }

  /** The pending counter of a complete batch is the number of hashes it adds, in every schedule. */
  lemma PendingIsNewHashes(jobs: seq<Job>, d: seq<Action>, s: Snapshot, now: Snapshot, outcomes: seq<Outcome>)
    requires OrderFree(jobs, d, s, now, outcomes)
    ensures Summarize(outcomes).pending == |NewHashes(d)|
  {
    assert QueuedOnce(outcomes);
    QueuedAreNew(jobs, d, s, now, outcomes);
    PendingCountsShas(outcomes);
  }
}
