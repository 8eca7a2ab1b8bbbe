/** Ingest and the operator commands over registry and files (`ingest.py`, `reject.py`). */
module Lifecycle {
  import opened Storage
  import opened Wrappers
  import opened Records
  import opened Trail
  import J = Journal

  datatype Order =
    | IngestOrder(c: Staged, o: Options, op: string)
    | AcceptOrder(sha: Sha, base: Path, samePool: bool, copied: Bytes)
    | RejectOrder(sha: Sha, base: Path)
    | PurgeOrder(sha: Sha)
    | TrashOrder(bases: Path -> Path)

  ghost predicate GoodOrder(o: Order) {
    match o
    case IngestOrder(c, o, _) => c.staging.root == Staging && GoodOptions(o)
    case AcceptOrder(_, base, _, _) => base.root == Accepted && !TmpName(base)
    case RejectOrder(_, base) => base.root == Rejected && !TmpName(base)
    case PurgeOrder(_) => true
    case TrashOrder(bases) => forall p :: bases(p).root == Rejected && !TmpName(bases(p))
  }

  ghost predicate Purged(commands: seq<Order>, sha: Sha) {
    exists i :: 0 <= i < |commands| && commands[i] == PurgeOrder(sha)
  }

  lemma PurgedSnoc(commands: seq<Order>, i: nat, sha: Sha)
    requires i < |commands|
    ensures Purged(commands[..i + 1], sha) <==> Purged(commands[..i], sha) || commands[i] == PurgeOrder(sha)
  {
    assert commands[..i + 1][i] == commands[i];
    assert forall k :: 0 <= k < i ==> commands[..i + 1][k] == commands[..i][k];
  }

  /** A rejection moves a file: the incoming one for unknown content, the recorded one for known content. */
  predicate RejectMoves(registry: Registry, files: Files, sha: Sha, incoming: Option<Path>) {
    if sha in registry then !registry[sha].status.IsRejected? && registry[sha].path.Some?
    else incoming.Some? && incoming.value in files
  }

  class Pipeline {
    const disk: Disk
    var registry: Registry
    var meta: MetaIndex
    /** Keys by the hash they were last seen with (`file_origins`). */
    var origins: map<Key, Sha>
    /** The lifecycle journal. */
    var lines: seq<J.Line>
    /** The states the operation in progress, or the last one, has been through. */
    ghost var moments: seq<Moment>
    /** How many states the disk had been in when that operation began. */
    ghost var begun: nat

    constructor (disk: Disk)
      requires disk.Valid()
      ensures Valid() && this.disk == disk && registry == map[] && meta == map[] && lines == []
    {
      this.disk := disk;
      registry, meta, origins, lines, moments, begun := map[], map[], map[], [], [], 0;
    }

    /** The path invariant, and no metadata row without a record. */
    ghost predicate Valid()
      reads this, disk
    {
      disk.Valid() && Sound(registry, disk.files) && forall k :: k in meta ==> meta[k].sha in registry
    }

    ghost function Shot(): Snapshot
      reads this, disk
    {
      Snapshot(disk.files, registry, meta, origins)
    }

    ghost function Now(): Moment
      reads this, disk
    {
      Moment(disk.files, registry, lines)
    }

    /** The operation is under way and nothing of it has landed. */
    ghost predicate Running(op: Operation)
      reads this, disk
    {
      Valid() && OwnPlain(lines, op) && Traced(moments, Now(), op, disk.states, begun)
    }

    /** A journal line without destination (`_journal_append`). */
    method Note(op: Operation, phase: string)
      requires Running(op) && phase != "" && phase != J.PERSISTED
      modifies this`lines, this`moments
      ensures Running(op) && lines == old(lines) + [LineOf(op, phase, None)]
    {
      PlainIsSound(Now(), op);
      TracedLine(moments, Now(), op, disk.states, begun, LineOf(op, phase, None));
      moments := moments + Writing(Now(), LineOf(op, phase, None));
      lines := lines + [LineOf(op, phase, None)];
    }

    /** Delete or move away a file that no record points to. */
    method Discard(p: Path, target: Option<Path>)
      requires Valid() && p.root in {Staging, Trash}
      requires (target.Some? ==> target.value.root == Quarantine && p in disk.files)
      modifies disk
      ensures Valid() && Keeps(old(disk.files), disk.files) && disk.states == old(disk.states) + [disk.files]
      ensures target.None? ==> disk.files == old(disk.files) - {p}
      ensures target.Some? ==> disk.files == (old(disk.files) - {p})[target.value := old(disk.files)[p]]
    {
      ghost var before := disk.files;
      if target.None? {
        KeepsDrop(disk.files, {p});
        disk.Set(disk.files - {p});
      } else {
        KeepsAdd(disk.files, p, target.value);
        disk.Set((disk.files - {p})[target.value := disk.files[p]]);
      }
      forall q | Recorded(registry, q) ensures q in before && q in disk.files && disk.files[q] == before[q] {
        RecordedPlaces(registry, before, q);
      }
      SoundElsewhere(registry, before, disk.files);
    }

    /** The staged file goes. */
    method DropStaged(op: Operation, target: Option<Path>)
      requires Running(op) && op.staging.root == Staging && op.staging in disk.files
      requires target.Some? ==> target.value.root == Quarantine
      modifies disk, this`moments
      ensures old(disk.states) <= disk.states
      ensures Running(op) && Keeps(old(disk.files), disk.files) && op.staging !in disk.files
      ensures OtherStagedSame(old(disk.files), disk.files, op.staging)
      ensures target.None? ==> disk.files == old(disk.files) - {op.staging}
      ensures target.Some? ==>
        disk.files == (old(disk.files) - {op.staging})[target.value := old(disk.files)[op.staging]]
    {
      ghost var states, before := disk.states, Now();
      Discard(op.staging, target);
      PlainIsSound(Now(), op);
      ghost var more := MomentsOf(disk.states[|states|..], registry, lines);
      assert more == [Now()];
      TracedStates(moments, before, op, states, disk.states, begun);
      moments := moments + more;
    }

    /** Pick a free destination and move the file there; on failure only a `.tmp` sibling can be gone. */
    method Relocate(source: Path, base: Path, max: int, samePool: bool, copied: Bytes)
      returns (r: Moving, ghost dropped: set<Path>)
      requires Valid() && source.root != base.root && InQueue(base) && source in disk.files
      modifies disk
      ensures disk.Valid() && old(disk.states) <= disk.states && Keeps(old(disk.files), disk.files)
      ensures r.At? ==>
        r.path !in old(disk.files) && r.path.root == base.root && !TmpName(r.path) && dropped <= {Tmp(r.path)}
      ensures r.At? ==> disk.files == (old(disk.files) - {source} - dropped)[r.path := old(disk.files)[source]]
      ensures !r.At? ==> disk.files == old(disk.files) - dropped
      ensures r.Full? <==> AllNamesTaken(old(disk.files), base, max)
      ensures r.Full? ==> disk.files == old(disk.files)
      ensures r.Broken? <==>
        !AllNamesTaken(old(disk.files), base, max) && !samePool && copied != old(disk.files)[source]
      ensures r.At? ==> IsLowestFree(old(disk.files), base, max, r.path)
      ensures forall p :: p in dropped ==> TmpName(p) && p.root == base.root
      ensures forall k :: |old(disk.states)| <= k < |disk.states| ==> StandsBut(old(disk.files), disk.states[k], source)
    {
      dropped := {};
      var choice := ChooseDestination(disk.files, base, max);
      if !choice.Chosen? {
        assert disk.files == disk.files - dropped;
        return Full, dropped;
      }
      ghost var k: nat :| LowestFree(disk.files, base, k) && choice.path == Candidate(base, k);
      NumberedNotTmp(base, k);
      TmpIsTmpName(choice.path);
      ghost var before, from := disk.files, |disk.states|;
      var commit := disk.CommitFile(source, choice.path, samePool, base.root, copied);
      forall k | from <= k < |disk.states| ensures StandsBut(before, disk.states[k], source) {
        ghost var changed := {source, choice.path} + (if samePool then {} else {Tmp(choice.path)});
        FrameStands(before, disk.states[k], source, changed);
      }
      dropped := if samePool || commit.SameFile? then {} else {Tmp(choice.path)};
      if commit.Moved? {
        KeepsMove(before, source, choice.path, dropped);
        return At(choice.path), dropped;
      }
      KeepsDrop(before, dropped);
      return Broken(commit), dropped;
    }

    /** Which exit is taken before the file is hashed, if any: wrong size, empty, or known by its metadata. */
    method Judge(c: Staged, o: Options) returns (a: Option<Action>)
      requires c.staging in disk.files
      ensures var decided := Decide(c, o, Some(disk.files[c.staging]), registry, meta);
              && (a.Some? ==> decided == a.value && Early(decided) && !decided.MissingStaged?)
              && (a.None? ==> decided == DecideHashed(o.blocked, Sha256(disk.files[c.staging]), registry))
    {
      var content := disk.files[c.staging];
      if o.verifySize && c.size.Some? && c.size.value != |content| {
        return Some(SizeMismatched);
      }
      if |content| == 0 && o.zero.RejectZero? {
        return Some(ZeroRejected);
      }
      if |content| == 0 && o.zero.QuarantineZero? {
        return Some(ZeroQuarantined);
      }
      var hit := Prefilter(c, registry, meta);
      if hit.Some? {
        return Some(Discarded(registry[hit.value].status, hit.value, true));
      }
      return None;
    }

    /** What an exit before hashing does. */
    method Exit(c: Staged, o: Options, op: Operation, a: Action)
      requires Running(op) && op.staging == c.staging && c.staging.root == Staging && GoodOptions(o)
      requires |op.base| < |lines|
      requires c.staging in disk.files && Early(a) && !a.MissingStaged?
      modifies this`lines, this`moments, disk
      ensures old(disk.states) <= disk.states && Running(op) && |op.base| < |lines|
      ensures IngestEffect(old(Shot()), Shot(), c, o, Ingested(a, None), a)
      ensures Tracked(moments, Now(), op, Ingested(a, None), disk.states, begun)
    {
      if a.SizeMismatched? {
        Note(op, "size_mismatch");
      }
      DropStaged(op, ExitTarget(o, a));
      EarlyEffect(old(Shot()), Shot(), c, o, a);
      PlainTracked(moments, Now(), op, Ingested(a, None), disk.states, begun);
    }

    /** The exits before the file is hashed, with what they do. */
    method Screen(c: Staged, o: Options, op: Operation) returns (r: Option<Ingest>)
      requires Running(op) && op.staging == c.staging && c.staging.root == Staging
      requires GoodOptions(o) && |op.base| < |lines|
      modifies this`lines, this`moments, disk
      ensures old(disk.states) <= disk.states
      ensures Running(op) && |op.base| < |lines|
      ensures r.Some? ==> Tracked(moments, Now(), op, r.value, disk.states, begun)
      ensures var decided := Decide(c, o, Content(old(disk.files), c.staging), registry, meta);
              && (r.Some? ==> IngestEffect(old(Shot()), Shot(), c, o, r.value, decided))
              && (r.None? ==> Shot() == old(Shot()) && c.staging in disk.files)
              && (r.None? ==> decided == DecideHashed(o.blocked, Sha256(disk.files[c.staging]), registry))
    {
      if c.staging !in disk.files {
        Note(op, "missing_staged");
        r := Some(Ingested(MissingStaged, None));
        MissingEffect(Shot(), c, o);
        PlainTracked(moments, Now(), op, r.value, disk.states, begun);
        return;
      }
      var exit := Judge(c, o);
      if exit.None? {
        return None;
      }
      Exit(c, o, op, exit.value);
      return Some(Ingested(exit.value, None));
    }

    /** The file has been moved: `storage_committed`, the registry transaction, `registry_persisted`. */
    method Land(c: Staged, op: Operation, sha: Sha, d: Path, size: nat)
      requires Running(op) && sha !in registry && d.root == Pending && d in disk.files && Sha256(disk.files[d]) == sha
      requires Sound(registry[sha := Record(IsPending, Some(d))], disk.files)
      modifies this`registry, this`meta, this`origins, this`lines, this`moments
      ensures Valid() && registry == old(registry)[sha := Record(IsPending, Some(d))]
      ensures meta == old(meta)[c.key := MetaRow(size, c.modified, sha)] && origins == old(origins)[c.key := sha]
      ensures Tracked(moments, Now(), op, Ingested(Queued(sha), Some(d)), disk.states, begun)
    {
      ghost var next := registry[sha := Record(IsPending, Some(d))];
      assert next[sha].path == Some(d);
      LandTrail(moments, Now(), next, op, d, disk.states, begun);
      ghost var steps, end := LandMoments(Now(), next, op, d), LandEnd(Now(), next, op, d);
      lines := lines + [LineOf(op, COMMITTED, Some(d))];
      assert Now() == steps[1];
      registry := registry[sha := Record(IsPending, Some(d))];
      meta := meta[c.key := MetaRow(size, c.modified, sha)];
      origins := origins[c.key := sha];
      assert Now() == steps[2];
      lines := lines + [LineOf(op, J.PERSISTED, Some(d))];
      assert Now() == end;
      moments := moments + steps;
    }

    /** The move of a staged file of unknown hash: nothing is recorded yet, and nothing stands in the way of it. */
    method Arrive(c: Staged, o: Options, sha: Sha, op: Operation) returns (moved: Moving)
      requires Running(op) && op.staging == c.staging && c.staging.root == Staging && GoodOptions(o)
      requires c.staging in disk.files && sha == Sha256(disk.files[c.staging]) && sha !in registry
      modifies this`moments, disk
      ensures old(disk.states) <= disk.states
      ensures Running(op) && Keeps(old(disk.files), disk.files)
      ensures OtherStagedSame(old(disk.files), disk.files, c.staging)
      ensures moved.At? ==>
        moved.path in disk.files && moved.path.root == Pending && Sha256(disk.files[moved.path]) == sha
      ensures moved.At? ==> c.staging !in disk.files
      ensures moved.At? ==> Sound(registry[sha := Record(IsPending, Some(moved.path))], disk.files)
      ensures moved.Full? <==> AllNamesTaken(old(disk.files), o.base, o.collisionMax)
      ensures moved.Full? ==> disk.files == old(disk.files)
      ensures moved.Broken? <==>
        !AllNamesTaken(old(disk.files), o.base, o.collisionMax) && !o.samePool && o.copied != old(disk.files)[c.staging]
      ensures moved.Broken? ==> Content(disk.files, c.staging) == Content(old(disk.files), c.staging)
      ensures moved.At? ==> IsLowestFree(old(disk.files), o.base, o.collisionMax, moved.path)
      ensures moved.At? ==> MovedTo(old(disk.files), disk.files, c.staging, moved.path)
    {
      ghost var states, was := disk.states, Now();
      ghost var dropped;
      moved, dropped := Relocate(c.staging, o.base, o.collisionMax, o.samePool, o.copied);
      StatesAreSound(disk.states[|states|..], was.files, registry, lines, op);
      TracedStates(moments, was, op, states, disk.states, begun);
      moments := moments + MomentsOf(disk.states[|states|..], registry, lines);
      if moved.At? {
        ArrivedSound(registry, was.files, sha, c.staging, moved.path, dropped);
        assert MovedDropping(was.files, disk.files, c.staging, moved.path, dropped);
      } else {
        SoundDrop(registry, was.files, dropped);
      }
    }

    /** A new hash: the file is moved, the journal told, the registry written, the journal told again. */
    method Enqueue(c: Staged, o: Options, sha: Sha, op: Operation) returns (r: Ingest)
      requires Running(op) && op.staging == c.staging && c.staging.root == Staging && GoodOptions(o)
      requires c.staging in disk.files && sha == Sha256(disk.files[c.staging])
      requires sha !in registry && |op.base| < |lines|
      modifies this`registry, this`meta, this`origins, this`lines, this`moments, disk
      ensures old(disk.states) <= disk.states
      ensures Valid() && IngestEffect(old(Shot()), Shot(), c, o, r, Queued(sha))
      ensures Tracked(moments, Now(), op, r, disk.states, begun)
    {
      var size := |disk.files[c.staging]|;
      var moved := Arrive(c, o, sha, op);
      if !moved.At? {
        r := if moved.Full? then CollisionLimit else CommitFailed(moved.why);
        PlainTracked(moments, Now(), op, r, disk.states, begun);
        FailedEffect(old(Shot()), Shot(), c, o, r, sha);
        return;
      }
      Land(c, op, sha, moved.path, size);
      QueuedEffect(old(Shot()), Shot(), c, o, sha, moved.path);
      return Ingested(Queued(sha), Some(moved.path));
    }

    /** The registry transaction of an ingest that queues nothing, and the line that closes it. */
    method Update(c: Staged, op: Operation, action: Action, sha: Sha, size: nat)
      requires Running(op) && (action == Blocked(sha) || (action.Discarded? && sha in registry))
      modifies this`registry, this`meta, this`origins, this`lines, this`moments
      ensures Valid() && registry == Registered(old(registry), action, None)
      ensures meta == old(meta)[c.key := MetaRow(size, c.modified, sha)] && origins == old(origins)[c.key := sha]
      ensures Tracked(moments, Now(), op, Ingested(action, None), disk.states, begun)
    {
      ghost var was := Now();
      RegisteredIsSound(registry, disk.files, action);
      registry := Registered(registry, action, None);
      meta := meta[c.key := MetaRow(size, c.modified, sha)];
      origins := origins[c.key := sha];
      PlainIsSound(Now(), op);
      TracedRegistry(moments, was, op, disk.states, begun, Now());
      moments := moments + [Now()];
      ClosedTracked(moments, Now(), op, Ingested(action, None), disk.states, begun);
      moments := moments + Writing(Now(), LineOf(op, J.PERSISTED, None));
      lines := lines + [LineOf(op, J.PERSISTED, None)];
    }

    /** A hash that is known or blocked by name: the staged file goes and the registry is brought up to date. */
    method Settle(c: Staged, o: Options, sha: Sha, op: Operation) returns (r: Ingest)
      requires Running(op) && op.staging == c.staging && c.staging.root == Staging
      requires c.staging in disk.files && sha == Sha256(disk.files[c.staging]) && (o.blocked || sha in registry)
      modifies this`registry, this`meta, this`origins, this`lines, this`moments, disk
      ensures old(disk.states) <= disk.states
      ensures Valid() && IngestEffect(old(Shot()), Shot(), c, o, r, DecideHashed(o.blocked, sha, old(registry)))
      ensures Tracked(moments, Now(), op, r, disk.states, begun)
    {
      var size := |disk.files[c.staging]|;
      DropStaged(op, None);
      var action := if o.blocked then Blocked(sha) else Discarded(registry[sha].status, sha, false);
      Update(c, op, action, sha, size);
      return Ingested(action, None);
    }

    /** The second half: the file's hash is known and the prefilter did not match. */
    method ProcessHashed(c: Staged, o: Options, sha: Sha, op: Operation) returns (r: Ingest)
      requires Running(op) && op.staging == c.staging && c.staging.root == Staging && GoodOptions(o)
      requires c.staging in disk.files && sha == Sha256(disk.files[c.staging]) && |op.base| < |lines|
      modifies this`registry, this`meta, this`origins, this`lines, this`moments, disk
      ensures old(disk.states) <= disk.states
      ensures Valid() && IngestEffect(old(Shot()), Shot(), c, o, r, DecideHashed(o.blocked, sha, old(registry)))
      ensures Tracked(moments, Now(), op, r, disk.states, begun)
    {
      if !o.blocked && sha !in registry {
        r := Enqueue(c, o, sha, op);
        return;
      }
      r := Settle(c, o, sha, op);
    }

    /** Screening, then hashing. */
    method Proceed(c: Staged, o: Options, op: Operation) returns (r: Ingest)
      requires Running(op) && op.staging == c.staging && c.staging.root == Staging
      requires GoodOptions(o) && |op.base| < |lines|
      modifies this`registry, this`meta, this`origins, this`lines, this`moments, disk
      ensures old(disk.states) <= disk.states
      ensures Valid() && Tracked(moments, Now(), op, r, disk.states, begun)
      ensures var staged := Content(old(disk.files), c.staging);
              IngestEffect(old(Shot()), Shot(), c, o, r, Decide(c, o, staged, old(registry), old(meta)))
    {
      var early := Screen(c, o, op);
      if early.Some? {
        return early.value;
      }
      var sha := Sha256(disk.files[c.staging]);
      Note(op, "hash_completed");
      r := ProcessHashed(c, o, sha, op);
    }

    /** One staged candidate through the decision matrix. At every moment on the way the path invariant holds; a queued
        file passes through the moment at which the registry knows it and the journal does not say so yet. */
    method ProcessOne(c: Staged, o: Options, id: string) returns (r: Ingest)
      requires Valid() && c.staging.root == Staging && GoodOptions(o)
      modifies this`registry, this`meta, this`origins, this`lines, this`moments, this`begun, disk
      ensures Valid()
      ensures var staged := Content(old(disk.files), c.staging);
              IngestEffect(old(Shot()), Shot(), c, o, r, Decide(c, o, staged, old(registry), old(meta)))
      ensures IngestMeans(old(Shot()), Shot(), c, o, r)
      ensures Tracked(moments, Now(), Operation(old(lines), id, c.staging), r, disk.states, |old(disk.states)|)
      ensures old(disk.states) <= disk.states
    {
      var op := Operation(lines, id, c.staging);
      moments, begun := [Now()], |disk.states|;
      PlainIsSound(Now(), op);
      Note(op, "ingest_started");
      r := Proceed(c, o, op);
      EffectMeans(old(Shot()), Shot(), c, o, r);
    }

    /** The move of a pending file and the record of it. */
    method MoveAccepted(sha: Sha, base: Path, samePool: bool, copied: Bytes) returns (r: Command)
      requires Valid() && base.root == Accepted && !TmpName(base) && sha in registry && registry[sha].status.IsPending?
      modifies this`registry, this`moments, disk
      ensures Valid() && Keeps(old(disk.files), disk.files) && r in {Done, NoFreeName, CopyFailed}
      ensures SoundUntilLeft(moments, old(registry)[sha].path, old(disk.files)) && Ends(moments, Now())
      ensures CoversStates(moments, disk.states, |old(disk.states)|)
      ensures r.Done? ==> sha in registry && registry == old(registry)[sha := Record(IsAccepted, registry[sha].path)]
      ensures !r.Done? ==> registry == old(registry)
      ensures r.NoFreeName? <==> AllNamesTaken(old(disk.files), base, 10_000)
      ensures r.CopyFailed? <==> !AllNamesTaken(old(disk.files), base, 10_000) && !samePool && copied != sha.content
      ensures r.Done? ==>
        registry[sha].path.Some? && IsLowestFree(old(disk.files), base, 10_000, registry[sha].path.value)
    {
      ghost var was, from := Now(), |disk.states|;
      var record := registry[sha];
      assert RecordSound(sha, record, disk.files); // so the guards on a missing or stray path cannot fire
      var source := record.path.value;
      var moved, dropped := Relocate(source, base, 10_000, samePool, copied);
      ghost var gone := [was] + MomentsOf(disk.states[from..], registry, lines);
      if !moved.At? {
        SoundDrop(registry, was.files, dropped);
        moments := gone;
        assert gone + [] == gone;
        DepartureCovered(disk.states, from, was, sha, []);
        return if moved.Full? then NoFreeName else CopyFailed;
      }
      OnlyOwner(registry, was.files, sha);
      SoundMove(registry, was.files, sha, source, moved.path, dropped, IsAccepted);
      registry := registry[sha := Record(IsAccepted, Some(moved.path))];
      DepartureCovered(disk.states, from, was, sha, [Now()]);
      moments := gone + [Now()];
      return Done;
    }

    /** `accept_sha256`: a pending file moves to the accepted root. `base` is the rendered destination. */
    method AcceptSha(sha: Sha, base: Path, samePool: bool, copied: Bytes) returns (r: Command)
      requires Valid() && base.root == Accepted && !TmpName(base)
      modifies this`registry, this`moments, disk
      ensures Valid() && Keeps(old(disk.files), disk.files)
      ensures SoundUntilLeft(moments, Place(old(registry), sha), old(disk.files)) && Ends(moments, Now())
      ensures CoversStates(moments, disk.states, |old(disk.states)|)
      ensures r.NoOrigin? <==> !HasOrigin(origins, sha)
      ensures r.UnknownSha? <==> HasOrigin(origins, sha) && sha !in old(registry)
      ensures r.WrongStatus? <==>
        HasOrigin(origins, sha) && sha in old(registry) && !old(registry)[sha].status.IsPending?
      ensures r in {NoOrigin, UnknownSha, WrongStatus, NoFreeName, CopyFailed, Done}
      ensures r.Done? ==> sha in registry && registry == old(registry)[sha := Record(IsAccepted, registry[sha].path)]
      ensures !r.Done? ==> registry == old(registry)
      ensures r.NoFreeName? ==> AllNamesTaken(old(disk.files), base, 10_000)
      ensures r.CopyFailed? ==>
        !AllNamesTaken(old(disk.files), base, 10_000) && !samePool && copied != sha.content
      ensures r.Done? ==> !AllNamesTaken(old(disk.files), base, 10_000) && (samePool || copied == sha.content)
      ensures r.Done? ==>
        registry[sha].path.Some? && IsLowestFree(old(disk.files), base, 10_000, registry[sha].path.value)
    {
      moments := [Now()];
      if !HasOrigin(origins, sha) {
        return NoOrigin;
      }
      if sha !in registry {
        return UnknownSha;
      }
      if !registry[sha].status.IsPending? {
        return WrongStatus;
      }
      r := MoveAccepted(sha, base, samePool, copied);
    }

    /** `_move_physical_to_rejected`: a plain rename to a free name. */
    method RenameToRejected(source: Path, base: Path) returns (dest: Option<Path>)
      requires Valid() && base.root == Rejected && source.root != Rejected && !TmpName(base) && source in disk.files
      modifies disk
      ensures disk.Valid() && Keeps(old(disk.files), disk.files)
      ensures dest.None? ==> disk.files == old(disk.files) && disk.states == old(disk.states)
      ensures dest.Some? ==> disk.states == old(disk.states) + [disk.files]
      ensures dest.None? <==> AllNamesTaken(old(disk.files), base, 10_000)
      ensures dest.Some? ==> IsLowestFree(old(disk.files), base, 10_000, dest.value)
      ensures dest.Some? ==> dest.value !in old(disk.files) && dest.value.root == Rejected && !TmpName(dest.value)
      ensures dest.Some? ==> disk.files == (old(disk.files) - {source})[dest.value := old(disk.files)[source]]
    {
      var choice := ChooseDestination(disk.files, base, 10_000);
      if choice.LimitExceeded? {
        return None;
      }
      ghost var k: nat :| LowestFree(disk.files, base, k) && choice.path == Candidate(base, k);
      NumberedNotTmp(base, k);
      KeepsMove(disk.files, source, choice.path, {});
      assert disk.files - {source} - {} == disk.files - {source};
      disk.Set((disk.files - {source})[choice.path := disk.files[source]]);
      return Some(choice.path);
    }

    /** Content not on record: keep the incoming file, if there is one, and record the rejection. */
    method RejectUnknown(sha: Sha, base: Path, incoming: Option<Path>) returns (r: Command)
      requires Valid() && base.root == Rejected && !TmpName(base) && sha !in registry && moments == [Now()]
      requires incoming.Some? ==> incoming.value.root == Trash
      requires incoming.Some? && incoming.value in disk.files ==> Sha256(disk.files[incoming.value]) == sha
      modifies this`registry, this`moments, disk
      ensures Valid() && Keeps(old(disk.files), disk.files) && r in {RejectedUnknown, NoFreeName}
      ensures SoundUntilLeft(moments, None, old(disk.files)) && Ends(moments, Now())
      ensures CoversStates(moments, disk.states, |old(disk.states)|)
      ensures r.NoFreeName? ==> registry == old(registry) && disk.files == old(disk.files)
      ensures !r.NoFreeName? ==> sha in registry && registry == old(registry)[sha := registry[sha]]
      ensures !r.NoFreeName? ==> registry[sha].status.IsRejected?
      ensures r.NoFreeName? <==>
        incoming.Some? && incoming.value in old(disk.files) && AllNamesTaken(old(disk.files), base, 10_000)
      ensures !r.NoFreeName? && incoming.Some? && incoming.value in old(disk.files) ==>
        registry[sha].path.Some? && IsLowestFree(old(disk.files), base, 10_000, registry[sha].path.value)
      ensures incoming.None? || incoming.value !in old(disk.files) ==> registry[sha].path.None?
      ensures forall p: Path :: p.root == Trash && incoming != Some(p) ==>
        Content(disk.files, p) == Content(old(disk.files), p)
    {
      ghost var before, from := disk.files, |disk.states|;
      var kept: Option<Path> := None;
      if incoming.Some? && incoming.value in disk.files {
        kept := RenameToRejected(incoming.value, base);
        if kept.None? {
          return NoFreeName;
        }
        StagingIsUnrecorded(registry, before, incoming.value);
        assert before - {incoming.value} - {} == before - {incoming.value};
        SoundMove(registry, before, sha, incoming.value, kept.value, {}, IsRejected);
        SmallerRegistry(registry, sha, Record(IsRejected, kept), disk.files);
        moments := moments + [Now()];
        assert moments[1].files == disk.files;
      } else {
        RejectedNowhere(registry, disk.files, sha);
      }
      CoversMoreStates(moments, [Moment(disk.files, registry[sha := Record(IsRejected, kept)], lines)],
                       disk.states, disk.states, from);
      registry := registry[sha := Record(IsRejected, kept)];
      moments := moments + [Now()];
      return RejectedUnknown;
    }

    /** Content on record and not yet rejected: move the file, then the path, then the status. */
    method RejectKnown(sha: Sha, base: Path) returns (r: Command)
      requires Valid() && base.root == Rejected && !TmpName(base) && moments == [Now()]
      requires sha in registry && !registry[sha].status.IsRejected?
      modifies this`registry, this`moments, disk
      ensures Valid() && Keeps(old(disk.files), disk.files) && r in {Done, NoFreeName}
      ensures SoundUntilLeft(moments, Place(old(registry), sha), old(disk.files)) && Ends(moments, Now())
      ensures CoversStates(moments, disk.states, |old(disk.states)|)
      ensures r.NoFreeName? ==> registry == old(registry) && disk.files == old(disk.files)
      ensures !r.NoFreeName? ==> sha in registry && registry == old(registry)[sha := registry[sha]]
      ensures !r.NoFreeName? ==> registry[sha].status.IsRejected?
      ensures r.NoFreeName? <==> old(registry)[sha].path.Some? && AllNamesTaken(old(disk.files), base, 10_000)
      ensures !r.NoFreeName? ==> (registry[sha].path.Some? <==> old(registry)[sha].path.Some?)
      ensures !r.NoFreeName? && registry[sha].path.Some? ==>
        IsLowestFree(old(disk.files), base, 10_000, registry[sha].path.value)
      ensures forall p: Path :: p.root == Trash ==> Content(disk.files, p) == Content(old(disk.files), p)
    {
      ghost var before, was, from := disk.files, Now(), |disk.states|;
      var record := registry[sha];
      assert RecordSound(sha, record, disk.files); // so the recorded file exists, in a queue root
      if record.path.None? {
        RejectedNowhere(registry, disk.files, sha);
        registry := registry[sha := Record(IsRejected, None)];
        moments := moments + [Now()];
        return Done;
      }
      var source := record.path.value;
      var dest := RenameToRejected(source, base);
      if dest.None? {
        return NoFreeName;
      }
      OnlyOwner(registry, before, sha);
      assert before - {source} - {} == before - {source};
      SoundMove(registry, before, sha, source, dest.value, {}, IsRejected);
      ghost var final := RejectMoments(was, disk.files, sha, dest.value);
      RejectTrail(was, disk.files, sha, dest.value);
      DiskMomentsCover(was, disk.states, from, registry, lines);
      CoversMoreStates([was] + MomentsOf(disk.states[from..], registry, lines), final, disk.states, disk.states, from);
      assert disk.states[from..] == [disk.files];
      registry := registry[sha := Record(record.status, dest)];
      assert Now() == final[0];
      registry := registry[sha := Record(IsRejected, registry[sha].path)];
      assert Now() == final[1];
      moments := [was] + MomentsOf([disk.files], was.registry, lines) + final;
      return Done;
    }

    /** `_apply_reject` without live-photo pairs. `incoming` is a trash file with this hash, or nothing. */
    method ApplyReject(sha: Sha, base: Path, incoming: Option<Path>) returns (r: Command)
      requires Valid() && base.root == Rejected && !TmpName(base)
      requires incoming.Some? ==> incoming.value.root == Trash
      requires incoming.Some? && incoming.value in disk.files ==> Sha256(disk.files[incoming.value]) == sha
      modifies this`registry, this`moments, disk
      ensures Valid() && Keeps(old(disk.files), disk.files)
      ensures SoundUntilLeft(moments, Place(old(registry), sha), old(disk.files)) && Ends(moments, Now())
      ensures CoversStates(moments, disk.states, |old(disk.states)|)
      ensures r.NoFreeName? ==> registry == old(registry) && disk.files == old(disk.files)
      ensures !r.NoFreeName? ==> sha in registry && registry == old(registry)[sha := registry[sha]]
      ensures !r.NoFreeName? ==> registry[sha].status.IsRejected?
      ensures r.NoFreeName? <==>
        RejectMoves(old(registry), old(disk.files), sha, incoming) && AllNamesTaken(old(disk.files), base, 10_000)
      ensures r in {RejectedUnknown, Done} ==>
        (registry[sha].path.Some? <==> RejectMoves(old(registry), old(disk.files), sha, incoming))
      ensures r in {RejectedUnknown, Done} && registry[sha].path.Some? ==>
        IsLowestFree(old(disk.files), base, 10_000, registry[sha].path.value)
      ensures r == RejectedUnknown <==> sha !in old(registry) && !r.NoFreeName?
      ensures r == AlreadyRejected <==> sha in old(registry) && old(registry)[sha].status.IsRejected?
      ensures r == AlreadyRejected ==> registry == old(registry) && disk.files == old(disk.files)
      ensures r in {RejectedUnknown, AlreadyRejected, Done, NoFreeName}
      ensures forall p: Path :: p.root == Trash && incoming != Some(p) ==>
        Content(disk.files, p) == Content(old(disk.files), p)
    {
      moments := [Now()];
      if sha !in registry {
        r := RejectUnknown(sha, base, incoming);
      } else if registry[sha].status.IsRejected? {
        r := AlreadyRejected;
      } else {
        r := RejectKnown(sha, base);
      }
    }

    /** `purge_sha256`: delete the retained file of a rejected record. */
    method PurgeSha(sha: Sha) returns (r: Command)
      requires Valid()
      modifies this`registry, this`moments, disk
      ensures Valid()
      ensures SoundUntilLeft(moments, Place(old(registry), sha), old(disk.files)) && Ends(moments, Now())
      ensures CoversStates(moments, disk.states, |old(disk.states)|)
      ensures r.Done? <==> sha in old(registry) && old(registry)[sha].status.IsRejected?
      ensures r.Done? ==> registry == old(registry)[sha := Record(IsPurged, None)]
      ensures r.Done? ==> disk.files == old(disk.files) - PathSet(old(registry)[sha].path)
      ensures !r.Done? ==> registry == old(registry) && disk.files == old(disk.files)
      ensures forall other :: other != sha && Kept(old(disk.files), other) ==> Kept(disk.files, other)
    {
      moments := [Now()];
      if sha !in registry {
        return UnknownSha;
      }
      if !registry[sha].status.IsRejected? {
        return WrongStatus;
      }
      ghost var was, from := Now(), |disk.states|;
      var record := registry[sha];
      assert RecordSound(sha, record, disk.files); // so the guard against paths outside the root cannot fire
      PurgedSound(registry, disk.files, sha);
      if record.path.Some? {
        PurgeKeepsOthers(disk.files, record.path.value, sha);
        disk.Set(disk.files - {record.path.value});
      }
      ghost var gone := MomentsOf(disk.states[from..], registry, lines);
      DiskMomentsCover(was, disk.states, from, registry, lines);
      registry := registry[sha := Record(IsPurged, None)];
      PurgeTrail(was, disk.states[from..], sha, Now());
      CoversMoreStates([was] + gone, [Now()], disk.states, disk.states, from);
      moments := [was] + gone + [Now()];
      return Done;
    }

    /** One trash file: reject its content, then remove it. */
    method TrashOne(file: Path, base: Path) returns (r: Command)
      requires Valid() && base.root == Rejected && !TmpName(base) && file.root == Trash && file in disk.files
      modifies this`registry, this`moments, disk
      ensures Valid() && r in {RejectedUnknown, AlreadyRejected, Done, NoFreeName} && Keeps(old(disk.files), disk.files)
      ensures !r.NoFreeName? ==> file !in disk.files && Trashed(registry, old(disk.files)[file])
      ensures r.NoFreeName? ==> disk.files == old(disk.files) && AllNamesTaken(disk.files, base, 10_000)
      ensures forall p: Path :: p.root == Trash && p != file ==> Content(disk.files, p) == Content(old(disk.files), p)
      ensures Later(old(registry), registry)
      ensures forall content :: Trashed(old(registry), content) ==> Trashed(registry, content)
    {
      r := ApplyReject(Sha256(disk.files[file]), base, Some(file));
      if !r.NoFreeName? {
        Discard(file, None);
      }
    }

    /** `process_trash`: every file found in the trash is rejected by hash and removed. */
    method ProcessTrash(bases: Path -> Path) returns (ok: bool, processed: nat, rejected: nat, noop: nat, unknown: nat)
      requires Valid() && forall p :: bases(p).root == Rejected && !TmpName(bases(p))
      modifies this`registry, this`moments, disk
      ensures Valid() && Keeps(old(disk.files), disk.files)
      ensures processed == rejected + noop && unknown <= rejected
      ensures !ok ==> exists p :: p in disk.files && p.root == Trash && AllNamesTaken(disk.files, bases(p), 10_000)
      ensures ok ==> forall p :: p in disk.files ==> p.root != Trash
      ensures ok ==> forall p :: p in old(disk.files) && p.root == Trash ==> Trashed(registry, old(disk.files)[p])
      ensures ok ==> processed == |set p | p in old(disk.files) && p.root == Trash|
      ensures Later(old(registry), registry)
    {
      ok, processed, rejected, noop, unknown := true, 0, 0, 0, 0;
      var todo := set p | p in disk.files && p.root == Trash;
      ghost var all, files := todo, disk.files;
      while todo != {}
        invariant Valid() && Keeps(files, disk.files) && todo <= all && processed == |all| - |todo|
        invariant processed == rejected + noop && unknown <= rejected
        invariant forall p: Path :: p.root == Trash ==>
          Content(disk.files, p) == if p in todo then Content(files, p) else None
        invariant forall p :: p in all - todo ==> Trashed(registry, files[p])
        invariant Later(old(registry), registry)
        decreases todo
      {
        var file :| file in todo;
        var r := TrashOne(file, bases(file));
        if r.NoFreeName? {
          ok := false;
          return;
        }
        processed := processed + 1;
        todo := todo - {file};
        if r == RejectedUnknown {
          unknown, rejected := unknown + 1, rejected + 1;
        } else if r == AlreadyRejected {
          noop := noop + 1;
        } else {
          rejected := rejected + 1;
        }
      }
    }

    method TakeOne(order: Order)
      requires Valid() && GoodOrder(order)
      modifies this, disk
      ensures Valid() && Later(old(registry), registry)
      ensures forall sha :: Kept(old(disk.files), sha) && order != PurgeOrder(sha) ==> Kept(disk.files, sha)
    {
      match order
      case IngestOrder(c, o, op) => var r := ProcessOne(c, o, op);
      case AcceptOrder(sha, base, samePool, copied) => var r := AcceptSha(sha, base, samePool, copied);
      case RejectOrder(sha, base) => var r := ApplyReject(sha, base, None);
      case PurgeOrder(sha) => var r := PurgeSha(sha);
      case TrashOrder(bases) => var ok, n, m, k, u := ProcessTrash(bases);
    }

    /** Any run of completed commands keeps the path invariant; no record is lost, none turns pending again, and the
        content of a record with a path stays in the queues unless its hash is purged, even when a block rule clears
        the path. */
    method Run(commands: seq<Order>)
      requires Valid() && forall i :: 0 <= i < |commands| ==> GoodOrder(commands[i])
      modifies this, disk
      ensures Valid() && Later(old(registry), registry)
      ensures forall a, b ::
        a in registry && b in registry && registry[a].path.Some? && registry[a].path == registry[b].path ==> a == b
      ensures forall sha :: sha in old(registry) && old(registry)[sha].path.Some? && !Purged(commands, sha) ==>
        Kept(disk.files, sha)
    {
      ghost var files := disk.files;
      forall sha | sha in registry && registry[sha].path.Some? ensures Kept(files, sha) {
        RecordedIsKept(registry, files, sha);
      }
      for i := 0 to |commands|
        invariant Valid() && Later(old(registry), registry)
        invariant forall sha :: Kept(files, sha) && !Purged(commands[..i], sha) ==> Kept(disk.files, sha)
      {
        ghost var before := disk.files;
        TakeOne(commands[i]);
        forall sha | Kept(files, sha) && !Purged(commands[..i + 1], sha) ensures Kept(disk.files, sha) {
          PurgedSnoc(commands, i, sha);
          assert Kept(before, sha);
        }
      }
      assert commands[..|commands|] == commands;
      forall a, b | a in registry && b in registry && registry[a].path.Some? && registry[a].path == registry[b].path
        ensures a == b
      {
        PathsDistinct(registry, disk.files, a, b);
      }
    }
  }
}
