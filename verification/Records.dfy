/** Registry records and the files they point to (`registry.py`), the ingest decisions (`ingest.py`), and what keeps
    both consistent. */
module Records {
  import opened Storage
  import opened Wrappers

  datatype Status = IsPending | IsAccepted | IsRejected | IsPurged

  /** The columns of `files` that decide anything here. */
  datatype Record = Record(status: Status, path: Option<Path>)

  type Registry = map<Sha, Record>

  datatype Key = Key(account: string, onedriveId: string)

  datatype MetaRow = MetaRow(size: int, modified: string, sha: Sha)

  type MetaIndex = map<Key, MetaRow>

  /** Where a record of each status may point; what it points to has the recorded hash. */
  ghost predicate RecordSound(sha: Sha, r: Record, files: Files) {
    && (r.status.IsPending? ==> r.path.Some? && r.path.value.root == Pending)
    && (r.status.IsAccepted? ==> r.path.Some? && r.path.value.root == Accepted)
    && (r.status.IsRejected? && r.path.Some? ==> r.path.value.root == Rejected)
    && (r.status.IsPurged? ==> r.path.None?)
    && (r.path.Some? ==> r.path.value in files && Sha256(files[r.path.value]) == sha && !TmpName(r.path.value))
  }

  ghost predicate Sound(registry: Registry, files: Files) {
    forall sha :: sha in registry ==> RecordSound(sha, registry[sha], files)
  }

  ghost predicate Recorded(registry: Registry, p: Path) {
    exists sha :: sha in registry && registry[sha].path == Some(p)
  }

  /** No two records share a path. */
  lemma PathsDistinct(registry: Registry, files: Files, a: Sha, b: Sha)
    requires Sound(registry, files) && a in registry && b in registry
    requires registry[a].path.Some? && registry[a].path == registry[b].path
    ensures a == b
  {
    assert RecordSound(a, registry[a], files) && RecordSound(b, registry[b], files);
  }

  lemma SoundElsewhere(registry: Registry, files: Files, files': Files)
    requires Sound(registry, files)
    requires forall p :: Recorded(registry, p) ==> p in files && p in files' && files'[p] == files[p]
    ensures Sound(registry, files')
  {
    forall sha | sha in registry ensures RecordSound(sha, registry[sha], files') {
      assert RecordSound(sha, registry[sha], files);
      if registry[sha].path.Some? {
        assert Recorded(registry, registry[sha].path.value);
      }
    }
  }

  /** Recorded paths lie in the three queue roots and are no `.tmp` names. */
  lemma RecordedPlaces(registry: Registry, files: Files, p: Path)
    requires Sound(registry, files) && Recorded(registry, p)
    ensures p in files && p.root in {Pending, Accepted, Rejected} && !TmpName(p)
  {
    var sha :| sha in registry && registry[sha].path == Some(p);
    assert RecordSound(sha, registry[sha], files);
  }

  predicate Home(status: Status, root: Root) {
    match status
    case IsPending => root == Pending
    case IsAccepted => root == Accepted
    case IsRejected => root == Rejected
    case IsPurged => false
  }

  lemma TmpIsTmpName(p: Path)
    ensures TmpName(Tmp(p))
  {
    var n := p.name + ".tmp";
    assert n[|n| - 4..] == ".tmp";
  }

  /** Moving a file to a free path and recording it there keeps the invariant. */
  lemma SoundMove(registry: Registry, files: Files, sha: Sha, source: Path, dest: Path, dropped: set<Path>,
                  status: Status)
    requires Sound(registry, files) && source in files && Sha256(files[source]) == sha
    requires dest !in files && !TmpName(dest) && dropped <= {Tmp(dest)} && Home(status, dest.root)
    requires forall other :: other in registry && other != sha ==> registry[other].path != Some(source)
    ensures Sound(registry[sha := Record(status, Some(dest))], (files - {source} - dropped)[dest := files[source]])
  {
    var registry' := registry[sha := Record(status, Some(dest))];
    var files' := (files - {source} - dropped)[dest := files[source]];
    TmpIsTmpName(dest);
    forall s | s in registry' ensures RecordSound(s, registry'[s], files') {
      if s != sha {
        assert RecordSound(s, registry[s], files);
      }
    }
  }

  /** Losing a file that is no record's keeps the invariant. */
  lemma SoundDrop(registry: Registry, files: Files, dropped: set<Path>)
    requires Sound(registry, files) && forall p :: p in dropped ==>
      TmpName(p) || p.root !in {Pending, Accepted, Rejected}
    ensures Sound(registry, files - dropped)
  {
    forall q | Recorded(registry, q) ensures q in files && q in files - dropped && (files - dropped)[q] == files[q] {
      RecordedPlaces(registry, files, q);
    }
    SoundElsewhere(registry, files, files - dropped);
  }

  // ---- ingest decisions ----

  datatype ZeroPolicy = Allow | QuarantineZero | RejectZero

  datatype Staged = Staged(key: Key, size: Option<nat>, modified: string, staging: Path)

  /** Settings of one call: `quarantine` is the target a bad file would be moved to, `base` the rendered
      destination, `blocked` whether a rule matches the file name, `copied` what a cross-pool copy writes. */
  datatype Options = Options(verifySize: bool, zero: ZeroPolicy, quarantine: Option<Path>, samePool: bool,
                             collisionMax: int, blocked: bool, base: Path, copied: Bytes)

  datatype Action =
    | MissingStaged
    | SizeMismatched
    | ZeroRejected
    | ZeroQuarantined
    | Discarded(status: Status, sha: Sha, prefilter: bool)
    | Blocked(sha: Sha)
    | Queued(sha: Sha)

  /** `_prefilter_status`: the metadata row of the key, if size and time match and the hash has a record. */
  function Prefilter(c: Staged, registry: Registry, meta: MetaIndex): Option<Sha> {
    if c.key in meta
       && meta[c.key].size == (if c.size.Some? then c.size.value else -1)
       && meta[c.key].modified == c.modified
       && meta[c.key].sha in registry
    then Some(meta[c.key].sha) else None
  }

  function DecideHashed(blocked: bool, sha: Sha, registry: Registry): Action {
    if blocked then Blocked(sha)
    else if sha in registry then Discarded(registry[sha].status, sha, false)
    else Queued(sha)
  }

  /** The decision matrix of `_process_one`, as a function of what it reads. */
  function Decide(c: Staged, o: Options, staged: Option<Bytes>, registry: Registry, meta: MetaIndex): Action {
    if staged.None? then MissingStaged
    else if o.verifySize && c.size.Some? && c.size.value != |staged.value| then SizeMismatched
    else if |staged.value| == 0 && o.zero.RejectZero? then ZeroRejected
    else if |staged.value| == 0 && o.zero.QuarantineZero? then ZeroQuarantined
    else
      match Prefilter(c, registry, meta)
      case Some(sha) => Discarded(registry[sha].status, sha, true)
      case None => DecideHashed(o.blocked, Sha256(staged.value), registry)
  }

  /** The actions taken before the file is hashed. */
  predicate Early(a: Action) {
    a.MissingStaged? || a.SizeMismatched? || a.ZeroRejected? || a.ZeroQuarantined? || (a.Discarded? && a.prefilter)
  }

  datatype Ingest = Ingested(action: Action, destination: Option<Path>) | CollisionLimit | CommitFailed(why: Commit)

  ghost predicate GoodOptions(o: Options) {
    && o.base.root == Pending && !TmpName(o.base)
    && (o.quarantine.Some? ==> o.quarantine.value.root == Quarantine)
  }

  ghost predicate Later(r: Registry, r': Registry) {
    forall sha :: sha in r ==> sha in r' && (r'[sha].status.IsPending? ==> r[sha].status.IsPending?)
  }

  datatype Command =
    | Done | RejectedUnknown | AlreadyRejected
    | NoOrigin | UnknownSha | WrongStatus | NoFreeName | CopyFailed

  /** The content is on record as rejected. */
  ghost predicate Trashed(registry: Registry, content: Bytes) {
    Sha256(content) in registry && registry[Sha256(content)].status.IsRejected?
  }

  function PathSet(p: Option<Path>): set<Path> {
    if p.Some? then {p.value} else {}
  }

  predicate HasOrigin(origins: map<Key, Sha>, sha: Sha) {
    exists k :: k in origins && origins[k] == sha
  }

  lemma OnlyOwner(registry: Registry, files: Files, sha: Sha)
    requires Sound(registry, files) && sha in registry
    ensures forall other :: other in registry && other != sha && registry[sha].path.Some? ==>
      registry[other].path != registry[sha].path
  {
    forall other | other in registry && other != sha && registry[sha].path.Some?
      ensures registry[other].path != registry[sha].path
    {
      if registry[other].path == registry[sha].path {
        PathsDistinct(registry, files, sha, other);
      }
    }
  }

  datatype Moving = At(path: Path) | Full | Broken(why: Commit)

  lemma StagingIsUnrecorded(registry: Registry, files: Files, p: Path)
    requires Sound(registry, files) && p.root !in {Pending, Accepted, Rejected}
    ensures forall sha :: sha in registry ==> registry[sha].path != Some(p)
  {
    forall sha | sha in registry ensures registry[sha].path != Some(p) {
      assert RecordSound(sha, registry[sha], files);
    }
  }

  /** What an action leaves in the `files` table. */
  function Registered(registry: Registry, a: Action, destination: Option<Path>): Registry {
    match a
    case Queued(sha) => registry[sha := Record(IsPending, destination)]
    case Blocked(sha) => registry[sha := Record(IsRejected, None)]
    case _ => registry
  }

  /** What an action leaves in the metadata index; the prefilter and the early exits do not touch it. */
  function Indexed(meta: MetaIndex, c: Staged, a: Action): MetaIndex {
    match a
    case Queued(sha) => meta[c.key := MetaRow(|sha.content|, c.modified, sha)]
    case Blocked(sha) => meta[c.key := MetaRow(|sha.content|, c.modified, sha)]
    case Discarded(_, sha, false) => meta[c.key := MetaRow(|sha.content|, c.modified, sha)]
    case _ => meta
  }

  /** What an action leaves in `file_origins`. */
  function Seen(origins: map<Key, Sha>, c: Staged, a: Action): map<Key, Sha> {
    match a
    case Queued(sha) => origins[c.key := sha]
    case Blocked(sha) => origins[c.key := sha]
    case Discarded(_, sha, false) => origins[c.key := sha]
    case _ => origins
  }

  // ---- content is kept ----

  /** A place where the queues keep files. */
  predicate InQueue(p: Path) {
    p.root in {Pending, Accepted, Rejected} && !TmpName(p)
  }

  /** A file with this hash stands in some queue. */
  ghost predicate Kept(files: Files, sha: Sha) {
    exists p: Path :: p in files && InQueue(p) && Sha256(files[p]) == sha
  }

  /** No content is lost from the queues. */
  ghost predicate Keeps(files: Files, files': Files) {
    forall sha :: Kept(files, sha) ==> Kept(files', sha)
  }

  lemma RecordedIsKept(registry: Registry, files: Files, sha: Sha)
    requires Sound(registry, files) && sha in registry && registry[sha].path.Some?
    ensures Kept(files, sha)
  {
    assert RecordSound(sha, registry[sha], files);
    assert InQueue(registry[sha].path.value);
  }

  lemma KeepsMove(files: Files, source: Path, dest: Path, dropped: set<Path>)
    requires source in files && dest !in files && InQueue(dest) && forall p :: p in dropped ==> TmpName(p)
    ensures Keeps(files, (files - {source} - dropped)[dest := files[source]])
  {
    var files' := (files - {source} - dropped)[dest := files[source]];
    forall sha | Kept(files, sha) ensures Kept(files', sha) {
      var p: Path :| p in files && InQueue(p) && Sha256(files[p]) == sha;
      var q := if p == source then dest else p;
      assert q in files' && Sha256(files'[q]) == sha;
    }
  }

  lemma KeepsDrop(files: Files, dropped: set<Path>)
    requires forall p :: p in dropped ==> !InQueue(p)
    ensures Keeps(files, files - dropped)
  {
    forall sha | Kept(files, sha) ensures Kept(files - dropped, sha) {
      var p: Path :| p in files && InQueue(p) && Sha256(files[p]) == sha;
      assert p in files - dropped;
    }
  }

  lemma KeepsAdd(files: Files, p: Path, q: Path)
    requires p in files && !InQueue(p) && !InQueue(q)
    ensures Keeps(files, (files - {p})[q := files[p]])
  {
    var files' := (files - {p})[q := files[p]];
    forall sha | Kept(files, sha) ensures Kept(files', sha) {
      var x: Path :| x in files && InQueue(x) && Sha256(files[x]) == sha;
      assert x in files' && files'[x] == files[x];
    }
  }

  lemma PurgeKeepsOthers(files: Files, p: Path, sha: Sha)
    requires p in files && Sha256(files[p]) == sha
    ensures forall other :: other != sha && Kept(files, other) ==> Kept(files - {p}, other)
  {
    forall other | other != sha && Kept(files, other) ensures Kept(files - {p}, other) {
      var q: Path :| q in files && InQueue(q) && Sha256(files[q]) == other;
      assert q in files - {p};
    }
  }

  lemma SmallerRegistry(registry: Registry, sha: Sha, r: Record, files: Files)
    requires Sound(registry[sha := r], files) && sha !in registry
    ensures Sound(registry, files)
  {
    forall s | s in registry ensures RecordSound(s, registry[s], files) {
      assert RecordSound(s, registry[sha := r][s], files);
    }
  }

  /** A file of unknown hash has moved from staging to a free pending path: sound before and after registering it. */
  lemma ArrivedSound(registry: Registry, files: Files, sha: Sha, source: Path, dest: Path, dropped: set<Path>)
    requires Sound(registry, files) && sha !in registry && source in files && Sha256(files[source]) == sha
    requires source.root == Staging && dest.root == Pending
    requires dest !in files && !TmpName(dest) && dropped <= {Tmp(dest)}
    ensures var files' := (files - {source} - dropped)[dest := files[source]];
            Sound(registry[sha := Record(IsPending, Some(dest))], files') && Sound(registry, files')
  {
    StagingIsUnrecorded(registry, files, source);
    SoundMove(registry, files, sha, source, dest, dropped, IsPending);
    SmallerRegistry(registry, sha, Record(IsPending, Some(dest)), (files - {source} - dropped)[dest := files[source]]);
  }

  /** A rejection without a file. */
  lemma RejectedNowhere(registry: Registry, files: Files, sha: Sha)
    requires Sound(registry, files)
    ensures Sound(registry[sha := Record(IsRejected, None)], files)
  {
    var registry' := registry[sha := Record(IsRejected, None)];
    forall s | s in registry' ensures RecordSound(s, registry'[s], files) {
      assert s != sha ==> RecordSound(s, registry[s], files);
    }
  }

  /** A purge: the file, if any, is gone and the record points nowhere. */
  lemma PurgedSound(registry: Registry, files: Files, sha: Sha)
    requires Sound(registry, files) && sha in registry
    ensures Sound(registry[sha := Record(IsPurged, None)], files - PathSet(registry[sha].path))
  {
    var registry', files' := registry[sha := Record(IsPurged, None)], files - PathSet(registry[sha].path);
    OnlyOwner(registry, files, sha);
    forall s | s in registry' ensures RecordSound(s, registry'[s], files') {
      assert s != sha ==> RecordSound(s, registry[s], files);
    }
  }

  lemma RegisteredIsSound(registry: Registry, files: Files, a: Action)
    requires Sound(registry, files) && !a.Queued?
    ensures Sound(Registered(registry, a, None), files)
  {
    var registry' := Registered(registry, a, None);
    forall s | s in registry' ensures RecordSound(s, registry'[s], files) {
      if s in registry {
        assert RecordSound(s, registry[s], files);
      }
    }
  }

  ghost predicate OtherStagedSame(files: Files, files': Files, p: Path) {
    forall q: Path :: q.root == Staging && q != p ==> Content(files', q) == Content(files, q)
  }

  /** Everything a decision reads. */
  datatype Snapshot = Snapshot(files: Files, registry: Registry, meta: MetaIndex, origins: map<Key, Sha>)

  /** When a file of unknown hash is queued, and where: it needs a name that is free and a copy that is good. */
  ghost predicate QueueEnds(files: Files, c: Staged, o: Options, r: Ingest) {
    && (r.CollisionLimit? <==> AllNamesTaken(files, o.base, o.collisionMax))
    && (r.CommitFailed? <==>
          !AllNamesTaken(files, o.base, o.collisionMax) && !o.samePool && Content(files, c.staging) != Some(o.copied))
    && (r.Ingested? ==> r.destination.Some? && IsLowestFree(files, o.base, o.collisionMax, r.destination.value))
  }

  ghost predicate MovedDropping(files: Files, files': Files, source: Path, dest: Path, dropped: set<Path>)
    requires source in files
  {
    dropped <= {Tmp(dest)} && files' == (files - {source} - dropped)[dest := files[source]]
  }

  /** A file has moved, and at most the `.tmp` sibling of its destination is gone besides. */
  ghost predicate MovedTo(files: Files, files': Files, source: Path, dest: Path) {
    source in files && exists dropped :: MovedDropping(files, files', source, dest, dropped)
  }

  /** What an ingest leaves on the disk. */
  ghost predicate FilesAfter(files: Files, files': Files, c: Staged, o: Options, r: Ingest)
    requires r.Ingested?
  {
    if r.action.MissingStaged? then files' == files
    else
      && c.staging in files
      && if r.destination.Some? then MovedTo(files, files', c.staging, r.destination.value)
         else if (r.action.SizeMismatched? || r.action.ZeroQuarantined?) && o.quarantine.Some? then
           files' == (files - {c.staging})[o.quarantine.value := files[c.staging]]
         else files' == files - {c.staging}
  }

  /** What ingesting a candidate does: it ends with the decided action and leaves what that action leaves, or fails and
      registers nothing. */
  ghost predicate IngestEffect(s: Snapshot, t: Snapshot, c: Staged, o: Options, r: Ingest, decided: Action) {
    && Keeps(s.files, t.files) && OtherStagedSame(s.files, t.files, c.staging)
    && (if decided.Queued? then QueueEnds(s.files, c, o, r) else r.Ingested?)
    && (!r.Ingested? ==>
          && t.registry == s.registry && t.meta == s.meta && t.origins == s.origins
          && Content(t.files, c.staging) == Content(s.files, c.staging) && (r.CollisionLimit? ==> t.files == s.files))
    && (r.Ingested? ==>
          && r.action == decided && c.staging !in t.files && (r.action.Queued? <==> r.destination.Some?)
          && t.registry == Registered(s.registry, r.action, r.destination) && t.meta == Indexed(s.meta, c, r.action)
          && t.origins == Seen(s.origins, c, r.action) && FilesAfter(s.files, t.files, c, o, r))
  }

  /** Where an early exit puts the file. */
  function ExitTarget(o: Options, a: Action): Option<Path> {
    if a.SizeMismatched? || a.ZeroQuarantined? then o.quarantine else None
  }

  /** An exit before the file is hashed. */
  lemma EarlyEffect(s: Snapshot, t: Snapshot, c: Staged, o: Options, a: Action)
    requires Early(a) && !a.MissingStaged? && c.staging in s.files && c.staging !in t.files
    requires t.registry == s.registry && t.meta == s.meta && t.origins == s.origins
    requires Keeps(s.files, t.files) && OtherStagedSame(s.files, t.files, c.staging)
    requires ExitTarget(o, a).None? ==> t.files == s.files - {c.staging}
    requires ExitTarget(o, a).Some? ==> t.files == (s.files - {c.staging})[ExitTarget(o, a).value := s.files[c.staging]]
    ensures IngestEffect(s, t, c, o, Ingested(a, None), a)
  {
  }

  lemma MissingEffect(s: Snapshot, c: Staged, o: Options)
    requires c.staging !in s.files
    ensures IngestEffect(s, s, c, o, Ingested(MissingStaged, None), MissingStaged)
  {
  }

  /** A file of unknown hash that was moved and recorded. */
  lemma QueuedEffect(s: Snapshot, t: Snapshot, c: Staged, o: Options, sha: Sha, d: Path)
    requires Keeps(s.files, t.files) && OtherStagedSame(s.files, t.files, c.staging) && c.staging !in t.files
    requires !AllNamesTaken(s.files, o.base, o.collisionMax) && IsLowestFree(s.files, o.base, o.collisionMax, d)
    requires o.samePool || Content(s.files, c.staging) == Some(o.copied)
    requires MovedTo(s.files, t.files, c.staging, d)
    requires t.registry == s.registry[sha := Record(IsPending, Some(d))]
    requires t.meta == s.meta[c.key := MetaRow(|sha.content|, c.modified, sha)] && t.origins == s.origins[c.key := sha]
    ensures IngestEffect(s, t, c, o, Ingested(Queued(sha), Some(d)), Queued(sha))
  {
  }

  /** A file of unknown hash that could not be moved. */
  lemma FailedEffect(s: Snapshot, t: Snapshot, c: Staged, o: Options, r: Ingest, sha: Sha)
    requires Keeps(s.files, t.files) && OtherStagedSame(s.files, t.files, c.staging)
    requires t.registry == s.registry && t.meta == s.meta && t.origins == s.origins
    requires Content(t.files, c.staging) == Content(s.files, c.staging)
    requires !r.Ingested? && QueueEnds(s.files, c, o, r) && (r.CollisionLimit? ==> t.files == s.files)
    ensures IngestEffect(s, t, c, o, r, Queued(sha))
  {
  }

  // ---- the decision matrix in plain terms ----

  ghost predicate WrongSize(c: Staged, o: Options, content: Bytes) {
    o.verifySize && c.size.Some? && c.size.value != |content|
  }

  /** The file is there, of the right size, and not refused for being empty. */
  ghost predicate Passes(c: Staged, o: Options, staged: Option<Bytes>) {
    staged.Some? && !WrongSize(c, o, staged.value) && (staged.value == [] ==> o.zero.Allow?)
  }

  /** The index has a row of this key with the same size and time, and its hash is on record. */
  ghost predicate RowMatches(c: Staged, registry: Registry, meta: MetaIndex) {
    && c.key in meta && meta[c.key].modified == c.modified && meta[c.key].sha in registry
    && (c.size.Some? ==> meta[c.key].size == c.size.value) && (c.size.None? ==> meta[c.key].size == -1)
  }

  /** When each action is taken. */
  ghost predicate ActionMeans(c: Staged, o: Options, staged: Option<Bytes>, registry: Registry, meta: MetaIndex,
                              a: Action)
  {
    var hashed := Passes(c, o, staged) && !RowMatches(c, registry, meta);
    && (a.MissingStaged? <==> staged.None?)
    && (a.SizeMismatched? <==> staged.Some? && WrongSize(c, o, staged.value))
    && (a.ZeroRejected? <==> staged == Some([]) && !WrongSize(c, o, []) && o.zero.RejectZero?)
    && (a.ZeroQuarantined? <==> staged == Some([]) && !WrongSize(c, o, []) && o.zero.QuarantineZero?)
    && (a.Discarded? && a.prefilter <==> Passes(c, o, staged) && RowMatches(c, registry, meta))
    && (a.Discarded? && a.prefilter ==> a.sha == meta[c.key].sha && a.status == registry[a.sha].status)
    && (a.Blocked? <==> hashed && o.blocked)
    && (a.Discarded? && !a.prefilter <==> hashed && !o.blocked && Sha256(staged.value) in registry)
    && (a.Discarded? && !a.prefilter ==> a.sha == Sha256(staged.value) && a.status == registry[a.sha].status)
    && (a.Queued? <==> hashed && !o.blocked && Sha256(staged.value) !in registry)
    && (a.Blocked? || a.Queued? ==> a.sha == Sha256(staged.value))
  }

  lemma DecideMeans(c: Staged, o: Options, staged: Option<Bytes>, registry: Registry, meta: MetaIndex)
    ensures ActionMeans(c, o, staged, registry, meta, Decide(c, o, staged, registry, meta))
  {
  }

  /** What each action leaves in the tables. */
  ghost predicate TablesMean(s: Snapshot, t: Snapshot, c: Staged, content: Option<Bytes>, a: Action,
                             destination: Option<Path>)
  {
    var hashed := a.Queued? || a.Blocked? || (a.Discarded? && !a.prefilter);
    && (a.Queued? ==> t.registry == s.registry[a.sha := Record(IsPending, destination)])
    && (a.Blocked? ==> t.registry == s.registry[a.sha := Record(IsRejected, None)])
    && (!a.Queued? && !a.Blocked? ==> t.registry == s.registry)
    && (!hashed ==> t.meta == s.meta && t.origins == s.origins)
    && (hashed ==> content.Some?)
    && (hashed ==> t.meta == s.meta[c.key := MetaRow(|content.value|, c.modified, Sha256(content.value))])
    && (hashed ==> t.origins == s.origins[c.key := Sha256(content.value)])
  }

  /** The whole meaning of an ingest, without the functions that compute it. */
  ghost predicate IngestMeans(s: Snapshot, t: Snapshot, c: Staged, o: Options, r: Ingest) {
    var staged := Content(s.files, c.staging);
    && (r.Ingested? ==> ActionMeans(c, o, staged, s.registry, s.meta, r.action))
    && (r.Ingested? ==> FilesAfter(s.files, t.files, c, o, r))
    && (r.Ingested? ==> TablesMean(s, t, c, staged, r.action, r.destination))
    && (!r.Ingested? ==> t.registry == s.registry && t.meta == s.meta && t.origins == s.origins && staged.Some?)
    && (!r.Ingested? ==> ActionMeans(c, o, staged, s.registry, s.meta, Queued(Sha256(staged.value))))
    && (!r.Ingested? || r.action.Queued? ==> QueueEnds(s.files, c, o, r))
  }

  lemma EffectMeans(s: Snapshot, t: Snapshot, c: Staged, o: Options, r: Ingest)
    requires IngestEffect(s, t, c, o, r, Decide(c, o, Content(s.files, c.staging), s.registry, s.meta))
    ensures IngestMeans(s, t, c, o, r)
  {
    DecideMeans(c, o, Content(s.files, c.staging), s.registry, s.meta);
  }
}
