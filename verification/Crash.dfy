/** A crash at any moment of an ingest, followed by the replay of the journal. */
module Crash {
  import opened Storage
  import opened Wrappers
  import opened Records
  import opened Trail
  import opened Lifecycle
  import opened Batch
  import J = Journal

  /** For any registry, disk and replay: the path invariant survives exactly when every recorded file does. */
  lemma SoundAfterReplay(registry: Registry, files: Files, latest: seq<J.JournalRecord>)
    requires Sound(registry, files)
    ensures Sound(registry, J.ReplayAll(files, latest)) <==>
            forall p :: Recorded(registry, p) ==> p in files && J.Survives(files, latest, p)
  {
    var after := J.ReplayAll(files, latest);
    forall p | Recorded(registry, p)
      ensures p in files && (Content(after, p) == Some(files[p]) <==> J.Survives(files, latest, p))
    {
      RecordedPlaces(registry, files, p);
      J.SurvivesExactly(files, latest, p);
    }
    if Sound(registry, after) {
      forall p | Recorded(registry, p) ensures J.Survives(files, latest, p) {
        var sha :| sha in registry && registry[sha].path == Some(p);
        assert RecordSound(sha, registry[sha], files) && RecordSound(sha, registry[sha], after);
      }
    }
    if forall p :: Recorded(registry, p) ==> p in files && J.Survives(files, latest, p) {
      SoundElsewhere(registry, files, after);
    }
  }

  // ---- the journal of finished operations and one in progress ----

  /** Replaying the record can only delete a staged file. */
  ghost predicate Harmless(r: J.JournalRecord) {
    r.destination.None? && r.staging.root == Staging
  }

  /** Whatever the journal shows as interrupted is harmless. */
  ghost predicate Quiet(records: seq<J.JournalRecord>) {
    forall op, r :: J.Interrupted(records, op) && J.IsLatest(records, op, r) ==> Harmless(r)
  }

  ghost predicate FreshId(records: seq<J.JournalRecord>, id: string) {
    forall r :: r in records ==> r.opId != id
  }

  ghost predicate OwnRecord(m: Moment, r: J.JournalRecord, op: Operation) {
    && r.opId == op.id && r.staging == op.staging
    && (r.destination.Some? && r.phase != J.PERSISTED ==> Landed(m, r.destination.value))
  }

  ghost predicate AllOwn(m: Moment, own: seq<J.JournalRecord>, op: Operation) {
    forall r :: r in own ==> OwnRecord(m, r, op)
  }

  lemma OwnRecords(m: Moment, op: Operation) returns (own: seq<J.JournalRecord>)
    requires CutSound(m, op) && op.id != ""
    ensures J.Records(m.lines) == J.Records(op.base) + own && AllOwn(m, own, op)
    ensures own == J.Records(m.lines[|op.base|..])
  {
    var tail := m.lines[|op.base|..];
    assert m.lines == op.base + tail;
    J.RecordsAppend(op.base, tail);
    own := J.Records(tail);
    forall r | r in own ensures OwnRecord(m, r, op) {
      J.RecordsMembers(tail, r);
      var i :| 0 <= i < |tail| && tail[i] == J.Entry(r);
      assert OwnLine(m, m.lines[|op.base| + i], op);
    }
  }

  /** Records of one operation change nothing for the others. */
  lemma OtherOperations(records: seq<J.JournalRecord>, own: seq<J.JournalRecord>, id: string, other: string)
    requires (forall r :: r in own ==> r.opId == id) && other != id
    ensures J.Interrupted(records + own, other) <==> J.Interrupted(records, other)
    ensures forall r :: J.IsLatest(records + own, other, r) ==> J.IsLatest(records, other, r)
  {
    forall r | J.IsLatest(records + own, other, r) ensures J.IsLatest(records, other, r) {
      var i: nat :| J.LatestAt(records + own, other, i) && (records + own)[i] == r;
      assert r in own || i < |records|;
      assert forall j :: i < j < |records| ==> records[j] == (records + own)[j];
      assert J.LatestAt(records, other, i);
    }
    assert forall r :: r in records + own <==> r in records || r in own;
  }

  /** What can be the last record of an interrupted operation at this moment. */
  lemma LatestShape(m: Moment, op: Operation, own: seq<J.JournalRecord>, id: string, r: J.JournalRecord)
    requires op.id != "" && op.staging.root == Staging
    requires J.Records(m.lines) == J.Records(op.base) + own && AllOwn(m, own, op)
    requires Quiet(J.Records(op.base)) && FreshId(J.Records(op.base), op.id)
    requires J.Interrupted(J.Records(m.lines), id) && J.IsLatest(J.Records(m.lines), id, r)
    ensures r.staging.root == Staging
    ensures r.destination.Some? ==> id == op.id && Landed(m, r.destination.value)
  {
    if id != op.id {
      OtherOperations(J.Records(op.base), own, op.id, id);
      assert Harmless(r);
    } else {
      var records := J.Records(m.lines);
      var i: nat :| J.LatestAt(records, id, i) && records[i] == r;
      assert r in records && r in own;
      assert OwnRecord(m, r, op);
    }
  }

  lemma LatestUnique(records: seq<J.JournalRecord>, id: string, a: J.JournalRecord, b: J.JournalRecord)
    requires J.IsLatest(records, id, a) && J.IsLatest(records, id, b)
    ensures a == b
  {
    var i: nat :| J.LatestAt(records, id, i) && records[i] == a;
    var j: nat :| J.LatestAt(records, id, j) && records[j] == b;
    assert i == j;
  }

  lemma LatestListed(records: seq<J.JournalRecord>, unresolved: seq<string>, latest: seq<J.JournalRecord>, id: string,
                     r: J.JournalRecord)
    requires J.Replays(records, unresolved, latest) && J.Interrupted(records, id) && J.IsLatest(records, id, r)
    ensures exists k :: 0 <= k < |latest| && latest[k] == r
  {
    var k :| 0 <= k < |unresolved| && unresolved[k] == id;
    LatestUnique(records, id, r, latest[k]);
  }

  // ---- what the replay then does ----

  ghost predicate StagedOnly(latest: seq<J.JournalRecord>, d: Option<Path>) {
    forall k :: 0 <= k < |latest| ==>
      latest[k].staging.root == Staging && (latest[k].destination.None? || latest[k].destination == d)
  }

  ghost predicate SomeLands(latest: seq<J.JournalRecord>, d: Path) {
    exists k :: 0 <= k < |latest| && J.LandsAt(latest[k], d)
  }

  function AfterLanding(files: Files, d: Path, p: Path): Option<Bytes>
    requires d in files
  {
    if p == d then None else if p == J.Orphan(d) then Some(files[d]) else Content(files, p)
  }

  /** At most one destination is named: it moves aside, and nothing else outside the staging area changes. */
  lemma {:induction false} LandingEffect(files: Files, latest: seq<J.JournalRecord>, d: Path, p: Path)
    requires StagedOnly(latest, Some(d)) && d in files && d.root != Staging && p.root != Staging
    ensures Content(J.ReplayAll(files, latest), p) ==
            if SomeLands(latest, d) then AfterLanding(files, d, p) else Content(files, p)
  {
    if latest == [] {
    } else {
      var n := |latest| - 1;
      var init, r := latest[..n], latest[n];
      assert forall k :: 0 <= k < n ==> init[k] == latest[k];
      LandingEffect(files, init, d, p);
      LandingEffect(files, init, d, d);
      J.ReplayOneEffect(J.ReplayAll(files, init), r, p);
      J.OrphanDiffers(d, p);
      assert SomeLands(latest, d) <==> SomeLands(init, d) || J.LandsAt(r, d);
    }
  }

  lemma {:induction false} NothingLands(files: Files, latest: seq<J.JournalRecord>, p: Path)
    requires StagedOnly(latest, None) && p.root != Staging
    ensures Content(J.ReplayAll(files, latest), p) == Content(files, p)
  {
    if latest == [] {
    } else {
      var n := |latest| - 1;
      assert forall k :: 0 <= k < n ==> latest[..n][k] == latest[k];
      NothingLands(files, latest[..n], p);
      J.ReplayOneEffect(J.ReplayAll(files, latest[..n]), latest[n], p);
    }
  }

  /** The registry records d, or the name that d would be moved aside to. */
  ghost predicate AtRisk(registry: Registry, d: Path) {
    Recorded(registry, d) || Recorded(registry, J.Orphan(d))
  }

  lemma LandingBreaks(m: Moment, latest: seq<J.JournalRecord>, d: Path)
    requires Sound(m.registry, m.files) && Landed(m, d) && StagedOnly(latest, Some(d)) && SomeLands(latest, d)
    requires AtRisk(m.registry, d)
    ensures !Sound(m.registry, J.ReplayAll(m.files, latest))
  {
    var after := J.ReplayAll(m.files, latest);
    J.OrphanDiffers(d, d);
    if Recorded(m.registry, d) {
      LandingEffect(m.files, latest, d, d);
      var sha :| sha in m.registry && m.registry[sha].path == Some(d);
      assert !RecordSound(sha, m.registry[sha], after);
    } else {
      var o := J.Orphan(d);
      LandingEffect(m.files, latest, d, o);
      var sha :| sha in m.registry && m.registry[sha].path == Some(o);
      assert sha != Sha256(m.files[d]) && after[o] == m.files[d];
      assert !RecordSound(sha, m.registry[sha], after);
    }
  }

  lemma LandingSound(m: Moment, latest: seq<J.JournalRecord>, d: Path)
    requires Sound(m.registry, m.files) && Landed(m, d) && StagedOnly(latest, Some(d)) && SomeLands(latest, d)
    ensures Sound(m.registry, J.ReplayAll(m.files, latest)) <==> !AtRisk(m.registry, d)
  {
    var after := J.ReplayAll(m.files, latest);
    if AtRisk(m.registry, d) {
      LandingBreaks(m, latest, d);
    } else {
      forall p | Recorded(m.registry, p) ensures p in m.files && p in after && after[p] == m.files[p] {
        RecordedPlaces(m.registry, m.files, p);
        LandingEffect(m.files, latest, d, p);
      }
      SoundElsewhere(m.registry, m.files, after);
    }
  }

  lemma NoLandingSound(m: Moment, latest: seq<J.JournalRecord>)
    requires Sound(m.registry, m.files) && StagedOnly(latest, None)
    ensures Sound(m.registry, J.ReplayAll(m.files, latest))
  {
    var after := J.ReplayAll(m.files, latest);
    forall p | Recorded(m.registry, p) ensures p in m.files && p in after && after[p] == m.files[p] {
      RecordedPlaces(m.registry, m.files, p);
      NothingLands(m.files, latest, p);
    }
    SoundElsewhere(m.registry, m.files, after);
  }

  // ---- the theorem ----

  ghost predicate ExposedBy(m: Moment, id: string, r: J.JournalRecord) {
    && J.Interrupted(J.Records(m.lines), id) && J.IsLatest(J.Records(m.lines), id, r)
    && r.destination.Some? && AtRisk(m.registry, r.destination.value)
  }

  /** The journal shows the operation as moved and not as persisted, while the registry already records the destination
      (or a file of the name it would be moved aside to). */
  ghost predicate Exposed(m: Moment, id: string) {
    exists r :: ExposedBy(m, id, r)
  }

  /** An operation begun over a quiet journal. */
  ghost predicate Begun(op: Operation) {
    && op.id != "" && op.staging.root == Staging
    && Quiet(J.Records(op.base)) && FreshId(J.Records(op.base), op.id)
  }

  /** Cut the ingest at any moment and replay: the path invariant holds afterwards if and only if the cut is not between
      the registry commit and the `registry_persisted` line. */
  lemma CutThenReplay(m: Moment, op: Operation, unresolved: seq<string>, latest: seq<J.JournalRecord>)
    requires CutSound(m, op) && Begun(op) && J.Replays(J.Records(m.lines), unresolved, latest)
    ensures Sound(m.registry, J.ReplayAll(m.files, latest)) <==> !Exposed(m, op.id)
  {
    var own := OwnRecords(m, op);
    var records := J.Records(m.lines);
    forall k | 0 <= k < |latest|
      ensures J.Interrupted(records, unresolved[k]) && J.IsLatest(records, unresolved[k], latest[k])
      ensures latest[k].staging.root == Staging
      ensures latest[k].destination.Some? ==> unresolved[k] == op.id && Landed(m, latest[k].destination.value)
    {
      assert unresolved[k] in unresolved;
      LatestShape(m, op, own, unresolved[k], latest[k]);
    }
    if k :| 0 <= k < |latest| && latest[k].destination.Some? {
      var d := latest[k].destination.value;
      forall j | 0 <= j < |latest| && latest[j].destination.Some? ensures latest[j] == latest[k] {
        LatestUnique(records, op.id, latest[j], latest[k]);
      }
      assert J.LandsAt(latest[k], d);
      LandingSound(m, latest, d);
      forall r | J.IsLatest(records, op.id, r) ensures r == latest[k] {
        LatestUnique(records, op.id, r, latest[k]);
      }
      assert AtRisk(m.registry, d) ==> ExposedBy(m, op.id, latest[k]);
    } else {
      NoLandingSound(m, latest);
      forall r | J.Interrupted(records, op.id) && J.IsLatest(records, op.id, r) ensures r.destination.None? {
        LatestListed(records, unresolved, latest, op.id, r);
      }
    }
  }

  lemma PlainNotPersisted(lines: seq<J.Line>, op: Operation, r: J.JournalRecord)
    requires OwnPlain(lines, op) && FreshId(J.Records(op.base), op.id) && r in J.Records(lines) && r.opId == op.id
    ensures r.phase != J.PERSISTED
  {
    var tail := lines[|op.base|..];
    assert lines == op.base + tail;
    J.RecordsAppend(op.base, tail);
    J.RecordsMembers(tail, r);
    var i :| 0 <= i < |tail| && tail[i] == J.Entry(r);
    assert PlainLine(lines[|op.base| + i], op);
  }

  /** The moments between the registry commit and the last journal line. */
  function Window(moments: seq<Moment>, torn: bool): Moment
    requires |moments| >= 3
  {
    moments[|moments| - (if torn then 2 else 3)]
  }

  /** What the journal shows of an operation whose last whole line is `storage_committed`. */
  lemma CommittedRecords(plain: seq<J.Line>, op: Operation, d: Path, lines: seq<J.Line>)
    requires Begun(op) && OwnPlain(plain, op)
    requires var whole := plain + [LineOf(op, COMMITTED, Some(d))]; lines == whole || lines == whole + [J.Unusable]
    ensures J.Interrupted(J.Records(lines), op.id)
    ensures J.IsLatest(J.Records(lines), op.id, J.JournalRecord(op.id, COMMITTED, op.staging, Some(d)))
  {
    var last := J.JournalRecord(op.id, COMMITTED, op.staging, Some(d));
    var whole := plain + [J.Entry(last)];
    assert whole[..|plain|] == plain && (whole + [J.Unusable])[..|whole|] == whole;
    var records := J.Records(whole);
    assert records == J.Records(plain) + [last] && J.Records(lines) == records;
    forall r | r in records && r.opId == op.id ensures r.phase != J.PERSISTED {
      if r != last {
        PlainNotPersisted(plain, op, r);
      }
    }
    assert records[|records| - 1] == last && J.LatestAt(records, op.id, |records| - 1);
  }

  /** The registry records d while the operation's last whole line is `storage_committed`. */
  ghost predicate InWindow(m: Moment, plain: seq<J.Line>, op: Operation, d: Path) {
    && OwnPlain(plain, op) && Recorded(m.registry, d)
    && var whole := plain + [LineOf(op, COMMITTED, Some(d))]; m.lines == whole || m.lines == whole + [J.Unusable]
  }

  lemma WindowShape(moments: seq<Moment>, now: Moment, op: Operation, d: Path, torn: bool)
    requires PassesWindow(moments, now, op, d)
    ensures InWindow(Window(moments, torn), now.lines[..|now.lines| - 2], op, d)
  {
    var plain, l := now.lines[..|now.lines| - 2], LineOf(op, COMMITTED, Some(d));
    assert now.lines[..|now.lines| - 1] == plain + [l];
  }

  lemma InWindowIsExposed(m: Moment, plain: seq<J.Line>, op: Operation, d: Path)
    requires InWindow(m, plain, op, d) && Begun(op)
    ensures Exposed(m, op.id)
  {
    CommittedRecords(plain, op, d, m.lines);
    assert ExposedBy(m, op.id, LineOf(op, COMMITTED, Some(d)).record);
  }

  /** Every ingest that queues a file passes through an exposed moment, before the last line and inside it. */
  lemma WindowIsExposed(moments: seq<Moment>, now: Moment, op: Operation, d: Path, torn: bool)
    requires PassesWindow(moments, now, op, d) && Begun(op)
    ensures Exposed(Window(moments, torn), op.id)
  {
    WindowShape(moments, now, op, d, torn);
    InWindowIsExposed(Window(moments, torn), now.lines[..|now.lines| - 2], op, d);
  }

  lemma ExposedBreaks(m: Moment, op: Operation, unresolved: seq<string>, latest: seq<J.JournalRecord>)
    requires CutSound(m, op) && Begun(op) && J.Replays(J.Records(m.lines), unresolved, latest) && Exposed(m, op.id)
    ensures !Sound(m.registry, J.ReplayAll(m.files, latest))
  {
    CutThenReplay(m, op, unresolved, latest);
  }

  /** So a crash there and a replay break the path invariant, for every file ever queued. `torn` chooses whether the
      crash comes before the last journal line or inside it. */
  lemma QueuedCanBreak(moments: seq<Moment>, now: Moment, op: Operation, r: Ingest, states: seq<Files>, from: nat,
                       torn: bool, unresolved: seq<string>, latest: seq<J.JournalRecord>)
    requires Tracked(moments, now, op, r, states, from) && r.Ingested? && r.action.Queued? && r.destination.Some?
    requires Begun(op)
    requires |moments| >= 3 ==> J.Replays(J.Records(Window(moments, torn).lines), unresolved, latest)
    ensures |moments| >= 3
    ensures !Sound(Window(moments, torn).registry, J.ReplayAll(Window(moments, torn).files, latest))
  {
    WindowIsExposed(moments, now, op, r.destination.value, torn);
    ExposedBreaks(Window(moments, torn), op, unresolved, latest);
  }

  lemma AlwaysBreaks(m: Moment, op: Operation)
    requires CutSound(m, op) && Begun(op) && Exposed(m, op.id)
    ensures forall unresolved, latest :: J.Replays(J.Records(m.lines), unresolved, latest) ==>
      !Sound(m.registry, J.ReplayAll(m.files, latest))
  {
    forall unresolved, latest | J.Replays(J.Records(m.lines), unresolved, latest)
      ensures !Sound(m.registry, J.ReplayAll(m.files, latest))
    {
      ExposedBreaks(m, op, unresolved, latest);
    }
  }

  /** The steps of one landing, from a registry without the file. */
  lemma LandingExample() returns (m: Moment, plain: seq<J.Line>, op: Operation, d: Path)
    ensures Begun(op) && CutSound(m, op) && InWindow(m, plain, op, d)
  {
    d, op := Path(Pending, "", "a.jpg"), Operation([], "op", Path(Staging, "", "a"));
    var sha, l := Sha256([1]), LineOf(op, "ingest_started", None);
    var start := Moment(map[d := [1]], map[], []);
    var moved := With(start, l);
    var registry := map[sha := Record(IsPending, Some(d))];
    assert d.name[|d.name| - 4..] == ".jpg";
    assert RecordSound(sha, registry[sha], moved.files) && registry[sha].path == Some(d);
    assert PlainLine(moved.lines[0], op);
    PlainIsSound(start, op);
    PlainIsSound(moved, op);
    WritingSound(start, op, l);
    WritingCovers(start, l);
    LandTrail(Writing(start, l), moved, registry, op, d, [], 0);
    var steps, end := Writing(start, l) + LandMoments(moved, registry, op, d), LandEnd(moved, registry, op, d);
    WindowShape(steps, end, op, d, false);
    m, plain := Window(steps, false), end.lines[..|end.lines| - 2];
  }

  lemma ExposedExample() returns (m: Moment, op: Operation, d: Path)
    ensures CutSound(m, op) && Begun(op) && Recorded(m.registry, d) && Exposed(m, op.id)
  {
    var plain;
    m, plain, op, d := LandingExample();
    InWindowIsExposed(m, plain, op, d);
  }

  /** Such a crash: one file has been moved and registered, its journal line `registry_persisted` is still missing, and
      the replay moves the registered file aside. */
  lemma CrashBeforePersisted() returns (m: Moment, op: Operation, d: Path)
    ensures CutSound(m, op) && Begun(op) && Recorded(m.registry, d) && Exposed(m, op.id)
    ensures forall unresolved, latest :: J.Replays(J.Records(m.lines), unresolved, latest) ==>
      !Sound(m.registry, J.ReplayAll(m.files, latest))
  {
    m, op, d := ExposedExample();
    AlwaysBreaks(m, op);
  }

  /** A finished operation leaves the journal quiet for the next one. */
  lemma QuietAfter(m: Moment, op: Operation)
    requires CutSound(m, op) && OpClosed(m.lines, op) && Begun(op)
    ensures Quiet(J.Records(m.lines))
  {
    var own := OwnRecords(m, op);
    var tail := m.lines[|op.base|..];
    var l := tail[|tail| - 1];
    assert l == m.lines[|m.lines| - 1] && OwnLine(m, l, op) && J.Usable(l);
    assert tail == tail[..|tail| - 1] + [l];
    var records := J.Records(m.lines);
    assert own[|own| - 1] == l.record && records[|records| - 1] == l.record;
    forall id, r | J.Interrupted(records, id) && J.IsLatest(records, id, r) ensures Harmless(r) {
      LatestShape(m, op, own, id, r);
      if id == op.id {
        assert J.LatestAt(records, id, |records| - 1);
        LatestUnique(records, id, r, l.record);
        assert l.record in records;
      }
    }
  }

  /** Start again from a moment: the replay of its journal restores the invariant unless the moment is exposed. */
  method RecoverFrom(m: Moment, ghost op: Operation) returns (files: Files)
    requires CutSound(m, op) && Begun(op) && J.NotAnObject !in m.lines
    ensures Sound(m.registry, files) <==> !Exposed(m, op.id)
  {
    var recovery := new J.Recovery(m.files, m.lines, false);
    var report, latest := recovery.Replay();
    CutThenReplay(m, op, report.value.unresolved, latest);
    files := recovery.files;
  }

  /** Whatever the replay works on, the invariant comes back exactly when no operation is exposed. */
  ghost predicate Recoverable(m: Moment) {
    forall unresolved, latest :: J.Replays(J.Records(m.lines), unresolved, latest) ==>
      (Sound(m.registry, J.ReplayAll(m.files, latest)) <==> forall id :: !Exposed(m, id))
  }

  lemma CutIsRecoverable(m: Moment, op: Operation)
    requires CutSound(m, op) && Begun(op)
    ensures Recoverable(m)
  {
    var own := OwnRecords(m, op);
    forall id | id != op.id ensures !Exposed(m, id) {
      if r :| ExposedBy(m, id, r) {
        LatestShape(m, op, own, id, r);
        assert false;
      }
    }
    forall unresolved, latest | J.Replays(J.Records(m.lines), unresolved, latest)
      ensures Sound(m.registry, J.ReplayAll(m.files, latest)) <==> forall id :: !Exposed(m, id)
    {
      CutThenReplay(m, op, unresolved, latest);
    }
  }

  ghost predicate AllRecoverable(cuts: seq<Moment>) {
    forall k :: 0 <= k < |cuts| ==> Recoverable(cuts[k])
  }

  lemma TrailRecoverable(moments: seq<Moment>, op: Operation)
    requires AllCutSound(moments, op) && Begun(op)
    ensures AllRecoverable(moments)
  {
    forall k | 0 <= k < |moments| ensures Recoverable(moments[k]) {
      CutIsRecoverable(moments[k], op);
    }
  }

  /** Between two operations. */
  lemma QuietIsRecoverable(m: Moment)
    requires Sound(m.registry, m.files) && Quiet(J.Records(m.lines))
    ensures Recoverable(m)
  {
    forall unresolved, latest | J.Replays(J.Records(m.lines), unresolved, latest)
      ensures Sound(m.registry, J.ReplayAll(m.files, latest)) <==> forall id :: !Exposed(m, id)
    {
      forall k | 0 <= k < |latest| ensures Harmless(latest[k]) {
        assert unresolved[k] in unresolved && J.IsLatest(J.Records(m.lines), unresolved[k], latest[k]);
      }
      NoLandingSound(m, latest);
      forall id, r | J.Interrupted(J.Records(m.lines), id) && J.IsLatest(J.Records(m.lines), id, r)
        ensures !ExposedBy(m, id, r)
      {
        assert Harmless(r);
      }
    }
  }

  lemma StillFresh(m: Moment, op: Operation, id: string)
    requires CutSound(m, op) && op.id != "" && id != op.id && FreshId(J.Records(op.base), id)
    ensures FreshId(J.Records(m.lines), id)
  {
    var own := OwnRecords(m, op);
  }

  /** Any number of ingests over a quiet journal: every state the disk and the journal go through, torn lines included,
      is that of a cut, and every cut is recoverable. */
  method IngestAll(pipeline: Pipeline, jobs: seq<Job>) returns (ghost cuts: seq<Moment>)
    requires pipeline.Valid() && Quiet(J.Records(pipeline.lines))
    requires forall i :: 0 <= i < |jobs| ==>
      jobs[i].candidate.staging.root == Staging && GoodOptions(jobs[i].options) && jobs[i].op != ""
    requires forall i :: 0 <= i < |jobs| ==> FreshId(J.Records(pipeline.lines), jobs[i].op)
    requires forall i, j :: 0 <= i < j < |jobs| ==> jobs[i].op != jobs[j].op
    modifies pipeline, pipeline.disk
    ensures pipeline.Valid() && Quiet(J.Records(pipeline.lines))
    ensures AllRecoverable(cuts) && Ends(cuts, pipeline.Now())
    ensures CoversStates(cuts, pipeline.disk.states, |old(pipeline.disk.states)|)
    ensures CoversLines(cuts, pipeline.lines, |old(pipeline.lines)|)
  {
    QuietIsRecoverable(pipeline.Now());
    cuts := [pipeline.Now()];
    for i := 0 to |jobs|
      invariant pipeline.Valid() && Quiet(J.Records(pipeline.lines))
      invariant forall k :: i <= k < |jobs| ==> FreshId(J.Records(pipeline.lines), jobs[k].op)
      invariant AllRecoverable(cuts) && Ends(cuts, pipeline.Now())
      invariant CoversStates(cuts, pipeline.disk.states, |old(pipeline.disk.states)|)
      invariant CoversLines(cuts, pipeline.lines, |old(pipeline.lines)|)
    {
      ghost var op := Operation(pipeline.lines, jobs[i].op, jobs[i].candidate.staging);
      ghost var states := pipeline.disk.states;
      var r := pipeline.ProcessOne(jobs[i].candidate, jobs[i].options, jobs[i].op);
      TrailRecoverable(pipeline.moments, op);
      QuietAfter(pipeline.Now(), op);
      forall k | i < k < |jobs| ensures FreshId(J.Records(pipeline.lines), jobs[k].op) {
        StillFresh(pipeline.Now(), op, jobs[k].op);
      }
      assert states <= pipeline.disk.states;
      CoversMoreStates(cuts, pipeline.moments, states, pipeline.disk.states, |old(pipeline.disk.states)|);
      CoversMoreLines(cuts, pipeline.moments, op.base, pipeline.lines, |old(pipeline.lines)|);
      cuts := cuts + pipeline.moments;
    }
  }
}
