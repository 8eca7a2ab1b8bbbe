/** The moments of one operation, as a crash between two steps, or inside a journal line, can leave them. */
module Trail {
  import opened Storage
  import opened Wrappers
  import opened Records
  import J = Journal

  const COMMITTED := "storage_committed"

  datatype Moment = Moment(files: Files, registry: Registry, lines: seq<J.Line>)

  /** An operation: the journal before it, its id, its staging path. */
  datatype Operation = Operation(base: seq<J.Line>, id: string, staging: Path)

  function LineOf(op: Operation, phase: string, destination: Option<Path>): J.Line {
    J.Entry(J.JournalRecord(op.id, phase, op.staging, destination))
  }

  ghost predicate PlainLine(l: J.Line, op: Operation) {
    l.Entry? && l.record.phase != "" && l.record.phase != J.PERSISTED && l == LineOf(op, l.record.phase, None)
  }

  /** The operation has written lines of its own, all without a destination and none to say that it is over. */
  ghost predicate OwnPlain(lines: seq<J.Line>, op: Operation) {
    op.base <= lines && forall i :: |op.base| <= i < |lines| ==> PlainLine(lines[i], op)
  }

  /** The file is at its destination: new to the registry, or recorded there already. */
  ghost predicate Landed(m: Moment, d: Path) {
    d.root == Pending && d in m.files && (Sha256(m.files[d]) !in m.registry || Recorded(m.registry, d))
  }

  ghost predicate OwnEntry(m: Moment, l: J.Line, op: Operation) {
    && l.Entry? && l.record.phase != "" && l.record.opId == op.id && l.record.staging == op.staging
    && (l.record.destination.Some? && l.record.phase != J.PERSISTED ==> Landed(m, l.record.destination.value))
  }

  /** A line of the operation; a torn one cannot be read. */
  ghost predicate OwnLine(m: Moment, l: J.Line, op: Operation) {
    l.Unusable? || OwnEntry(m, l, op)
  }

  /** The path invariant holds at this moment, and the journal tells how far the operation has come. */
  ghost predicate CutSound(m: Moment, op: Operation) {
    && Sound(m.registry, m.files) && op.base <= m.lines
    && forall i :: |op.base| <= i < |m.lines| ==> OwnLine(m, m.lines[i], op)
  }

  ghost predicate AllCutSound(moments: seq<Moment>, op: Operation) {
    forall k :: 0 <= k < |moments| ==> CutSound(moments[k], op)
  }

  lemma PlainIsSound(m: Moment, op: Operation)
    requires Sound(m.registry, m.files) && OwnPlain(m.lines, op)
    ensures CutSound(m, op)
  {
    forall i | |op.base| <= i < |m.lines| ensures OwnLine(m, m.lines[i], op) {
      assert PlainLine(m.lines[i], op);
    }
  }

  /** The moment with one more line. */
  function With(m: Moment, l: J.Line): Moment {
    m.(lines := m.lines + [l])
  }

  lemma LineAdded(m: Moment, op: Operation, l: J.Line)
    requires CutSound(m, op) && OwnLine(m, l, op)
    ensures CutSound(With(m, l), op)
  {
    var m' := With(m, l);
    forall i | |op.base| <= i < |m'.lines| ensures OwnLine(m', m'.lines[i], op) {
      if i < |m.lines| {
        assert OwnLine(m, m.lines[i], op);
      }
    }
  }

  // ---- no state is left out ----

  ghost predicate HasFiles(moments: seq<Moment>, files: Files) {
    exists k :: 0 <= k < |moments| && moments[k].files == files
  }

  ghost predicate HasLines(moments: seq<Moment>, lines: seq<J.Line>) {
    exists k :: 0 <= k < |moments| && moments[k].lines == lines
  }

  /** Every disk state from `from` on is that of some moment. */
  ghost predicate CoversStates(moments: seq<Moment>, states: seq<Files>, from: nat) {
    from <= |states| && forall j :: from <= j < |states| ==> HasFiles(moments, states[j])
  }

  ghost predicate HasBoth(moments: seq<Moment>, lines: seq<J.Line>, n: nat)
    requires 0 < n <= |lines|
  {
    HasLines(moments, lines[..n]) && HasLines(moments, lines[..n - 1] + [J.Unusable])
  }

  /** Every journal since `base` lines, and every journal whose next line is torn, is that of some moment. */
  ghost predicate CoversLines(moments: seq<Moment>, lines: seq<J.Line>, base: nat) {
    base <= |lines| && forall n :: base < n <= |lines| ==> HasBoth(moments, lines, n)
  }

  ghost predicate Ends(moments: seq<Moment>, now: Moment) {
    moments != [] && moments[|moments| - 1] == now
  }

  lemma FilesLater(moments: seq<Moment>, more: seq<Moment>, files: Files)
    requires HasFiles(moments, files) || HasFiles(more, files)
    ensures HasFiles(moments + more, files)
  {
    var all := moments + more;
    if k :| 0 <= k < |moments| && moments[k].files == files {
      assert all[k].files == files;
    } else {
      var k :| 0 <= k < |more| && more[k].files == files;
      assert all[|moments| + k].files == files;
    }
  }

  lemma LinesLater(moments: seq<Moment>, more: seq<Moment>, lines: seq<J.Line>)
    requires HasLines(moments, lines) || HasLines(more, lines)
    ensures HasLines(moments + more, lines)
  {
    var all := moments + more;
    if k :| 0 <= k < |moments| && moments[k].lines == lines {
      assert all[k].lines == lines;
    } else {
      var k :| 0 <= k < |more| && more[k].lines == lines;
      assert all[|moments| + k].lines == lines;
    }
  }

  /** More moments, and disk states that they cover. */
  lemma CoversMoreStates(moments: seq<Moment>, more: seq<Moment>, states: seq<Files>, states': seq<Files>, from: nat)
    requires CoversStates(moments, states, from) && states <= states'
    requires forall j :: |states| <= j < |states'| ==> HasFiles(more, states'[j])
    ensures CoversStates(moments + more, states', from)
  {
    forall j | from <= j < |states'| ensures HasFiles(moments + more, states'[j]) {
      FilesLater(moments, more, states'[j]);
    }
  }

  /** More moments, and lines that they cover. */
  lemma CoversMoreLines(moments: seq<Moment>, more: seq<Moment>, lines: seq<J.Line>, lines': seq<J.Line>, base: nat)
    requires CoversLines(moments, lines, base) && lines <= lines' && CoversLines(more, lines', |lines|)
    ensures CoversLines(moments + more, lines', base)
  {
    forall n | base < n <= |lines'| ensures HasBoth(moments + more, lines', n) {
      if n <= |lines| {
        assert HasBoth(moments, lines, n) && lines'[..n] == lines[..n] && lines'[..n - 1] == lines[..n - 1];
      } else {
        assert HasBoth(more, lines', n);
      }
      LinesLater(moments, more, lines'[..n]);
      LinesLater(moments, more, lines'[..n - 1] + [J.Unusable]);
    }
  }

  /** The two moments of writing a line. */
  ghost function Writing(m: Moment, l: J.Line): seq<Moment> {
    [With(m, J.Unusable), With(m, l)]
  }

  lemma WritingCovers(m: Moment, l: J.Line)
    ensures CoversLines(Writing(m, l), m.lines + [l], |m.lines|)
  {
    var ms, lines := Writing(m, l), m.lines + [l];
    forall n | |m.lines| < n <= |lines| ensures HasBoth(ms, lines, n) {
      assert ms[1].lines == lines[..n] && ms[0].lines == lines[..n - 1] + [J.Unusable];
    }
  }

  lemma WritingSound(m: Moment, op: Operation, l: J.Line)
    requires CutSound(m, op) && OwnLine(m, l, op)
    ensures AllCutSound(Writing(m, l), op)
  {
    LineAdded(m, op, J.Unusable);
    LineAdded(m, op, l);
  }

  /** The moments are those of this operation, up to now: sound, and none left out since it began. */
  ghost predicate Traced(moments: seq<Moment>, now: Moment, op: Operation, states: seq<Files>, from: nat) {
    && AllCutSound(moments, op) && Ends(moments, now)
    && CoversStates(moments, states, from) && CoversLines(moments, now.lines, |op.base|)
  }

  /** A line is written. */
  lemma TracedLine(moments: seq<Moment>, m: Moment, op: Operation, states: seq<Files>, from: nat, l: J.Line)
    requires Traced(moments, m, op, states, from) && CutSound(m, op) && OwnLine(m, l, op)
    ensures Traced(moments + Writing(m, l), With(m, l), op, states, from)
  {
    WritingSound(m, op, l);
    WritingCovers(m, l);
    CoversMoreStates(moments, Writing(m, l), states, states, from);
    CoversMoreLines(moments, Writing(m, l), m.lines, m.lines + [l], |op.base|);
  }

  /** The registry is written. */
  lemma TracedRegistry(moments: seq<Moment>, m: Moment, op: Operation, states: seq<Files>, from: nat, next: Moment)
    requires Traced(moments, m, op, states, from) && CutSound(next, op) && next.lines == m.lines
    ensures Traced(moments + [next], next, op, states, from)
  {
    CoversMoreStates(moments, [next], states, states, from);
    CoversMoreLines(moments, [next], m.lines, m.lines, |op.base|);
  }

  ghost function MomentsOf(states: seq<Files>, registry: Registry, lines: seq<J.Line>): (ms: seq<Moment>)
    ensures |ms| == |states| && forall k :: 0 <= k < |ms| ==> ms[k] == Moment(states[k], registry, lines)
  {
    seq(|states|, k requires 0 <= k < |states| => Moment(states[k], registry, lines))
  }

  /** The disk goes through new states. */
  lemma TracedStates(moments: seq<Moment>, m: Moment, op: Operation, states: seq<Files>, states': seq<Files>, from: nat)
    requires Traced(moments, m, op, states, from) && states <= states' && states' != []
    requires |states| == |states'| ==> states'[|states'| - 1] == m.files
    requires AllCutSound(MomentsOf(states'[|states|..], m.registry, m.lines), op)
    ensures Traced(moments + MomentsOf(states'[|states|..], m.registry, m.lines),
                   m.(files := states'[|states'| - 1]), op, states', from)
  {
    var more := MomentsOf(states'[|states|..], m.registry, m.lines);
    forall j | |states| <= j < |states'| ensures HasFiles(more, states'[j]) {
      assert more[j - |states|].files == states'[j];
    }
    CoversMoreStates(moments, more, states, states', from);
    CoversMoreLines(moments, more, m.lines, m.lines, |op.base|);
  }

  /** Everything but the moved file and `.tmp` files stands as it stood. */
  ghost predicate StandsBut(files: Files, files': Files, source: Path) {
    forall p: Path :: p in files && p != source && !TmpName(p) ==> p in files' && files'[p] == files[p]
  }

  lemma StandsIsSound(registry: Registry, files: Files, files': Files, source: Path)
    requires Sound(registry, files) && StandsBut(files, files', source) && source.root in {Staging, Trash}
    ensures Sound(registry, files')
  {
    forall p | Recorded(registry, p) ensures p in files && p in files' && files'[p] == files[p] {
      RecordedPlaces(registry, files, p);
    }
    SoundElsewhere(registry, files, files');
  }

  lemma StatesAreSound(states: seq<Files>, files: Files, registry: Registry, lines: seq<J.Line>, op: Operation)
    requires Sound(registry, files) && OwnPlain(lines, op) && op.staging.root == Staging
    requires forall k :: 0 <= k < |states| ==> StandsBut(files, states[k], op.staging)
    ensures AllCutSound(MomentsOf(states, registry, lines), op)
  {
    var ms := MomentsOf(states, registry, lines);
    forall k | 0 <= k < |ms| ensures CutSound(ms[k], op) {
      StandsIsSound(registry, files, states[k], op.staging);
      PlainIsSound(ms[k], op);
    }
  }

  lemma FrameStands(files: Files, files': Files, source: Path, changed: set<Path>)
    requires SameElsewhere(files, files', changed)
    requires forall p :: p in changed ==> p == source || p !in files || TmpName(p)
    ensures StandsBut(files, files', source)
  {
    forall p: Path | p in files && p != source && !TmpName(p) ensures p in files' && files'[p] == files[p] {
      assert Content(files', p) == Content(files, p);
    }
  }

  /** The operation has ended: its last line is `registry_persisted` or names no destination. */
  ghost predicate OpClosed(lines: seq<J.Line>, op: Operation) {
    && op.base <= lines && |op.base| < |lines|
    && var l := lines[|lines| - 1]; l.Entry? && (l.record.phase == J.PERSISTED || l.record.destination.None?)
  }

  lemma PlainIsClosed(lines: seq<J.Line>, op: Operation)
    requires OwnPlain(lines, op) && |op.base| < |lines|
    ensures OpClosed(lines, op)
  {
    assert PlainLine(lines[|lines| - 1], op);
  }

  lemma LandedSound(m: Moment, op: Operation, d: Path)
    requires Sound(m.registry, m.files) && OwnPlain(m.lines, op) && Landed(m, d)
    ensures CutSound(With(m, LineOf(op, COMMITTED, Some(d))), op)
  {
    PlainIsSound(m, op);
    LineAdded(m, op, LineOf(op, COMMITTED, Some(d)));
  }

  /** The last three moments: the registry has the file and the journal only knows that it was moved; the same while the
      last line is being written; then the journal knows all. */
  ghost predicate PassesWindow(moments: seq<Moment>, now: Moment, op: Operation, d: Path) {
    && |moments| >= 3 && moments[|moments| - 1] == now && Recorded(now.registry, d)
    && |now.lines| >= |op.base| + 2 && OwnPlain(now.lines[..|now.lines| - 2], op)
    && now.lines[|now.lines| - 2] == LineOf(op, COMMITTED, Some(d))
    && now.lines[|now.lines| - 1] == LineOf(op, J.PERSISTED, Some(d))
    && moments[|moments| - 3] == now.(lines := now.lines[..|now.lines| - 1])
    && moments[|moments| - 2] == now.(lines := now.lines[..|now.lines| - 1] + [J.Unusable])
  }

  /** A landing: the line `storage_committed`, the registry transaction, the line `registry_persisted`. */
  ghost function LandMoments(m: Moment, registry: Registry, op: Operation, d: Path): seq<Moment> {
    var committed := With(m, LineOf(op, COMMITTED, Some(d)));
    var registered := committed.(registry := registry);
    Writing(m, LineOf(op, COMMITTED, Some(d))) + [registered] + Writing(registered, LineOf(op, J.PERSISTED, Some(d)))
  }

  ghost function LandEnd(m: Moment, registry: Registry, op: Operation, d: Path): Moment {
    With(With(m, LineOf(op, COMMITTED, Some(d))).(registry := registry), LineOf(op, J.PERSISTED, Some(d)))
  }

  lemma LandIndices(moments: seq<Moment>, m: Moment, registry: Registry, op: Operation, d: Path)
    requires OwnPlain(m.lines, op) && Recorded(registry, d)
    ensures var l := LineOf(op, COMMITTED, Some(d));
            var registered := With(m, l).(registry := registry);
            moments + LandMoments(m, registry, op, d) ==
            ((moments + Writing(m, l)) + [registered]) + Writing(registered, LineOf(op, J.PERSISTED, Some(d)))
    ensures PassesWindow(moments + LandMoments(m, registry, op, d), LandEnd(m, registry, op, d), op, d)
  {
    var now := LandEnd(m, registry, op, d);
    assert now.lines[..|now.lines| - 1] == m.lines + [LineOf(op, COMMITTED, Some(d))];
    assert now.lines[..|now.lines| - 2] == m.lines;
  }

  lemma LandTrail(moments: seq<Moment>, m: Moment, registry: Registry, op: Operation, d: Path, states: seq<Files>,
                  from: nat)
    requires Traced(moments, m, op, states, from) && Sound(m.registry, m.files) && OwnPlain(m.lines, op) && Landed(m, d)
    requires Sound(registry, m.files) && Recorded(registry, d)
    ensures Traced(moments + LandMoments(m, registry, op, d), LandEnd(m, registry, op, d), op, states, from)
    ensures PassesWindow(moments + LandMoments(m, registry, op, d), LandEnd(m, registry, op, d), op, d)
    ensures CutSound(LandEnd(m, registry, op, d), op) && OpClosed(LandEnd(m, registry, op, d).lines, op)
  {
    var l, p := LineOf(op, COMMITTED, Some(d)), LineOf(op, J.PERSISTED, Some(d));
    var committed := With(m, l);
    var registered := committed.(registry := registry);
    PlainIsSound(m, op);
    LandedSound(m, op, d);
    LandedSound(m.(registry := registry), op, d);
    TracedLine(moments, m, op, states, from, l);
    var ms := moments + Writing(m, l);
    TracedRegistry(ms, committed, op, states, from, registered);
    TracedLine(ms + [registered], registered, op, states, from, p);
    LineAdded(registered, op, p);
    LandIndices(moments, m, registry, op, d);
  }

  /** The trail an operation leaves: every moment sound and none left out, the operation closed, and the window passed
      if it queued. */
  ghost predicate Tracked(moments: seq<Moment>, now: Moment, op: Operation, r: Ingest, states: seq<Files>, from: nat) {
    && Traced(moments, now, op, states, from) && CutSound(now, op) && OpClosed(now.lines, op)
    && (r.Ingested? && r.action.Queued? && r.destination.Some? ==> PassesWindow(moments, now, op, r.destination.value))
  }

  /** An operation that landed nothing. */
  lemma PlainTracked(moments: seq<Moment>, now: Moment, op: Operation, r: Ingest, states: seq<Files>, from: nat)
    requires Traced(moments, now, op, states, from) && Sound(now.registry, now.files)
    requires OwnPlain(now.lines, op) && |op.base| < |now.lines|
    requires r.Ingested? ==> r.destination.None?
    ensures Tracked(moments, now, op, r, states, from)
  {
    PlainIsSound(now, op);
    PlainIsClosed(now.lines, op);
  }

  /** An operation that landed nothing and ends with `registry_persisted`. */
  lemma ClosedTracked(moments: seq<Moment>, m: Moment, op: Operation, r: Ingest, states: seq<Files>, from: nat)
    requires Traced(moments, m, op, states, from) && Sound(m.registry, m.files) && OwnPlain(m.lines, op)
    requires r.Ingested? ==> r.destination.None?
    ensures var l := LineOf(op, J.PERSISTED, None);
            Tracked(moments + Writing(m, l), With(m, l), op, r, states, from)
  {
    PlainIsSound(m, op);
    LineAdded(m, op, LineOf(op, J.PERSISTED, None));
    TracedLine(moments, m, op, states, from, LineOf(op, J.PERSISTED, None));
  }

  // ---- operator commands: the file leaves its recorded place before the registry says so ----

  /** Where the record of a hash points. */
  function Place(registry: Registry, sha: Sha): Option<Path> {
    if sha in registry then registry[sha].path else None
  }

  ghost predicate StillThere(m: Moment, place: Option<Path>, files: Files) {
    place.None? || Content(m.files, place.value) == Content(files, place.value)
  }

  /** The path invariant holds at a moment exactly when the file still stands where the record pointed at first, or the
      command has come to its end. */
  ghost predicate SoundUntilLeft(moments: seq<Moment>, place: Option<Path>, files: Files) {
    moments != [] && forall k :: 0 <= k < |moments| ==>
      (Sound(moments[k].registry, moments[k].files) <==> k == |moments| - 1 || StillThere(moments[k], place, files))
  }

  /** While the registry is unchanged, the invariant holds exactly while the file stands. */
  lemma StandsExactly(registry: Registry, files: Files, files': Files, sha: Sha)
    requires Sound(registry, files) && sha in registry && registry[sha].path.Some?
    requires StandsBut(files, files', registry[sha].path.value)
    ensures Sound(registry, files') <==>
      Content(files', registry[sha].path.value) == Content(files, registry[sha].path.value)
  {
    var p := registry[sha].path.value;
    assert RecordSound(sha, registry[sha], files);
    if Content(files', p) == Content(files, p) {
      forall q | Recorded(registry, q) ensures q in files && q in files' && files'[q] == files[q] {
        RecordedPlaces(registry, files, q);
      }
      SoundElsewhere(registry, files, files');
    } else {
      assert !RecordSound(sha, registry[sha], files');
    }
  }

  /** A departure: some disk states under the old registry, then perhaps more moments that end soundly. */
  lemma DepartureTrail(states: seq<Files>, m: Moment, sha: Sha, final: seq<Moment>)
    requires Sound(m.registry, m.files) && sha in m.registry && m.registry[sha].path.Some?
    requires forall k :: 0 <= k < |states| ==> StandsBut(m.files, states[k], m.registry[sha].path.value)
    requires forall k :: 0 <= k < |final| - 1 ==>
      !Sound(final[k].registry, final[k].files) && !StillThere(final[k], m.registry[sha].path, m.files)
    requires var ms := [m] + MomentsOf(states, m.registry, m.lines) + final;
             Sound(ms[|ms| - 1].registry, ms[|ms| - 1].files)
    ensures SoundUntilLeft([m] + MomentsOf(states, m.registry, m.lines) + final, m.registry[sha].path, m.files)
  {
    var gone := [m] + MomentsOf(states, m.registry, m.lines);
    var ms := gone + final;
    forall k | 0 <= k < |ms|
      ensures Sound(ms[k].registry, ms[k].files) <==> k == |ms| - 1 || StillThere(ms[k], m.registry[sha].path, m.files)
    {
      if 1 <= k < |gone| {
        assert ms[k] == Moment(states[k - 1], m.registry, m.lines);
        StandsExactly(m.registry, m.files, states[k - 1], sha);
      } else if k >= |gone| {
        assert ms[k] == final[k - |gone|];
      }
    }
  }

  lemma DiskMomentsCover(m: Moment, states: seq<Files>, from: nat, registry: Registry, lines: seq<J.Line>)
    requires from <= |states|
    ensures CoversStates([m] + MomentsOf(states[from..], registry, lines), states, from)
  {
    var ms := [m] + MomentsOf(states[from..], registry, lines);
    forall j | from <= j < |states| ensures HasFiles(ms, states[j]) {
      assert ms[1 + j - from].files == states[j];
    }
  }

  /** After the rename the path is recorded first, then the status. */
  ghost function RejectMoments(m: Moment, files: Files, sha: Sha, dest: Path): seq<Moment>
    requires sha in m.registry
  {
    [Moment(files, m.registry[sha := Record(m.registry[sha].status, Some(dest))], m.lines),
     Moment(files, m.registry[sha := Record(IsRejected, Some(dest))], m.lines)]
  }

  lemma RejectTrail(m: Moment, files: Files, sha: Sha, dest: Path)
    requires Sound(m.registry, m.files) && sha in m.registry && m.registry[sha].path.Some?
    requires !m.registry[sha].status.IsRejected? && dest.root == Rejected && dest !in m.files
    requires m.registry[sha].path.value in m.files
    requires files == (m.files - {m.registry[sha].path.value})[dest := m.files[m.registry[sha].path.value]]
    requires Sound(m.registry[sha := Record(IsRejected, Some(dest))], files)
    ensures SoundUntilLeft([m] + MomentsOf([files], m.registry, m.lines) + RejectMoments(m, files, sha, dest),
                           m.registry[sha].path, m.files)
  {
    var final := RejectMoments(m, files, sha, dest);
    assert RecordSound(sha, m.registry[sha], m.files);
    assert !RecordSound(sha, final[0].registry[sha], files);
    DepartureTrail([files], m, sha, final);
  }

  lemma PurgeTrail(m: Moment, states: seq<Files>, sha: Sha, end: Moment)
    requires Sound(m.registry, m.files) && sha in m.registry && Sound(end.registry, end.files)
    requires m.registry[sha].path.None? ==> states == []
    requires m.registry[sha].path.Some? ==> states == [m.files - {m.registry[sha].path.value}]
    ensures SoundUntilLeft([m] + MomentsOf(states, m.registry, m.lines) + [end], m.registry[sha].path, m.files)
  {
    if m.registry[sha].path.Some? {
      DepartureTrail(states, m, sha, [end]);
    }
  }

  lemma DepartureCovered(states: seq<Files>, from: nat, m: Moment, sha: Sha, final: seq<Moment>)
    requires Sound(m.registry, m.files) && sha in m.registry && m.registry[sha].path.Some? && from <= |states|
    requires forall k :: from <= k < |states| ==> StandsBut(m.files, states[k], m.registry[sha].path.value)
    requires |final| <= 1
    requires var ms := [m] + MomentsOf(states[from..], m.registry, m.lines) + final;
             Sound(ms[|ms| - 1].registry, ms[|ms| - 1].files)
    ensures var ms := [m] + MomentsOf(states[from..], m.registry, m.lines) + final;
            SoundUntilLeft(ms, m.registry[sha].path, m.files) && CoversStates(ms, states, from)
  {
    DepartureTrail(states[from..], m, sha, final);
    DiskMomentsCover(m, states, from, m.registry, m.lines);
    CoversMoreStates([m] + MomentsOf(states[from..], m.registry, m.lines), final, states, states, from);
  }
}
