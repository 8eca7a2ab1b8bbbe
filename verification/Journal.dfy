/** The ingest operation journal and the replay of interrupted operations (`journal.py`, `ingest.py`). */
module Journal {
  import opened Sequences
  import opened Storage
  import opened Wrappers

  /** A missing destination is `None`; the source treats an empty string the same way. */
  datatype JournalRecord = JournalRecord(opId: string, phase: string, staging: Path, destination: Option<Path>)

  /** A line of the journal file: blank or unparsable lines are skipped, and so are records without id or phase. JSON
      that is not an object makes reading fail. */
  datatype Line = Unusable | NotAnObject | Entry(record: JournalRecord)

  predicate Usable(l: Line) {
    l.Entry? && l.record.opId != "" && l.record.phase != ""
  }

  function Records(lines: seq<Line>): seq<JournalRecord> {
    if lines == [] then []
    else
      var last := lines[|lines| - 1];
      Records(lines[..|lines| - 1]) + (if Usable(last) then [last.record] else [])
  }

  lemma {:induction false} RecordsAppend(a: seq<Line>, b: seq<Line>)
    ensures Records(a + b) == Records(a) + Records(b)
  {
    if b == [] {
      assert a + b == a;
    } else {
      assert (a + b)[..|a + b| - 1] == a + b[..|b| - 1];
      RecordsAppend(a, b[..|b| - 1]);
    }
  }

  lemma {:induction false} RecordsMembers(lines: seq<Line>, r: JournalRecord)
    ensures r in Records(lines) <==> Entry(r) in lines && Usable(Entry(r))
  {
    if lines == [] {
    } else {
      RecordsMembers(lines[..|lines| - 1], r);
      assert lines == lines[..|lines| - 1] + [lines[|lines| - 1]];
    }
  }

  const PERSISTED := "registry_persisted"

  function Ops(records: seq<JournalRecord>): seq<string> {
    if records == [] then [] else Ops(records[..|records| - 1]) + [records[|records| - 1].opId]
  }

  /** The records of one operation, in order. */
  function Of(records: seq<JournalRecord>, op: string): seq<JournalRecord> {
    if records == [] then []
    else
      var last := records[|records| - 1];
      Of(records[..|records| - 1], op) + (if last.opId == op then [last] else [])
  }

  /** The operation appears, and none of its records says that the registry was written. */
  ghost predicate Interrupted(records: seq<JournalRecord>, op: string) {
    && (exists r :: r in records && r.opId == op)
    && (forall r :: r in records && r.opId == op ==> r.phase != PERSISTED)
  }

  /** Position i holds the operation's last record. */
  ghost predicate LatestAt(records: seq<JournalRecord>, op: string, i: nat) {
    i < |records| && records[i].opId == op && forall j :: i < j < |records| ==> records[j].opId != op
  }

  lemma {:induction false} OfMembers(records: seq<JournalRecord>, op: string)
    ensures forall r :: r in Of(records, op) <==> r in records && r.opId == op
  {
    if records == [] {
    } else {
      OfMembers(records[..|records| - 1], op);
      assert records == records[..|records| - 1] + [records[|records| - 1]];
    }
  }

  lemma {:induction false} OfLatest(records: seq<JournalRecord>, op: string) returns (i: nat)
    requires Of(records, op) != []
    ensures LatestAt(records, op, i) && records[i] == Of(records, op)[|Of(records, op)| - 1]
  {
    i := |records| - 1;
    if records[i].opId == op {
    } else {
      var older := records[..i];
      i := OfLatest(older, op);
      assert forall j :: 0 <= j < |older| ==> older[j] == records[j];
    }
  }

  lemma {:induction false} OpsMeaning(records: seq<JournalRecord>)
    ensures forall op :: op in Ops(records) <==> exists r :: r in records && r.opId == op
  {
    if records == [] {
    } else {
      var older, last := records[..|records| - 1], records[|records| - 1];
      OpsMeaning(older);
      assert records == older + [last];
      assert last in records;
    }
  }

  // ---- what replaying one operation does to the disk ----

  function Orphan(p: Path): Path {
    p.(name := p.name + ".orphaned")
  }

  lemma OrphanDiffers(p: Path, q: Path)
    ensures Orphan(p) != p && (Orphan(p) == Orphan(q) ==> p == q)
  {
    assert |Orphan(p).name| > |p.name|;
    var m, n := Orphan(p).name, Orphan(q).name;
    assert m[..|m| - 9] == p.name && n[..|n| - 9] == q.name;
  }

  predicate LandsAt(r: JournalRecord, p: Path) {
    r.destination == Some(p)
  }

  function MoveAside(files: Files, r: JournalRecord): Files {
    if r.destination.Some? && r.destination.value in files
    then (files - {r.destination.value})[Orphan(r.destination.value) := files[r.destination.value]]
    else files
  }

  function ReplayOne(files: Files, r: JournalRecord): Files {
    MoveAside(files, r) - {r.staging}
  }

  function ReplayAll(files: Files, latest: seq<JournalRecord>): Files {
    if latest == [] then files
    else ReplayOne(ReplayAll(files, latest[..|latest| - 1]), latest[|latest| - 1])
  }

  predicate Names(r: JournalRecord, p: Path) {
    r.staging == p || LandsAt(r, p)
  }

  /** The record moves some other file onto p. */
  predicate Fills(files: Files, r: JournalRecord, p: Path) {
    r.destination.Some? && Orphan(r.destination.value) == p && r.destination.value in files
  }

  predicate Touches(files: Files, r: JournalRecord, p: Path) {
    Names(r, p) || Fills(files, r, p)
  }

  /** What a record that touches p leaves there. */
  function Leaves(files: Files, r: JournalRecord, p: Path): Option<Bytes> {
    if r.staging != p && Fills(files, r, p) then Some(files[r.destination.value]) else None
  }

  lemma ReplayOneEffect(files: Files, r: JournalRecord, p: Path)
    ensures Content(ReplayOne(files, r), p) == if Touches(files, r, p) then Leaves(files, r, p) else Content(files, p)
  {
    if r.destination.Some? {
      OrphanDiffers(r.destination.value, p);
    }
  }

  /** Record k finds the disk as the records before it left it. */
  predicate TouchedAt(files: Files, latest: seq<JournalRecord>, p: Path, k: nat)
    requires k < |latest|
  {
    Touches(ReplayAll(files, latest[..k]), latest[k], p)
  }

  ghost predicate Untouched(files: Files, latest: seq<JournalRecord>, p: Path) {
    forall k :: 0 <= k < |latest| ==> !TouchedAt(files, latest, p, k)
  }

  ghost predicate LastTouch(files: Files, latest: seq<JournalRecord>, p: Path, k: nat) {
    k < |latest| && TouchedAt(files, latest, p, k) && forall j :: k < j < |latest| ==> !TouchedAt(files, latest, p, j)
  }

  lemma ReplayStep(files: Files, latest: seq<JournalRecord>, k: nat)
    requires k < |latest|
    ensures ReplayAll(files, latest[..k + 1]) == ReplayOne(ReplayAll(files, latest[..k]), latest[k])
  {
    TakeSnoc(latest, k);
  }

  /** From record k on nothing touches p. */
  lemma {:induction false} TailUntouched(files: Files, latest: seq<JournalRecord>, p: Path, k: nat)
    requires k <= |latest| && forall j :: k <= j < |latest| ==> !TouchedAt(files, latest, p, j)
    ensures Content(ReplayAll(files, latest), p) == Content(ReplayAll(files, latest[..k]), p)
    decreases |latest| - k
  {
    if k == |latest| {
      assert latest[..k] == latest;
    } else {
      TailUntouched(files, latest, p, k + 1);
      ReplayStep(files, latest, k);
      assert !TouchedAt(files, latest, p, k);
      ReplayOneEffect(ReplayAll(files, latest[..k]), latest[k], p);
    }
  }

  lemma {:induction false} FindLastTouch(files: Files, latest: seq<JournalRecord>, p: Path, n: nat)
    returns (k: Option<nat>)
    requires n <= |latest| && forall j :: n <= j < |latest| ==> !TouchedAt(files, latest, p, j)
    ensures k.None? ==> Untouched(files, latest, p)
    ensures k.Some? ==> LastTouch(files, latest, p, k.value)
    decreases n
  {
    if n == 0 {
      k := None;
    } else if TouchedAt(files, latest, p, n - 1) {
      k := Some(n - 1);
    } else {
      k := FindLastTouch(files, latest, p, n - 1);
    }
  }

  /** The whole effect of a replay on a path: the last record to touch it decides, and if none does it is unchanged. */
  lemma ReplayEffect(files: Files, latest: seq<JournalRecord>, p: Path)
    ensures Untouched(files, latest, p) ==> Content(ReplayAll(files, latest), p) == Content(files, p)
    ensures forall k: nat :: LastTouch(files, latest, p, k) ==>
      Content(ReplayAll(files, latest), p) == Leaves(ReplayAll(files, latest[..k]), latest[k], p)
    ensures Untouched(files, latest, p) || exists k: nat :: LastTouch(files, latest, p, k)
  {
    if Untouched(files, latest, p) {
      TailUntouched(files, latest, p, 0);
    }
    forall k: nat | LastTouch(files, latest, p, k)
      ensures Content(ReplayAll(files, latest), p) == Leaves(ReplayAll(files, latest[..k]), latest[k], p)
    {
      TailUntouched(files, latest, p, k + 1);
      ReplayStep(files, latest, k);
      ReplayOneEffect(ReplayAll(files, latest[..k]), latest[k], p);
    }
    var k := FindLastTouch(files, latest, p, |latest|);
  }

  /** Some record puts this content back at p and nothing touches it afterwards. */
  ghost predicate Refilled(files: Files, latest: seq<JournalRecord>, p: Path, content: Bytes) {
    exists k: nat ::
      LastTouch(files, latest, p, k) && Leaves(ReplayAll(files, latest[..k]), latest[k], p) == Some(content)
  }

  ghost predicate Survives(files: Files, latest: seq<JournalRecord>, p: Path)
    requires p in files
  {
    Untouched(files, latest, p) || Refilled(files, latest, p, files[p])
  }

  /** A file keeps its content exactly when no record names it or moves a file onto it, or when the last one to do so
      moves the same content onto it. This covers files whose own name ends in `.orphaned`. */
  lemma SurvivesExactly(files: Files, latest: seq<JournalRecord>, p: Path)
    requires p in files
    ensures Content(ReplayAll(files, latest), p) == Some(files[p]) <==> Survives(files, latest, p)
  {
    ReplayEffect(files, latest, p);
  }

  /** The way replay destroys content: a file stands at the `.orphaned` name of an interrupted destination. */
  lemma OrphanOverwritten(files: Files, r: JournalRecord, d: Path)
    requires r.destination == Some(d) && d in files && Orphan(d) in files && r.staging != Orphan(d)
    requires files[d] != files[Orphan(d)]
    ensures Content(ReplayAll(files, [r]), Orphan(d)) == Some(files[d]) && !Survives(files, [r], Orphan(d))
  {
    OrphanDiffers(d, d);
    assert [r][..0] == [] && ReplayAll(files, [r]) == ReplayOne(files, r);
    ReplayOneEffect(files, r, Orphan(d));
    SurvivesExactly(files, [r], Orphan(d));
  }

  /** What stood at a destination stands at its `.orphaned` name afterwards, unless a record names that too or uses the
      destination as staging path. */
  lemma {:induction false} ReplayKeepsBytes(files: Files, latest: seq<JournalRecord>, d: Path)
    requires d in files && (forall i :: 0 <= i < |latest| ==> latest[i].staging != d && !Names(latest[i], Orphan(d)))
    requires forall i :: 0 <= i < |latest| && latest[i].destination.Some? ==> Orphan(latest[i].destination.value) != d
    ensures (exists i :: 0 <= i < |latest| && LandsAt(latest[i], d)) ==>
      Content(ReplayAll(files, latest), Orphan(d)) == Some(files[d]) && d !in ReplayAll(files, latest)
    ensures (forall i :: 0 <= i < |latest| ==> !LandsAt(latest[i], d)) ==>
      Content(ReplayAll(files, latest), d) == Some(files[d])
  {
    if latest == [] {
    } else {
      var n := |latest| - 1;
      var init, r := latest[..n], latest[n];
      ReplayKeepsBytes(files, init, d);
      assert forall i :: 0 <= i < n ==> init[i] == latest[i];
      ReplayOneEffect(ReplayAll(files, init), r, d);
      ReplayOneEffect(ReplayAll(files, init), r, Orphan(d));
      if r.destination.Some? {
        OrphanDiffers(r.destination.value, d);
      }
    }
  }

  // ---- the replay itself ----

  datatype Report = Report(interrupted: nat, quarantined: nat, removed: nat, unresolved: seq<string>)

  ghost predicate IsLatest(records: seq<JournalRecord>, op: string, r: JournalRecord) {
    exists i: nat :: LatestAt(records, op, i) && records[i] == r
  }

  /** `latest` lists the last records of `ops`, one each. */
  ghost predicate LatestOf(records: seq<JournalRecord>, ops: seq<string>, latest: seq<JournalRecord>) {
    |latest| == |ops| && forall k :: 0 <= k < |ops| ==> IsLatest(records, ops[k], latest[k])
  }

  lemma LatestSnoc(records: seq<JournalRecord>, ops: seq<string>, latest: seq<JournalRecord>, op: string,
                   r: JournalRecord, files: Files)
    requires LatestOf(records, ops, latest) && IsLatest(records, op, r)
    ensures LatestOf(records, ops + [op], latest + [r])
    ensures ReplayAll(files, latest + [r]) == ReplayOne(ReplayAll(files, latest), r)
  {
    assert (latest + [r])[..|latest|] == latest;
  }

  /** The phase test on one operation's records. */
  method TestPhases(ghost records: seq<JournalRecord>, op: string, opRecords: seq<JournalRecord>)
    returns (interrupted: bool)
    requires opRecords == Of(records, op) && op in Ops(records)
    ensures interrupted <==> Interrupted(records, op)
    ensures opRecords != [] && IsLatest(records, op, opRecords[|opRecords| - 1])
  {
    OpsMeaning(records);
    OfMembers(records, op);
    ghost var r :| r in records && r.opId == op;
    assert r in opRecords;
    ghost var at := OfLatest(records, op);
    interrupted := true;
    for i := 0 to |opRecords|
      invariant interrupted <==> forall k :: 0 <= k < i ==> opRecords[k].phase != PERSISTED
    {
      if opRecords[i].phase == PERSISTED {
        interrupted := false;
      }
    }
  }

  /** Reading fails at the first line of JSON that is not an object. */
  method ReadAll(lines: seq<Line>) returns (records: Option<seq<JournalRecord>>)
    ensures records.None? <==> NotAnObject in lines
    ensures records.Some? ==> records.value == Records(lines)
  {
    var read := [];
    for i := 0 to |lines|
      invariant read == Records(lines[..i]) && NotAnObject !in lines[..i]
    {
      TakeSnoc(lines, i);
      if lines[i].NotAnObject? {
        return None;
      }
      if Usable(lines[i]) {
        read := read + [lines[i].record];
      }
    }
    assert lines[..|lines|] == lines;
    return Some(read);
  }

  ghost predicate Grouped(records: seq<JournalRecord>, byOp: map<string, seq<JournalRecord>>) {
    forall op :: Of(records, op) == if op in byOp then byOp[op] else []
  }

  lemma GroupedStep(records: seq<JournalRecord>, i: nat, byOp: map<string, seq<JournalRecord>>)
    requires i < |records| && Grouped(records[..i], byOp)
    ensures var r := records[i];
            Grouped(records[..i + 1], byOp[r.opId := (if r.opId in byOp then byOp[r.opId] else []) + [r]])
    ensures Ops(records[..i + 1]) == Ops(records[..i]) + [records[i].opId]
  {
    TakeSnoc(records, i);
  }

  /** Operations in order of first appearance, each with its records. */
  ghost predicate IsGrouping(records: seq<JournalRecord>, order: seq<string>, byOp: map<string, seq<JournalRecord>>) {
    order == Dedup(Ops(records)) && byOp.Keys == Elements(order) && Grouped(records, byOp)
  }

  function Filed(byOp: map<string, seq<JournalRecord>>, r: JournalRecord): map<string, seq<JournalRecord>> {
    byOp[r.opId := (if r.opId in byOp then byOp[r.opId] else []) + [r]]
  }

  lemma GroupingStep(records: seq<JournalRecord>, i: nat, order: seq<string>, byOp: map<string, seq<JournalRecord>>)
    requires i < |records| && IsGrouping(records[..i], order, byOp)
    ensures IsGrouping(records[..i + 1], Push(order, records[i].opId), Filed(byOp, records[i]))
  {
    GroupedStep(records, i, byOp);
    DedupPush(Ops(records[..i]), records[i].opId);
    assert Elements(Push(order, records[i].opId)) == Elements(order) + {records[i].opId};
  }

  /** One record, under its operation. */
  method FileRecord(order: seq<string>, byOp: map<string, seq<JournalRecord>>, r: JournalRecord)
    returns (order': seq<string>, byOp': map<string, seq<JournalRecord>>)
    requires byOp.Keys == Elements(order)
    ensures order' == Push(order, r.opId) && byOp' == Filed(byOp, r)
  {
    order', byOp' := order, byOp;
    if r.opId !in byOp {
      order', byOp' := order + [r.opId], byOp[r.opId := []];
    }
    byOp' := byOp'[r.opId := byOp'[r.opId] + [r]];
  }

  /** `by_op`, with the order of its keys. */
  method GroupByOp(records: seq<JournalRecord>) returns (order: seq<string>, byOp: map<string, seq<JournalRecord>>)
    ensures IsGrouping(records, order, byOp)
  {
    order, byOp := [], map[];
    for i := 0 to |records|
      invariant IsGrouping(records[..i], order, byOp)
    {
      GroupingStep(records, i, order, byOp);
      order, byOp := FileRecord(order, byOp, records[i]);
    }
    assert records[..|records|] == records;
  }

  /** The interrupted ones among some operations, in their order. */
  ghost function InterruptedOf(records: seq<JournalRecord>, order: seq<string>): seq<string> {
    if order == [] then []
    else
      var op := order[|order| - 1];
      InterruptedOf(records, order[..|order| - 1]) + if Interrupted(records, op) then [op] else []
  }

  /** They are picked, each once. */
  ghost predicate Picked(records: seq<JournalRecord>, order: seq<string>, picked: seq<string>) {
    && Distinct(picked) && picked == InterruptedOf(records, order)
    && forall op :: op in picked <==> op in order && Interrupted(records, op)
  }

  lemma PickedStep(records: seq<JournalRecord>, order: seq<string>, i: nat, picked: seq<string>)
    requires Distinct(order) && i < |order| && Picked(records, order[..i], picked)
    ensures Picked(records, order[..i + 1], if Interrupted(records, order[i]) then picked + [order[i]] else picked)
  {
    TakeSnoc(order, i);
    assert order[i] !in order[..i] && order[..i + 1][..i] == order[..i];
  }

  /** What replaying a journal works on: the interrupted operations, each once, with their last records. */
  ghost predicate Replays(records: seq<JournalRecord>, unresolved: seq<string>, latest: seq<JournalRecord>) {
    && unresolved == InterruptedOf(records, Dedup(Ops(records)))
    && Distinct(unresolved) && (forall op :: op in unresolved <==> Interrupted(records, op))
    && LatestOf(records, unresolved, latest)
  }

  /** A usable first record of its operation that does not end it. */
  predicate Begins(record: JournalRecord, records: seq<JournalRecord>) {
    Usable(Entry(record)) && record.phase != PERSISTED && record.opId !in Ops(records)
  }

  /** The operations dealt with so far: the interrupted ones picked, with their last records. */
  ghost predicate DealtWith(records: seq<JournalRecord>, ops: seq<string>, picked: seq<string>,
                            latest: seq<JournalRecord>)
  {
    Picked(records, ops, picked) && LatestOf(records, picked, latest)
  }

  lemma DealtSkip(records: seq<JournalRecord>, order: seq<string>, i: nat, picked: seq<string>,
                  latest: seq<JournalRecord>)
    requires Distinct(order) && i < |order| && DealtWith(records, order[..i], picked, latest)
    requires !Interrupted(records, order[i])
    ensures DealtWith(records, order[..i + 1], picked, latest)
  {
    PickedStep(records, order, i, picked);
  }

  lemma DealtPick(records: seq<JournalRecord>, order: seq<string>, i: nat, picked: seq<string>,
                  latest: seq<JournalRecord>, r: JournalRecord, start: Files)
    requires Distinct(order) && i < |order| && DealtWith(records, order[..i], picked, latest)
    requires Interrupted(records, order[i]) && IsLatest(records, order[i], r)
    ensures DealtWith(records, order[..i + 1], picked + [order[i]], latest + [r])
    ensures ReplayAll(start, latest + [r]) == ReplayOne(ReplayAll(start, latest), r)
  {
    PickedStep(records, order, i, picked);
    LatestSnoc(records, picked, latest, order[i], r, start);
  }

  /** Replaying the k-th of these records sets a file aside, or removes a staged one. */
  ghost predicate SetsAside(start: Files, latest: seq<JournalRecord>, k: nat)
    requires k < |latest|
  {
    latest[k].destination.Some? && latest[k].destination.value in ReplayAll(start, latest[..k])
  }

  ghost predicate Removes(start: Files, latest: seq<JournalRecord>, k: nat)
    requires k < |latest|
  {
    latest[k].staging in MoveAside(ReplayAll(start, latest[..k]), latest[k])
  }

  ghost function Asides(start: Files, latest: seq<JournalRecord>): set<nat> {
    set k: nat | k < |latest| && SetsAside(start, latest, k)
  }

  ghost function Removals(start: Files, latest: seq<JournalRecord>): set<nat> {
    set k: nat | k < |latest| && Removes(start, latest, k)
  }

  lemma AsidesStep(start: Files, latest: seq<JournalRecord>, r: JournalRecord)
    ensures Asides(start, latest + [r]) ==
            if SetsAside(start, latest + [r], |latest|) then Asides(start, latest) + {|latest|}
            else Asides(start, latest)
  {
    forall k: nat | k < |latest| ensures SetsAside(start, latest + [r], k) == SetsAside(start, latest, k) {
      assert (latest + [r])[..k] == latest[..k];
    }
  }

  lemma RemovalsStep(start: Files, latest: seq<JournalRecord>, r: JournalRecord)
    ensures Removals(start, latest + [r]) ==
            if Removes(start, latest + [r], |latest|) then Removals(start, latest) + {|latest|}
            else Removals(start, latest)
  {
    forall k: nat | k < |latest| ensures Removes(start, latest + [r], k) == Removes(start, latest, k) {
      assert (latest + [r])[..k] == latest[..k];
    }
  }

  /** The two counters are the numbers of records that do so. */
  ghost predicate Counted(start: Files, latest: seq<JournalRecord>, moved: nat, removed: nat) {
    moved == |Asides(start, latest)| && removed == |Removals(start, latest)|
  }

  lemma CountedStep(start: Files, latest: seq<JournalRecord>, r: JournalRecord, moved: nat, removed: nat)
    requires Counted(start, latest, moved, removed)
    ensures var more, n := latest + [r], |latest|;
            Counted(start, more, moved + (if SetsAside(start, more, n) then 1 else 0),
                    removed + (if Removes(start, more, n) then 1 else 0))
  {
    AsidesStep(start, latest, r);
    RemovalsStep(start, latest, r);
  }

  class Recovery {
    var files: Files
    /** The active journal file, not rotated. */
    var lines: seq<Line>
    /** The last line lacks its line feed: the write of it was cut off. */
    var torn: bool

    constructor (files: Files, lines: seq<Line>, torn: bool)
      requires torn ==> lines != []
      ensures Valid() && this.files == files && this.lines == lines && this.torn == torn
    {
      this.files, this.lines, this.torn := files, lines, torn;
    }

    ghost predicate Valid()
      reads this
    {
      torn ==> lines != []
    }

    /** A record read back is the last one; only its own operation's standing can change, and `registry_persisted`
        ends an interruption for good. After a torn line the record runs into it, and neither can be read. */
    method Append(record: JournalRecord)
      requires Valid()
      modifies this`lines, this`torn
      ensures Valid() && !torn
      ensures old(torn) ==> lines == old(lines)[..|old(lines)| - 1] + [Unusable]
      ensures old(torn) ==> Records(lines) == Records(old(lines)[..|old(lines)| - 1])
      ensures !old(torn) ==> Records(lines) == Records(old(lines)) + (if Usable(Entry(record)) then [record] else [])
      ensures !old(torn) ==> (NotAnObject in lines <==> NotAnObject in old(lines))
      ensures !old(torn) ==> forall op :: op != record.opId ==>
        (Interrupted(Records(lines), op) <==> Interrupted(Records(old(lines)), op))
      ensures !old(torn) && Usable(Entry(record)) && record.phase == PERSISTED ==>
        !Interrupted(Records(lines), record.opId)
      ensures !old(torn) && Begins(record, Records(old(lines))) ==> Interrupted(Records(lines), record.opId)
    {
      if torn {
        var whole := lines[..|lines| - 1];
        assert (whole + [Unusable])[..|whole|] == whole;
        lines, torn := whole + [Unusable], false;
        return;
      }
      RecordsAppend(lines, [Entry(record)]);
      assert Records([Entry(record)]) == if Usable(Entry(record)) then [record] else [] by {
        assert [Entry(record)][..0] == [];
      }
      OpsMeaning(Records(lines));
      lines := lines + [Entry(record)];
    }

    method ReplayRecord(r: JournalRecord) returns (moved: bool, removed: bool)
      modifies this`files
      ensures files == ReplayOne(old(files), r)
      ensures moved <==> r.destination.Some? && r.destination.value in old(files)
      ensures removed <==> r.staging in MoveAside(old(files), r)
    {
      moved := r.destination.Some? && r.destination.value in files;
      if moved {
        var d := r.destination.value;
        files := (files - {d})[Orphan(d) := files[d]];
      }
      removed := r.staging in files;
      if removed {
        files := files - {r.staging};
      }
    }

    /** One operation: replayed if interrupted. */
    method ReplayOp(ghost records: seq<JournalRecord>, order: seq<string>, i: nat, opRecords: seq<JournalRecord>,
                    unresolved: seq<string>, moved: nat, removed: nat, ghost latest: seq<JournalRecord>,
                    ghost start: Files)
      returns (unresolved': seq<string>, moved': nat, removed': nat, ghost latest': seq<JournalRecord>)
      requires Distinct(order) && i < |order| && order[i] in Ops(records) && opRecords == Of(records, order[i])
      requires DealtWith(records, order[..i], unresolved, latest) && files == ReplayAll(start, latest)
      requires Counted(start, latest, moved, removed)
      modifies this`files
      ensures DealtWith(records, order[..i + 1], unresolved', latest') && files == ReplayAll(start, latest')
      ensures Counted(start, latest', moved', removed') && |unresolved'| <= |unresolved| + 1
    {
      unresolved', moved', removed', latest' := unresolved, moved, removed, latest;
      var interrupted := TestPhases(records, order[i], opRecords);
      if !interrupted {
        DealtSkip(records, order, i, unresolved, latest);
        return;
      }
      var last := opRecords[|opRecords| - 1];
      DealtPick(records, order, i, unresolved, latest, last, start);
      CountedStep(start, latest, last, moved, removed);
      assert (latest + [last])[..|latest|] == latest;
      var q, m := ReplayRecord(last);
      unresolved', latest' := unresolved + [order[i]], latest + [last];
      moved', removed' := if q then moved + 1 else moved, if m then removed + 1 else removed;
    }

    /** The loop over the grouped operations. */
    method ReplayOps(ghost records: seq<JournalRecord>, order: seq<string>, byOp: map<string, seq<JournalRecord>>)
      returns (quarantined: nat, removed: nat, unresolved: seq<string>, ghost latest: seq<JournalRecord>)
      requires Distinct(order)
      requires Grouped(records, byOp) && forall op :: op in order ==> op in Ops(records) && op in byOp
      modifies this`files
      ensures Counted(old(files), latest, quarantined, removed) && (order == [] ==> unresolved == [])
      ensures DealtWith(records, order, unresolved, latest) && files == ReplayAll(old(files), latest)
    {
      quarantined, removed, unresolved, latest := 0, 0, [], [];
      for i := 0 to |order|
        invariant Counted(old(files), latest, quarantined, removed) && |unresolved| <= i
        invariant DealtWith(records, order[..i], unresolved, latest) && files == ReplayAll(old(files), latest)
      {
        assert order[i] in order;
        unresolved, quarantined, removed, latest :=
          ReplayOp(records, order, i, byOp[order[i]], unresolved, quarantined, removed, latest, old(files));
      }
      assert order[..|order|] == order;
    }

    /** Replay treats an operation as interrupted exactly when none of its records says the registry was written,
        and acts on the last record of each such operation only. When the journal cannot be read it does nothing. */
    method Replay() returns (report: Option<Report>, ghost latest: seq<JournalRecord>)
      modifies this
      ensures report.None? <==> NotAnObject in old(lines)
      ensures report.None? ==> files == old(files) && lines == old(lines) && torn == old(torn)
      ensures report.Some? ==>
        && lines == [] && !torn && files == ReplayAll(old(files), latest)
        && Replays(Records(old(lines)), report.value.unresolved, latest)
        && report.value.interrupted == |report.value.unresolved|
        && Counted(old(files), latest, report.value.quarantined, report.value.removed)
        && (Records(old(lines)) == [] ==> report.value.unresolved == [])
    {
      latest := [];
      var read := ReadAll(lines);
      if read.None? {
        return None, latest;
      }
      var records := read.value;
      var order, byOp := GroupByOp(records);
      DedupElements(Ops(records));
      OpsMeaning(records);
      var quarantined, removed, unresolved;
      quarantined, removed, unresolved, latest := ReplayOps(records, order, byOp);
      lines, torn := [], false;
      report := Some(Report(|unresolved|, quarantined, removed, unresolved));
    }

    /** An immediate second replay finds nothing and changes nothing. */
    method ReplayTwice() returns (first: Option<Report>, second: Option<Report>)
      modifies this
      ensures first.Some? ==> second == Some(Report(0, 0, 0, [])) && lines == []
      ensures first.Some? ==>
        exists latest ::
          Replays(Records(old(lines)), first.value.unresolved, latest) && files == ReplayAll(old(files), latest)
      ensures first.None? ==> second.None? && files == old(files) && lines == old(lines) && torn == old(torn)
    {
      ghost var l1, l2;
      first, l1 := Replay();
      second, l2 := Replay();
    }
  }
}
