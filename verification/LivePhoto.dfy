/** The deferred pairing queue for Live Photo components (`live_photo.py`). */
module LivePhoto {
  import Storage
  import opened Sequences
  import opened Wrappers

  datatype Component = Photo | Video

  /** `captured` is the parsed capture time in microseconds; `None` stands for a timestamp that does not parse. */
  datatype Candidate = Candidate(account: string, onedriveId: string, filename: string, captured: Option<int>)

  datatype Queued = Queued(candidate: Candidate, component: Component, stem: string, captured: int, queuedAt: int)

  datatype Pair = Pair(account: string, stem: string, photoId: string, videoId: string)

  const TOLERANCE: int := 3_000_000 // three seconds, the only value V1 accepts

  function Lower(s: string): string {
    seq(|s|, i requires 0 <= i < |s| => if 'A' <= s[i] <= 'Z' then (s[i] as int + 32) as char else s[i])
  }

  function Classify(filename: string): Option<Component> {
    var ext := Lower(Storage.Suffix(filename));
    if ext in {".heic", ".jpg", ".jpeg", ".png"} then Some(Photo)
    else if ext in {".mov", ".mp4", ".m4v"} then Some(Video)
    else None
  }

  /** The same text, but for capital letters in the first. */
  ghost predicate SameButCase(s: string, t: string) {
    |s| == |t| && forall i :: 0 <= i < |s| ==> s[i] == t[i] || ('a' <= t[i] <= 'z' && s[i] as int == t[i] as int - 32)
  }

  /** Something stands before the extension, which may be in capitals. */
  ghost predicate EndsIn(filename: string, ext: string) {
    |filename| > |ext| && SameButCase(filename[|filename| - |ext|..], ext)
  }

  /** One dot, at the start, and no capitals. */
  ghost predicate IsExtension(ext: string) {
    && |ext| > 1 && ext[0] == '.'
    && (forall i :: 1 <= i < |ext| ==> ext[i] != '.') && (forall i :: 0 <= i < |ext| ==> !('A' <= ext[i] <= 'Z'))
  }

  lemma LowerMeans(s: string, t: string)
    requires IsExtension(t)
    ensures Lower(s) == t <==> SameButCase(s, t)
  {
    if SameButCase(s, t) {
      assert forall i :: 0 <= i < |s| ==> Lower(s)[i] == t[i];
    }
    if Lower(s) == t {
      assert forall i :: 0 <= i < |s| ==> Lower(s)[i] == t[i];
    }
  }

  lemma SuffixMeans(filename: string, ext: string)
    requires IsExtension(ext)
    ensures Lower(Storage.Suffix(filename)) == ext <==> EndsIn(filename, ext)
  {
    LowerMeans(Storage.Suffix(filename), ext);
    if EndsIn(filename, ext) {
      var at := |filename| - |ext|;
      assert filename[at] == '.' by { assert filename[at..][0] == filename[at]; }
      forall i | at < i < |filename| ensures filename[i] != '.' {
        assert filename[at..][i - at] == filename[i];
      }
      assert Storage.LastDot(filename) == at;
    }
  }

  /** A photo or a video is told by its extension, in letters of either case. */
  lemma ClassifyMeans(filename: string)
    ensures Classify(filename) == Some(Photo) <==>
      EndsIn(filename, ".heic") || EndsIn(filename, ".jpg") || EndsIn(filename, ".jpeg") || EndsIn(filename, ".png")
    ensures Classify(filename) == Some(Video) <==>
      EndsIn(filename, ".mov") || EndsIn(filename, ".mp4") || EndsIn(filename, ".m4v")
  {
    SuffixMeans(filename, ".heic");
    SuffixMeans(filename, ".jpg");
    SuffixMeans(filename, ".jpeg");
    SuffixMeans(filename, ".png");
    SuffixMeans(filename, ".mov");
    SuffixMeans(filename, ".mp4");
    SuffixMeans(filename, ".m4v");
    assert ".mov"[1] != ".heic"[1] && ".mov"[1] != ".jpg"[1] && ".mov"[1] != ".jpeg"[1] && ".mov"[1] != ".png"[1];
    assert ".mp4"[1] != ".heic"[1] && ".mp4"[1] != ".jpg"[1] && ".mp4"[1] != ".jpeg"[1] && ".mp4"[1] != ".png"[1];
    assert ".m4v"[1] != ".heic"[1] && ".m4v"[1] != ".jpg"[1] && ".m4v"[1] != ".jpeg"[1] && ".m4v"[1] != ".png"[1];
  }

  function Distance(a: int, b: int): nat {
    if a < b then b - a else a - b
  }

  function Opposite(c: Component): Component {
    if c.Photo? then Video else Photo
  }

  /** Same account and stem, opposite kind, close enough in time. */
  predicate Matchable(a: Queued, b: Queued) {
    && a.candidate.account == b.candidate.account && a.stem == b.stem
    && a.component == Opposite(b.component) && Distance(a.captured, b.captured) <= TOLERANCE
  }

  /** The entry's derived columns are those of its candidate. */
  ghost predicate WellFormed(q: Queued) {
    && Classify(q.candidate.filename) == Some(q.component) && q.stem == Storage.Stem(q.candidate.filename)
    && q.candidate.captured == Some(q.captured)
  }

  ghost predicate NoMatch(q: seq<Queued>) {
    forall a, b :: a in q && b in q ==> !Matchable(a, b)
  }

  /** Of the entries that match e, position `at` holds one nearest in time, and the first such. */
  ghost predicate FirstNearest(q: seq<Queued>, e: Queued, at: nat) {
    && at < |q| && Matchable(q[at], e)
    && (forall k :: 0 <= k < |q| && Matchable(q[k], e) ==>
          Distance(q[at].captured, e.captured) <= Distance(q[k].captured, e.captured))
    && (forall k :: 0 <= k < at && Matchable(q[k], e) ==>
          Distance(q[at].captured, e.captured) < Distance(q[k].captured, e.captured))
  }

  function Without(q: seq<Queued>, at: nat): seq<Queued>
    requires at < |q|
  {
    q[..at] + q[at + 1..]
  }

  lemma WithoutMultiset(q: seq<Queued>, at: nat)
    requires at < |q|
    ensures multiset(q) == multiset(Without(q, at)) + multiset{q[at]}
    ensures forall x :: x in Without(q, at) ==> x in q
  {
    assert q == q[..at] + [q[at]] + q[at + 1..];
  }

  /** `eligible` lists, in queue order, exactly the entries that match. */
  ghost predicate Lists(q: seq<Queued>, e: Queued, eligible: seq<Queued>, positions: seq<nat>) {
    && |positions| == |eligible|
    && (forall k :: 0 <= k < |eligible| ==>
          positions[k] < |q| && q[positions[k]] == eligible[k] && Matchable(eligible[k], e))
    && (forall k, l :: 0 <= k < l < |eligible| ==> positions[k] < positions[l])
    && (forall i :: 0 <= i < |q| && Matchable(q[i], e) ==> i in positions)
  }

  lemma ListsMembers(q: seq<Queued>, e: Queued, eligible: seq<Queued>, positions: seq<nat>)
    requires Lists(q, e, eligible, positions)
    ensures forall x :: x in eligible <==> x in q && Matchable(x, e)
  {
    forall x | x in q && Matchable(x, e) ensures x in eligible {
      var i :| 0 <= i < |q| && q[i] == x;
      var k :| 0 <= k < |positions| && positions[k] == i;
      assert eligible[k] == x;
    }
  }

  method Eligible(q: seq<Queued>, e: Queued) returns (eligible: seq<Queued>, ghost positions: seq<nat>)
    ensures Lists(q, e, eligible, positions)
    ensures forall x :: x in eligible <==> x in q && Matchable(x, e)
  {
    eligible, positions := [], [];
    for i := 0 to |q|
      invariant Lists(q[..i], e, eligible, positions)
    {
      var x := q[i];
      if x.candidate.account == e.candidate.account && x.stem == e.stem && x.component != e.component &&
         Distance(x.captured, e.captured) <= TOLERANCE
      {
        eligible, positions := eligible + [q[i]], positions + [i];
      }
    }
    assert q[..|q|] == q;
    ListsMembers(q, e, eligible, positions);
  }

  /** `min(eligible, key=distance)`: the first of the nearest. */
  method Nearest(eligible: seq<Queued>, e: Queued) returns (best: Queued, ghost k: nat)
    requires eligible != []
    ensures k < |eligible| && best == eligible[k]
    ensures forall l :: 0 <= l < |eligible| ==>
      Distance(best.captured, e.captured) <= Distance(eligible[l].captured, e.captured)
    ensures forall l :: 0 <= l < k ==> Distance(best.captured, e.captured) < Distance(eligible[l].captured, e.captured)
  {
    best, k := eligible[0], 0;
    for i := 1 to |eligible|
      invariant k < i && best == eligible[k]
      invariant forall l :: 0 <= l < i ==>
        Distance(best.captured, e.captured) <= Distance(eligible[l].captured, e.captured)
      invariant forall l :: 0 <= l < k ==>
        Distance(best.captured, e.captured) < Distance(eligible[l].captured, e.captured)
    {
      if Distance(eligible[i].captured, e.captured) < Distance(best.captured, e.captured) {
        best, k := eligible[i], i;
      }
    }
  }

  /** Removing by value removes the chosen position, even when equal entries exist. */
  lemma RemovedIsChosen(q: seq<Queued>, e: Queued, eligible: seq<Queued>, positions: seq<nat>, k: nat, at: nat)
    requires Lists(q, e, eligible, positions) && k < |eligible|
    requires forall l :: 0 <= l < |eligible| ==>
      Distance(eligible[k].captured, e.captured) <= Distance(eligible[l].captured, e.captured)
    requires forall l :: 0 <= l < k ==>
      Distance(eligible[k].captured, e.captured) < Distance(eligible[l].captured, e.captured)
    requires at < |q| && q[at] == eligible[k] && forall i :: 0 <= i < at ==> q[i] != eligible[k]
    ensures at == positions[k] && FirstNearest(q, e, at)
  {
    assert at in positions;
    var l :| 0 <= l < |positions| && positions[l] == at;
    assert q[positions[k]] == eligible[k];
    forall i | 0 <= i < |q| && Matchable(q[i], e)
      ensures Distance(q[at].captured, e.captured) <= Distance(q[i].captured, e.captured)
      ensures i < at ==> Distance(q[at].captured, e.captured) < Distance(q[i].captured, e.captured)
    {
      var m :| 0 <= m < |positions| && positions[m] == i;
      assert q[positions[m]] == eligible[m];
    }
  }

  ghost predicate HasMatch(q: seq<Queued>, e: Queued) {
    exists k :: 0 <= k < |q| && Matchable(q[k], e)
  }

  /** The choice of a counterpart: none exactly when nothing matches, else the position that `remove` clears. */
  method Choose(q: seq<Queued>, e: Queued) returns (at: Option<nat>)
    ensures at.Some? <==> HasMatch(q, e)
    ensures at.Some? ==> FirstNearest(q, e, at.value)
  {
    var eligible, positions := Eligible(q, e);
    if eligible == [] {
      return None;
    }
    var counterpart, k := Nearest(eligible, e);
    assert q[positions[k]] == counterpart;
    var index := IndexOf(q, counterpart);
    RemovedIsChosen(q, e, eligible, positions, k, index);
    return Some(index);
  }

  lemma NoMatchAppend(q: seq<Queued>, e: Queued)
    requires NoMatch(q) && !HasMatch(q, e)
    ensures NoMatch(q + [e])
  {
    forall a, b | a in q + [e] && b in q + [e] ensures !Matchable(a, b) {
      forall x | x in q ensures !Matchable(x, e) && !Matchable(e, x) {
        var k :| 0 <= k < |q| && q[k] == x;
        assert !Matchable(q[k], e);
      }
    }
  }

  datatype Arrival = Ignored | Unparsable | Deferred | Resolved(pair: Pair)

  /** The pair names one photo and one video that share account and stem. */
  ghost predicate Pairs(p: Pair, a: Queued, b: Queued) {
    && Matchable(a, b) && p.account == a.candidate.account == b.candidate.account && p.stem == a.stem == b.stem
    && p.photoId == (if a.component.Photo? then a else b).candidate.onedriveId
    && p.videoId == (if a.component.Photo? then b else a).candidate.onedriveId
  }

  function EntryOf(c: Candidate, now: int): Queued
    requires Classify(c.filename).Some? && c.captured.Some?
  {
    Queued(c, Classify(c.filename).value, Storage.Stem(c.filename), c.captured.value, now)
  }

  /** Whole seconds in the queue, never negative. */
  function Age(q: Queued, now: int): nat {
    if now < q.queuedAt then 0 else (now - q.queuedAt) / 1_000_000
  }

  /** The entries on one side of the age limit, in queue order. */
  function Selected(q: seq<Queued>, now: int, maxAge: int, aged: bool): seq<Queued> {
    if q == [] then []
    else
      var rest, last := Selected(q[..|q| - 1], now, maxAge, aged), q[|q| - 1];
      if (Age(last, now) >= maxAge) == aged then rest + [last] else rest
  }

  lemma SelectedSnoc(q: seq<Queued>, last: Queued, now: int, maxAge: int, aged: bool)
    ensures Selected(q + [last], now, maxAge, aged) ==
            Selected(q, now, maxAge, aged) + (if (Age(last, now) >= maxAge) == aged then [last] else [])
  {
    assert (q + [last])[..|q|] == q;
  }

  /** Both sides together are the queue. */
  lemma {:induction false} SelectedSplits(q: seq<Queued>, now: int, maxAge: int)
    ensures multiset(q) == multiset(Selected(q, now, maxAge, false)) + multiset(Selected(q, now, maxAge, true))
    ensures forall x :: x in Selected(q, now, maxAge, true) ==> Age(x, now) >= maxAge
    ensures forall x :: x in Selected(q, now, maxAge, false) ==> Age(x, now) < maxAge
  {
    if q == [] {
    } else {
      var init, last := q[..|q| - 1], q[|q| - 1];
      assert q == init + [last];
      SelectedSplits(init, now, maxAge);
      SelectedSnoc(init, last, now, maxAge, false);
      SelectedSnoc(init, last, now, maxAge, true);
    }
  }

  datatype Event = Arrives(candidate: Candidate, now: int) | Sweep(now: int, maxAge: int)

  /** The entry an event brings, if it is an arrival that classifies and parses. */
  function EntryBy(e: Event): multiset<Queued> {
    if e.Arrives? && Classify(e.candidate.filename).Some? && e.candidate.captured.Some?
    then multiset{EntryOf(e.candidate, e.now)} else multiset{}
  }

  /** All entries a run brings. */
  function Classified(events: seq<Event>): multiset<Queued> {
    if events == [] then multiset{} else Classified(events[..|events| - 1]) + EntryBy(events[|events| - 1])
  }

  lemma ClassifiedStep(events: seq<Event>, i: nat)
    requires i < |events|
    ensures Classified(events[..i + 1]) == Classified(events[..i]) + EntryBy(events[i])
  {
    TakeSnoc(events, i);
  }

  /** The two entries behind a pair. */
  datatype Couple = Couple(one: Queued, other: Queued)

  function Members(couples: seq<Couple>): multiset<Queued> {
    if couples == [] then multiset{}
    else Members(couples[..|couples| - 1]) + multiset{couples[|couples| - 1].one, couples[|couples| - 1].other}
  }

  lemma MembersSnoc(couples: seq<Couple>, c: Couple)
    ensures Members(couples + [c]) == Members(couples) + multiset{c.one, c.other}
  {
    assert (couples + [c])[..|couples|] == couples;
  }

  ghost predicate AllPair(pairs: seq<Pair>, couples: seq<Couple>) {
    |pairs| == |couples| && forall i :: 0 <= i < |pairs| ==> Pairs(pairs[i], couples[i].one, couples[i].other)
  }

  lemma AllPairSnoc(pairs: seq<Pair>, couples: seq<Couple>, p: Pair, c: Couple)
    requires AllPair(pairs, couples) && Pairs(p, c.one, c.other)
    ensures AllPair(pairs + [p], couples + [c])
  {
  }

  class DeferredPairQueue {
    var queued: seq<Queued>
    /** Every classified entry so far, and where those no longer queued went. */
    ghost var entered: multiset<Queued>
    ghost var paired: multiset<Queued>
    ghost var aged: multiset<Queued>

    constructor ()
      ensures Valid() && queued == [] && entered == multiset{} && paired == multiset{} && aged == multiset{}
    {
      queued, entered, paired, aged := [], multiset{}, multiset{}, multiset{};
    }

    ghost predicate Valid()
      reads this
    {
      && NoMatch(queued) && (forall q :: q in queued ==> WellFormed(q))
      && entered == multiset(queued) + paired + aged
    }

    method Enqueue(e: Queued)
      requires Valid() && WellFormed(e) && !HasMatch(queued, e)
      modifies this`queued, this`entered
      ensures Valid() && queued == old(queued) + [e] && entered == old(entered) + multiset{e}
    {
      NoMatchAppend(queued, e);
      queued := queued + [e];
      entered := entered + multiset{e};
    }

    method PairOff(e: Queued, index: nat) returns (p: Pair)
      requires Valid() && index < |queued| && Matchable(queued[index], e)
      modifies this`queued, this`entered, this`paired
      ensures Valid() && queued == Without(old(queued), index) && Pairs(p, e, old(queued)[index])
      ensures entered == old(entered) + multiset{e} && paired == old(paired) + multiset{e, old(queued)[index]}
    {
      var counterpart := queued[index];
      WithoutMultiset(queued, index);
      queued := queued[..index] + queued[index + 1..];
      entered := entered + multiset{e};
      paired := paired + multiset{e, counterpart};
      if e.component.Photo? {
        p := Pair(e.candidate.account, e.stem, e.candidate.onedriveId, counterpart.candidate.onedriveId);
      } else {
        p := Pair(e.candidate.account, e.stem, counterpart.candidate.onedriveId, e.candidate.onedriveId);
      }
    }

    method Ingest(c: Candidate, now: int) returns (r: Arrival, ghost at: nat)
      requires Valid()
      modifies this
      ensures Valid() && aged == old(aged)
      ensures r.Ignored? <==> Classify(c.filename).None?
      ensures r.Unparsable? <==> Classify(c.filename).Some? && c.captured.None?
      ensures r.Ignored? || r.Unparsable? ==> queued == old(queued) && entered == old(entered) && paired == old(paired)
      ensures r.Deferred? || r.Resolved? ==> Classify(c.filename).Some? && c.captured.Some?
      ensures r.Deferred? ==> queued == old(queued) + [EntryOf(c, now)] && paired == old(paired)
      ensures r.Deferred? || r.Resolved? ==> entered == old(entered) + multiset{EntryOf(c, now)}
      ensures r.Resolved? <==> c.captured.Some? && Classify(c.filename).Some? && HasMatch(old(queued), EntryOf(c, now))
      ensures r.Resolved? ==>
        && FirstNearest(old(queued), EntryOf(c, now), at) && queued == Without(old(queued), at)
        && Pairs(r.pair, EntryOf(c, now), old(queued)[at])
        && paired == old(paired) + multiset{EntryOf(c, now), old(queued)[at]}
    {
      at := 0;
      var component := Classify(c.filename);
      if component.None? {
        return Ignored, at;
      }
      if c.captured.None? {
        return Unparsable, at;
      }
      var e := EntryOf(c, now);
      var choice := Choose(queued, e);
      if choice.None? {
        Enqueue(e);
        return Deferred, at;
      }
      at := choice.value;
      var pair := PairOff(e, choice.value);
      r := Resolved(pair);
    }

    /** Entries at least `maxAge` seconds old leave the queue; the others keep their order. */
    method PopAged(now: int, maxAge: int) returns (removed: seq<Queued>)
      requires Valid()
      modifies this
      ensures Valid() && entered == old(entered) && paired == old(paired) && aged == old(aged) + multiset(removed)
      ensures multiset(old(queued)) == multiset(queued) + multiset(removed)
      ensures queued == Selected(old(queued), now, maxAge, false) && removed == Selected(old(queued), now, maxAge, true)
      ensures forall q :: q in removed ==> Age(q, now) >= maxAge
      ensures forall q :: q in queued ==> Age(q, now) < maxAge
    {
      var keep := [];
      removed := [];
      for i := 0 to |queued|
        invariant queued == old(queued)
        invariant keep == Selected(queued[..i], now, maxAge, false)
        invariant removed == Selected(queued[..i], now, maxAge, true)
      {
        assert queued[..i + 1][..i] == queued[..i];
        if Age(queued[i], now) >= maxAge {
          removed := removed + [queued[i]];
        } else {
          keep := keep + [queued[i]];
        }
      }
      assert queued[..|queued|] == queued;
      SelectedSplits(queued, now, maxAge);
      forall q | q in keep ensures q in queued {
        assert q in multiset(queued);
      }
      queued := keep;
      aged := aged + multiset(removed);
    }

    /** One event of a run. */
    method Take(e: Event) returns (r: Arrival, ghost couple: Couple)
      requires Valid()
      modifies this
      ensures Valid() && entered == old(entered) + EntryBy(e)
      ensures !r.Resolved? ==> paired == old(paired)
      ensures r.Resolved? ==>
        Pairs(r.pair, couple.one, couple.other) && paired == old(paired) + multiset{couple.one, couple.other}
    {
      couple := *;
      match e
      case Sweep(now, maxAge) =>
        var removed := PopAged(now, maxAge);
        r := Ignored;
      case Arrives(c, now) =>
        ghost var before := queued;
        ghost var at;
        r, at := Ingest(c, now);
        if r.Resolved? {
          couple := Couple(EntryOf(c, now), before[at]);
        }
    }
  }

  /** Over any run from an empty queue: nothing matchable stays queued; every candidate that classifies is queued,
      aged out or half of exactly one returned pair, as a multiset; and each pair is one photo and one video that
      match. */
  method Run(events: seq<Event>) returns (queue: DeferredPairQueue, pairs: seq<Pair>, ghost couples: seq<Couple>)
    ensures fresh(queue) && NoMatch(queue.queued) && AllPair(pairs, couples)
    ensures Classified(events) == multiset(queue.queued) + Members(couples) + queue.aged
  {
    queue := new DeferredPairQueue();
    pairs, couples := [], [];
    for i := 0 to |events|
      invariant fresh(queue) && queue.Valid() && AllPair(pairs, couples)
      invariant queue.entered == Classified(events[..i]) && queue.paired == Members(couples)
    {
      ClassifiedStep(events, i);
      var r, couple := queue.Take(events[i]);
      if r.Resolved? {
        MembersSnoc(couples, couple);
        AllPairSnoc(pairs, couples, r.pair, couple);
        pairs, couples := pairs + [r.pair], couples + [couple];
      }
    }
    assert events[..|events|] == events;
  }
}
