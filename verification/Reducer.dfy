/** The last-event-wins reducer over delta pages (`_apply_delta_page_to_reducer`, `_materialize_reduced_candidates`). */
module Reducer {
  import opened Wrappers

  datatype Candidate = Candidate(itemId: string, name: string, size: Option<int>, downloadUrl: Option<string>)

  datatype RawSize = Missing | NotAnInteger | Integer(value: int)

  /** One element of a page's `value` list; a missing string is "". */
  datatype RawItem =
    | NotADict
    | Item(id: string, deleted: bool, isFile: bool, name: string, size: RawSize, downloadUrl: Option<string>)

  /** `_build_candidate_from_payload`. */
  function BuildCandidate(raw: RawItem): Option<Candidate>
    requires raw.Item?
  {
    if raw.id == "" || raw.name == "" || raw.size.NotAnInteger? || (raw.size.Integer? && raw.size.value < 0) then None
    else
      var size := if raw.size.Missing? then None else Some(raw.size.value);
      Some(Candidate(raw.id, raw.name, size, raw.downloadUrl))
  }

  /** What one item does to the state of its id. */
  datatype Event = Ignored | Tombstone(id: string) | File(id: string, candidate: Candidate)

  function EventOf(raw: RawItem): Event {
    if raw.NotADict? || raw.id == "" then Ignored
    else if raw.deleted then Tombstone(raw.id)
    else if !raw.isFile then Ignored
    else match BuildCandidate(raw) case None => Ignored case Some(c) => File(raw.id, c)
  }

  predicate Counted(raw: RawItem) {
    raw.Item? && raw.id != ""
  }

  datatype Entry = Entry(sequence: nat, candidate: Option<Candidate>)
  datatype State = State(entries: map<string, Entry>, sequence: nat)

  function Step(s: State, raw: RawItem): State {
    var n := if Counted(raw) then s.sequence + 1 else s.sequence;
    match EventOf(raw)
    case Ignored => State(s.entries, n)
    case Tombstone(id) => State(s.entries[id := Entry(n, None)], n)
    case File(id, c) => State(s.entries[id := Entry(n, Some(c))], n)
  }

  function Reduce(s: State, items: seq<RawItem>): State {
    if items == [] then s else Step(Reduce(s, items[..|items| - 1]), items[|items| - 1])
  }

  const EMPTY := State(map[], 0)

  function Flatten(pages: seq<seq<RawItem>>): seq<RawItem> {
    if pages == [] then [] else Flatten(pages[..|pages| - 1]) + pages[|pages| - 1]
  }

  function ReducePages(s: State, pages: seq<seq<RawItem>>): State {
    if pages == [] then s else Reduce(ReducePages(s, pages[..|pages| - 1]), pages[|pages| - 1])
  }

  lemma {:induction false} ReduceConcat(s: State, a: seq<RawItem>, b: seq<RawItem>)
    ensures Reduce(s, a + b) == Reduce(Reduce(s, a), b)
    decreases |b|
  {
    if b == [] {
      assert a + b == a;
    } else {
      assert (a + b)[..|a + b| - 1] == a + b[..|b| - 1];
      ReduceConcat(s, a, b[..|b| - 1]);
    }
  }

  lemma ReduceSnoc(items: seq<RawItem>, raw: RawItem)
    ensures Reduce(EMPTY, items + [raw]) == Step(Reduce(EMPTY, items), raw)
  {
    assert (items + [raw])[..|items|] == items;
  }

  /** Feeding pages one at a time equals feeding their concatenation. */
  lemma {:induction false} PagesAreTheirConcatenation(s: State, pages: seq<seq<RawItem>>)
    ensures ReducePages(s, pages) == Reduce(s, Flatten(pages))
  {
    if pages == [] {
    } else {
      PagesAreTheirConcatenation(s, pages[..|pages| - 1]);
      ReduceConcat(s, Flatten(pages[..|pages| - 1]), pages[|pages| - 1]);
    }
  }

  /** The simple form: scan from the newest event back; the first event met for an id decides it. */
  function Backward(items: seq<RawItem>, decided: set<string>): seq<Candidate> {
    if items == [] then []
    else
      var older := items[..|items| - 1];
      match EventOf(items[|items| - 1])
      case Ignored => Backward(older, decided)
      case Tombstone(id) => Backward(older, decided + {id})
      case File(id, c) => Backward(older, decided + {id}) + (if id in decided then [] else [c])
  }

  /** An item that decides some id, with that id. */
  ghost predicate Decides(raw: RawItem, id: string) {
    !EventOf(raw).Ignored? && EventOf(raw).id == id
  }

  /** Position i holds a valid file whose id is neither decided from outside nor by a later event. */
  ghost predicate LastWord(items: seq<RawItem>, decided: set<string>, i: nat)
    requires i < |items|
  {
    && EventOf(items[i]).File? && EventOf(items[i]).id !in decided
    && forall j :: i < j < |items| ==> !Decides(items[j], EventOf(items[i]).id)
  }

  lemma LastWordOlder(items: seq<RawItem>, decided: set<string>, decided': set<string>)
    requires items != []
    requires var e := EventOf(items[|items| - 1]); decided' == if e.Ignored? then decided else decided + {e.id}
    ensures forall i :: 0 <= i < |items| - 1 ==>
      (LastWord(items, decided, i) <==> LastWord(items[..|items| - 1], decided', i))
  {
    var n := |items| - 1;
    var older := items[..n];
    forall i | 0 <= i < n
      ensures LastWord(items, decided, i) <==> LastWord(older, decided', i)
    {
      assert forall j :: i < j < n ==> older[j] == items[j];
    }
  }

  /** What the scan means: exactly the files that have the last word on their id, in order of position. */
  lemma {:induction false} BackwardMeansLastWord(items: seq<RawItem>, decided: set<string>) returns (at: seq<nat>)
    ensures |at| == |Backward(items, decided)|
    ensures forall k :: 0 <= k < |at| ==> at[k] < |items|
    ensures forall k :: 0 <= k < |at| ==>
      EventOf(items[at[k]]).File? && EventOf(items[at[k]]).candidate == Backward(items, decided)[k]
    ensures forall k, l :: 0 <= k < l < |at| ==> at[k] < at[l]
    ensures forall i :: 0 <= i < |items| ==> (i in at <==> LastWord(items, decided, i))
  {
    if items == [] {
      at := [];
    } else {
      var n := |items| - 1;
      var older, e := items[..n], EventOf(items[n]);
      var decided' := if e.Ignored? then decided else decided + {e.id};
      at := BackwardMeansLastWord(older, decided');
      LastWordOlder(items, decided, decided');
      if e.File? && e.id !in decided {
        at := at + [n];
      }
    }
  }

  // ---- the same over the fields of the items alone ----

  /** An item that shows a usable file. */
  ghost predicate IsFile(raw: RawItem) {
    && raw.Item? && !raw.deleted && raw.isFile && raw.id != "" && raw.name != ""
    && (raw.size.Missing? || (raw.size.Integer? && raw.size.value >= 0))
  }

  /** The candidate has the fields of the item. */
  ghost predicate Shows(raw: RawItem, c: Candidate) {
    && IsFile(raw) && c.itemId == raw.id && c.name == raw.name && c.downloadUrl == raw.downloadUrl
    && (raw.size.Missing? ==> c.size == None) && (raw.size.Integer? ==> c.size == Some(raw.size.value))
  }

  /** The item says something about the id: that it is deleted, or what file it is. */
  ghost predicate Speaks(raw: RawItem, id: string) {
    raw.Item? && raw.id == id && id != "" && (raw.deleted || IsFile(raw))
  }

  /** Position i shows a usable file and nothing later speaks about its id. */
  ghost predicate HasLastWord(items: seq<RawItem>, i: nat) {
    i < |items| && IsFile(items[i]) && forall j :: i < j < |items| ==> !Speaks(items[j], items[i].id)
  }

  /** The candidates are exactly those shown at the positions with the last word, in order of position. */
  ghost predicate LastWordsAt(items: seq<RawItem>, out: seq<Candidate>, at: seq<nat>) {
    && |at| == |out| && (forall k :: 0 <= k < |at| ==> at[k] < |items| && Shows(items[at[k]], out[k]))
    && (forall k, l :: 0 <= k < l < |at| ==> at[k] < at[l])
    && (forall i: nat :: i < |items| ==> (i in at <==> HasLastWord(items, i)))
  }

  ghost predicate LastWords(items: seq<RawItem>, out: seq<Candidate>) {
    exists at :: LastWordsAt(items, out, at)
  }

  /** What an event stands for. */
  lemma EventMeans(raw: RawItem)
    ensures EventOf(raw).File? <==> IsFile(raw)
    ensures EventOf(raw).File? ==> EventOf(raw).id == raw.id && Shows(raw, EventOf(raw).candidate)
    ensures forall id :: Decides(raw, id) <==> Speaks(raw, id)
  {
  }

  lemma LastWordMeans(items: seq<RawItem>, i: nat)
    requires i < |items|
    ensures LastWord(items, {}, i) <==> HasLastWord(items, i)
  {
    EventMeans(items[i]);
    forall j, id | i < j < |items| ensures Decides(items[j], id) <==> Speaks(items[j], id) {
      EventMeans(items[j]);
    }
  }

  lemma BackwardMeansLastWords(items: seq<RawItem>)
    ensures LastWords(items, Backward(items, {}))
  {
    var out := Backward(items, {});
    var at := BackwardMeansLastWord(items, {});
    forall i: nat | i < |items| ensures i in at <==> HasLastWord(items, i) {
      LastWordMeans(items, i);
    }
    forall k | 0 <= k < |at| ensures Shows(items[at[k]], out[k]) {
      EventMeans(items[at[k]]);
    }
    assert LastWordsAt(items, out, at);
  }

  /** Each id appears at most once among the candidates, and no decided id appears. */
  lemma {:induction false} BackwardIds(items: seq<RawItem>, decided: set<string>)
    ensures forall k :: 0 <= k < |Backward(items, decided)| ==> Backward(items, decided)[k].itemId !in decided
    ensures forall k, l :: 0 <= k < l < |Backward(items, decided)| ==>
      Backward(items, decided)[k].itemId != Backward(items, decided)[l].itemId
  {
    if items == [] {
    } else {
      var older, e := items[..|items| - 1], EventOf(items[|items| - 1]);
      BackwardIds(older, if e.Ignored? then decided else decided + {e.id});
    }
  }

  // ---- the reducer's dictionary, listed by sequence number ----

  datatype Pair = Pair(id: string, entry: Entry)

  function Without(l: seq<Pair>, id: string): seq<Pair> {
    if l == [] then []
    else
      var rest := Without(l[..|l| - 1], id);
      if l[|l| - 1].id == id then rest else rest + [l[|l| - 1]]
  }

  function CandidateOf(p: Pair, decided: set<string>): seq<Candidate> {
    if p.id in decided || p.entry.candidate.None? then [] else [p.entry.candidate.value]
  }

  /** Candidates of the pairs whose id is not decided yet. */
  function Candidates(l: seq<Pair>, decided: set<string>): seq<Candidate> {
    if l == [] then []
    else
      Candidates(l[..|l| - 1], decided) + CandidateOf(l[|l| - 1], decided)
  }

  ghost function Ordered(items: seq<RawItem>): seq<Pair> {
    if items == [] then []
    else
      var older, e := items[..|items| - 1], EventOf(items[|items| - 1]);
      if e.Ignored? then Ordered(older)
      else Without(Ordered(older), e.id) + [Pair(e.id, Reduce(EMPTY, items).entries[e.id])]
  }

  lemma {:induction false} CandidatesWithout(l: seq<Pair>, id: string, decided: set<string>)
    ensures Candidates(Without(l, id), decided) == Candidates(l, decided + {id})
  {
    if l == [] {
    } else {
      CandidatesWithout(l[..|l| - 1], id, decided);
      var rest, p := Without(l[..|l| - 1], id), l[|l| - 1];
      if p.id != id {
        assert (rest + [p])[..|rest|] == rest;
      }
    }
  }

  lemma CandidatesSnoc(l: seq<Pair>, p: Pair, decided: set<string>)
    ensures Candidates(l + [p], decided) == Candidates(l, decided) + CandidateOf(p, decided)
  {
    assert (l + [p])[..|l|] == l;
  }

  lemma {:induction false} CandidatesCons(p: Pair, l: seq<Pair>, decided: set<string>)
    ensures Candidates([p] + l, decided) == CandidateOf(p, decided) + Candidates(l, decided)
  {
    if l == [] {
      CandidatesSnoc([], p, decided);
      assert [p] + l == [] + [p];
    } else {
      var init, last := l[..|l| - 1], l[|l| - 1];
      CandidatesCons(p, init, decided);
      CandidatesSnoc([p] + init, last, decided);
      assert [p] + l == ([p] + init) + [last];
    }
  }

  lemma CandidatesHead(l: seq<Pair>, decided: set<string>)
    requires l != []
    ensures Candidates(l, decided) == CandidateOf(l[0], decided) + Candidates(l[1..], decided)
  {
    assert l == [l[0]] + l[1..];
    CandidatesCons(l[0], l[1..], decided);
  }

  lemma {:induction false} OrderedIsBackward(items: seq<RawItem>, decided: set<string>)
    ensures Candidates(Ordered(items), decided) == Backward(items, decided)
  {
    if items == [] {
    } else {
      var older, e := items[..|items| - 1], EventOf(items[|items| - 1]);
      if e.Ignored? {
        OrderedIsBackward(older, decided);
      } else {
        OrderedIsBackward(older, decided + {e.id});
        var rest := Without(Ordered(older), e.id);
        CandidatesWithout(Ordered(older), e.id, decided);
        assert Ordered(items)[..|rest|] == rest;
      }
    }
  }

  /** `l` lists the dictionary once, by strictly increasing sequence number, all at most `top`. */
  ghost predicate Lists(l: seq<Pair>, entries: map<string, Entry>, top: nat) {
    && (forall i, j :: 0 <= i < j < |l| ==> l[i].entry.sequence < l[j].entry.sequence)
    && (forall i :: 0 <= i < |l| ==> l[i].entry.sequence <= top && l[i].id in entries && entries[l[i].id] == l[i].entry)
    && (forall id :: id in entries ==> Pair(id, entries[id]) in l)
  }

  lemma {:induction false} WithoutLists(l: seq<Pair>, id: string)
    requires forall i, j :: 0 <= i < j < |l| ==> l[i].entry.sequence < l[j].entry.sequence
    ensures forall i, j :: 0 <= i < j < |Without(l, id)| ==>
      Without(l, id)[i].entry.sequence < Without(l, id)[j].entry.sequence
    ensures forall p :: p in Without(l, id) <==> p in l && p.id != id
  {
    if l == [] {
    } else {
      var m := l[..|l| - 1];
      WithoutLists(m, id);
      assert l == m + [l[|l| - 1]];
    }
  }

  /** A newer event moves its id to the end of the list. */
  lemma ListsUpdate(l: seq<Pair>, entries: map<string, Entry>, top: nat, id: string, e: Entry)
    requires Lists(l, entries, top) && e.sequence == top + 1
    ensures Lists(Without(l, id) + [Pair(id, e)], entries[id := e], top + 1)
  {
    WithoutLists(l, id);
    var rest := Without(l, id);
    forall i | 0 <= i < |rest| ensures rest[i] in l && rest[i].id != id {
      assert rest[i] in rest;
    }
    var l', entries' := rest + [Pair(id, e)], entries[id := e];
    forall x | x in entries' ensures Pair(x, entries'[x]) in l' {
      if x == id {
        assert l'[|rest|] == Pair(id, e);
      } else {
        assert Pair(x, entries[x]) in rest;
      }
    }
  }

  lemma {:induction false} OrderedLists(items: seq<RawItem>)
    ensures Lists(Ordered(items), Reduce(EMPTY, items).entries, Reduce(EMPTY, items).sequence)
  {
    if items == [] {
    } else {
      var older, raw := items[..|items| - 1], items[|items| - 1];
      OrderedLists(older);
      var s, s' := Reduce(EMPTY, older), Reduce(EMPTY, items);
      var e := EventOf(raw);
      if !e.Ignored? {
        ListsUpdate(Ordered(older), s.entries, s.sequence, e.id, s'.entries[e.id]);
      }
    }
  }

  lemma ListsPosition(l: seq<Pair>, entries: map<string, Entry>, top: nat, id: string)
    requires Lists(l, entries, top) && id in entries && (l != [] ==> id != l[0].id)
    ensures l != [] && entries[id].sequence > l[0].entry.sequence && Pair(id, entries[id]) in l[1..]
  {
    assert Pair(id, entries[id]) in l;
    var j :| 0 <= j < |l| && l[j] == Pair(id, entries[id]);
    assert l[1..][j - 1] == l[j];
  }

  lemma ListsTail(l: seq<Pair>, entries: map<string, Entry>, top: nat, i: nat)
    requires Lists(l, entries, top) && i < |l| - 1
    ensures l[i + 1].id in entries && l[i + 1].id != l[0].id
  {
    assert l[0].entry.sequence < l[i + 1].entry.sequence;
  }

  predicate Earliest(entries: map<string, Entry>, id: string)
    requires id in entries
  {
    forall other :: other in entries ==> entries[id].sequence <= entries[other].sequence
  }

  /** The head of the list is the only pair with the smallest sequence number, and the tail lists the rest. */
  lemma ListsHead(l: seq<Pair>, entries: map<string, Entry>, top: nat)
    requires Lists(l, entries, top) && l != []
    ensures l[0].id in entries && entries[l[0].id] == l[0].entry
    ensures forall id :: id in entries ==> (Earliest(entries, id) <==> id == l[0].id)
    ensures Lists(l[1..], entries - {l[0].id}, top)
  {
    var rest, entries' := l[1..], entries - {l[0].id};
    forall id | id in entries && id != l[0].id
      ensures entries[id].sequence > l[0].entry.sequence && Pair(id, entries[id]) in rest
    {
      ListsPosition(l, entries, top, id);
    }
    forall i | 0 <= i < |rest|
      ensures rest[i].entry.sequence <= top && rest[i].id in entries' && entries'[rest[i].id] == rest[i].entry
    {
      ListsTail(l, entries, top, i);
    }
  }

  lemma ListsEmpty(l: seq<Pair>, entries: map<string, Entry>, top: nat)
    requires Lists(l, entries, top)
    ensures l == [] <==> entries == map[]
  {
    if l != [] {
      assert l[0].id in entries;
    }
    if entries != map[] {
      var some :| some in entries;
      assert Pair(some, entries[some]) in l;
    }
  }

  /** `sorted(entries, key=sequence)`, keeping the candidates. */
  method SortedCandidates(entries: map<string, Entry>, ghost l: seq<Pair>, ghost top: nat) returns (out: seq<Candidate>)
    requires Lists(l, entries, top)
    ensures out == Candidates(l, {})
    decreases |l|
  {
    ListsEmpty(l, entries, top);
    if entries == map[] {
      return [];
    }
    ListsHead(l, entries, top);
    CandidatesHead(l, {});
    var id :| id in entries && Earliest(entries, id);
    var rest := SortedCandidates(entries - {id}, l[1..], top);
    out := CandidateOf(Pair(id, entries[id]), {}) + rest;
  }

  class DeltaReducer {
    var entries: map<string, Entry>
    var sequence: nat
    /** Everything applied so far. */
    ghost var fed: seq<RawItem>

    ghost predicate Valid()
      reads this
    {
      State(entries, sequence) == Reduce(EMPTY, fed)
    }

    constructor ()
      ensures Valid() && fed == []
    {
      entries, sequence, fed := map[], 0, [];
    }

    /** `None` stands for a payload whose `value` is not a list. */
    method ApplyPage(value: Option<seq<RawItem>>)
      requires Valid()
      modifies this
      ensures Valid() && fed == old(fed) + (if value.Some? then value.value else [])
    {
      if value.None? {
        return;
      }
      var items := value.value;
      for i := 0 to |items|
        invariant Valid() && fed == old(fed) + items[..i]
      {
        var raw := items[i];
        assert items[..i + 1] == items[..i] + [raw];
        ReduceSnoc(fed, raw);
        fed := fed + [raw];
        if raw.NotADict? || raw.id == "" {
          continue;
        }
        sequence := sequence + 1;
        if raw.deleted {
          entries := entries[raw.id := Entry(sequence, None)];
          continue;
        }
        if !raw.isFile {
          continue;
        }
        var validated := BuildCandidate(raw);
        if validated.None? {
          continue;
        }
        entries := entries[raw.id := Entry(sequence, validated)];
      }
      assert items[..|items|] == items;
    }

    /** Sort the entries by sequence number and keep the candidates: the backward scan of everything fed, which is one
        candidate for each id whose last word is a usable file, in order of that word. */
    method Materialize() returns (out: seq<Candidate>)
      requires Valid()
      ensures out == Backward(fed, {}) && LastWords(fed, out)
    {
      BackwardMeansLastWords(fed);
      OrderedLists(fed);
      OrderedIsBackward(fed, {});
      out := SortedCandidates(entries, Ordered(fed), sequence);
    }
  }
}
