/** Chunked hash import, real and simulated (`hash_import.py`, `bulk_insert_hash_import`). */
module HashImport {
  import opened Sequences

  type Hash = string

  datatype Chunk = Chunk(index: nat, imported: nat, skipped: nat)

  datatype Result = Ok(chunks: seq<Chunk>) | BadChunkSize

  function Min(a: nat, b: nat): nat {
    if a < b then a else b
  }

  /** A hash list cut into chunks. */
  datatype Cuts = Nil | Cons(head: seq<Hash>, tail: Cuts)

  function End(hashes: seq<Hash>, start: nat, size: nat): nat
    requires start <= |hashes|
  {
    start + Min(size, |hashes| - start)
  }

  function Cut(hashes: seq<Hash>, start: nat, size: nat): Cuts
    requires size > 0 && start <= |hashes|
    decreases |hashes| - start
  {
    if start == |hashes| then Nil
    else Cons(hashes[start..End(hashes, start, size)], Cut(hashes, End(hashes, start, size), size))
  }

  function Join(cuts: Cuts): seq<Hash> {
    match cuts case Nil => [] case Cons(c, rest) => c + Join(rest)
  }

  /** How many hashes of a chunk are new: repeats inside the chunk count once. */
  function New(seen: set<Hash>, chunk: seq<Hash>): nat
    decreases |chunk|
  {
    if chunk == [] then 0
    else if chunk[0] in seen then New(seen, chunk[1..])
    else 1 + New(seen + {chunk[0]}, chunk[1..])
  }

  lemma {:induction false} NewIsCardinality(seen: set<Hash>, chunk: seq<Hash>)
    ensures New(seen, chunk) == |Elements(chunk) - seen| && New(seen, chunk) <= |chunk|
    decreases |chunk|
  {
    if chunk == [] {
      assert Elements(chunk) - seen == {};
    } else {
      var h, rest := chunk[0], chunk[1..];
      assert chunk == [h] + rest;
      if h in seen {
        NewIsCardinality(seen, rest);
        assert Elements(chunk) - seen == Elements(rest) - seen;
      } else {
        NewIsCardinality(seen + {h}, rest);
        assert Elements(chunk) - seen == (Elements(rest) - (seen + {h})) + {h};
      }
    }
  }

  ghost function ReportOf(seen: set<Hash>, chunk: seq<Hash>, index: nat): Chunk {
    NewIsCardinality(seen, chunk);
    Chunk(index, New(seen, chunk), |chunk| - New(seen, chunk))
  }

  /** The report a run should give, chunk by chunk, from the set present before it. */
  ghost function Reports(seen: set<Hash>, cuts: Cuts, index: nat): seq<Chunk>
    decreases cuts
  {
    match cuts
    case Nil => []
    case Cons(c, rest) => [ReportOf(seen, c, index)] + Reports(seen + Elements(c), rest, index + 1)
  }

  function Imported(chunks: seq<Chunk>): nat {
    if chunks == [] then 0 else chunks[0].imported + Imported(chunks[1..])
  }

  function Skipped(chunks: seq<Chunk>): nat {
    if chunks == [] then 0 else chunks[0].skipped + Skipped(chunks[1..])
  }

  lemma {:induction false} JoinCut(hashes: seq<Hash>, start: nat, size: nat)
    requires size > 0 && start <= |hashes|
    ensures Join(Cut(hashes, start, size)) == hashes[start..]
    decreases |hashes| - start
  {
    if start == |hashes| {
    } else {
      JoinCut(hashes, End(hashes, start, size), size);
      assert hashes[start..] == hashes[start..End(hashes, start, size)] + hashes[End(hashes, start, size)..];
    }
  }

  lemma ElementsConcat(a: seq<Hash>, b: seq<Hash>)
    ensures Elements(a + b) == Elements(a) + Elements(b)
  {
  }

  /** The totals depend on the hashes and the table only, not on how the list is cut. */
  lemma {:induction false} TotalsIgnoreCuts(seen: set<Hash>, cuts: Cuts, index: nat)
    ensures Imported(Reports(seen, cuts, index)) == |Elements(Join(cuts)) - seen|
    ensures Skipped(Reports(seen, cuts, index)) == |Join(cuts)| - |Elements(Join(cuts)) - seen|
    decreases cuts
  {
    match cuts
    case Nil =>
      assert Elements(Join(cuts)) - seen == {};
    case Cons(c, rest) =>
      TotalsIgnoreCuts(seen + Elements(c), rest, index + 1);
      NewIsCardinality(seen, c);
      var first, later := Elements(c) - seen, Elements(Join(rest)) - (seen + Elements(c));
      assert Elements(Join(cuts)) - seen == first + later by { ElementsConcat(c, Join(rest)); }
      assert Reports(seen, cuts, index)[1..] == Reports(seen + Elements(c), rest, index + 1);
  }

  lemma TotalsIgnoreChunkSize(seen: set<Hash>, hashes: seq<Hash>, size: nat)
    requires size > 0
    ensures Imported(Reports(seen, Cut(hashes, 0, size), 1)) == |Elements(hashes) - seen|
    ensures Skipped(Reports(seen, Cut(hashes, 0, size), 1)) == |hashes| - |Elements(hashes) - seen|
  {
    TotalsIgnoreCuts(seen, Cut(hashes, 0, size), 1);
    JoinCut(hashes, 0, size);
  }

  /** A run over what is already present imports nothing. */
  lemma SecondRunImportsNothing(seen: set<Hash>, hashes: seq<Hash>, size: nat)
    requires size > 0
    ensures Imported(Reports(seen + Elements(hashes), Cut(hashes, 0, size), 1)) == 0
  {
    TotalsIgnoreChunkSize(seen + Elements(hashes), hashes, size);
    assert Elements(hashes) - (seen + Elements(hashes)) == {};
  }

  lemma {:induction false} NewDependsOnListed(a: set<Hash>, b: set<Hash>, chunk: seq<Hash>)
    requires forall h :: h in chunk ==> (h in a <==> h in b)
    ensures New(a, chunk) == New(b, chunk)
  {
    NewIsCardinality(a, chunk);
    NewIsCardinality(b, chunk);
    assert Elements(chunk) - a == Elements(chunk) - b;
  }

  /** Only what is seen of the listed hashes matters. */
  lemma {:induction false} ReportsDependOnListed(a: set<Hash>, b: set<Hash>, cuts: Cuts, index: nat)
    requires forall h :: h in Join(cuts) ==> (h in a <==> h in b)
    ensures Reports(a, cuts, index) == Reports(b, cuts, index)
    decreases cuts
  {
    if cuts.Nil? {
    } else {
      NewDependsOnListed(a, b, cuts.head);
      ReportsDependOnListed(a + Elements(cuts.head), b + Elements(cuts.head), cuts.tail, index + 1);
    }
  }

  /** One trip through a chunk loop: the report so far, followed by what is still expected, stays the same. */
  lemma NextReport(results: seq<Chunk>, seen: set<Hash>, cuts: Cuts, index: nat)
    requires cuts.Cons?
    ensures results + Reports(seen, cuts, index) ==
            (results + [ReportOf(seen, cuts.head, index)]) + Reports(seen + Elements(cuts.head), cuts.tail, index + 1)
  {
  }

  lemma OneChunk(seen: set<Hash>, chunk: seq<Hash>)
    requires chunk != []
    ensures Reports(seen, Cut(chunk, 0, |chunk|), 1) == [ReportOf(seen, chunk, 1)]
  {
    assert chunk[0..|chunk|] == chunk;
    assert Cut(chunk, 0, |chunk|) == Cons(chunk, Nil);
  }

  /** The report of the chunk that starts at `from`, read off the list and the table: its number, how many of its
      hashes neither the table nor an earlier position holds, and how many are left. */
  ghost predicate IsReport(table: set<Hash>, hashes: seq<Hash>, from: nat, size: nat, chunk: Chunk, index: nat)
    requires from <= |hashes|
  {
    var to := if |hashes| < from + size then |hashes| else from + size;
    && chunk.index == index && chunk.imported + chunk.skipped == to - from
    && chunk.imported == |Elements(hashes[from..to]) - (table + Elements(hashes[..from]))|
  }

  /** Chunk k starts at k * size, and there is one for each such position of the list. */
  ghost predicate ReportedAt(table: set<Hash>, hashes: seq<Hash>, size: nat, chunks: seq<Chunk>, k: nat) {
    && (k < |chunks| <==> k * size < |hashes|)
    && (k < |chunks| ==> IsReport(table, hashes, k * size, size, chunks[k], k + 1))
  }

  ghost predicate Reported(table: set<Hash>, hashes: seq<Hash>, size: nat, chunks: seq<Chunk>) {
    forall k: nat :: ReportedAt(table, hashes, size, chunks, k)
  }

  /** Where chunk k starts. */
  ghost function Start(k: nat, size: nat): nat {
    if k == 0 then 0 else Start(k - 1, size) + size
  }

  lemma {:induction false} StartIsProduct(k: nat, size: nat)
    ensures Start(k, size) == k * size
  {
    if k == 0 {
    } else {
      StartIsProduct(k - 1, size);
      assert k * size == (k - 1) * size + size;
    }
  }

  lemma FirstReport(table: set<Hash>, hashes: seq<Hash>, start: nat, size: nat, index: nat)
    requires start < |hashes|
    ensures var end := End(hashes, start, size);
            var report := ReportOf(table + Elements(hashes[..start]), hashes[start..end], index);
            IsReport(table, hashes, start, size, report, index)
  {
    NewIsCardinality(table + Elements(hashes[..start]), hashes[start..End(hashes, start, size)]);
  }

  lemma ElementsTake(hashes: seq<Hash>, start: nat, end: nat)
    requires start <= end <= |hashes|
    ensures Elements(hashes[..end]) == Elements(hashes[..start]) + Elements(hashes[start..end])
  {
    assert hashes[..end] == hashes[..start] + hashes[start..end];
  }

  /** The reports of the rest of the list, from `start` on. */
  ghost function RestReports(table: set<Hash>, hashes: seq<Hash>, start: nat, size: nat, index: nat): seq<Chunk>
    requires size > 0 && start <= |hashes|
    decreases |hashes| - start
  {
    if start == |hashes| then []
    else
      var end := End(hashes, start, size);
      [ReportOf(table + Elements(hashes[..start]), hashes[start..end], index)] +
      RestReports(table, hashes, end, size, index + 1)
  }

  lemma {:induction false} RestIsReports(table: set<Hash>, hashes: seq<Hash>, start: nat, size: nat, index: nat)
    requires size > 0 && start <= |hashes|
    ensures RestReports(table, hashes, start, size, index) ==
            Reports(table + Elements(hashes[..start]), Cut(hashes, start, size), index)
    decreases |hashes| - start
  {
    if start == |hashes| {
    } else {
      var end := End(hashes, start, size);
      RestIsReports(table, hashes, end, size, index + 1);
      ElementsTake(hashes, start, end);
      assert table + Elements(hashes[..start]) + Elements(hashes[start..end]) == table + Elements(hashes[..end]);
    }
  }

  lemma TailRest(table: set<Hash>, hashes: seq<Hash>, start: nat, size: nat, index: nat)
    requires size > 0 && start + size <= |hashes|
    ensures var rest := RestReports(table, hashes, start, size, index);
            rest != [] && rest[1..] == RestReports(table, hashes, start + size, size, index + 1)
  {
  }

  lemma DropOne(all: seq<Chunk>, rest: seq<Chunk>, k: nat)
    requires 1 <= k <= |all| + 1 && all[k - 1..] == rest && rest != []
    ensures k <= |all| && all[k..] == rest[1..]
  {
  }

  /** Without its first k, the reports are those of the list from chunk k on. */
  lemma {:induction false} DropReports(table: set<Hash>, hashes: seq<Hash>, size: nat, k: nat)
    requires size > 0 && Start(k, size) <= |hashes|
    ensures var all := RestReports(table, hashes, 0, size, 1);
            k <= |all| && all[k..] == RestReports(table, hashes, Start(k, size), size, k + 1)
  {
    if k == 0 {
    } else {
      DropReports(table, hashes, size, k - 1);
      TailRest(table, hashes, Start(k - 1, size), size, k);
      DropOne(RestReports(table, hashes, 0, size, 1), RestReports(table, hashes, Start(k - 1, size), size, k), k);
    }
  }

  /** There is a report for each chunk that starts inside the list. */
  lemma {:induction false} NumberOfReports(table: set<Hash>, hashes: seq<Hash>, size: nat, k: nat)
    requires size > 0
    ensures k < |RestReports(table, hashes, 0, size, 1)| <==> Start(k, size) < |hashes|
  {
    if Start(k, size) <= |hashes| {
      DropReports(table, hashes, size, k);
    } else if Start(k - 1, size) < |hashes| {
      DropReports(table, hashes, size, k - 1);
    } else {
      NumberOfReports(table, hashes, size, k - 1);
    }
  }

  lemma ReportsMeanAt(table: set<Hash>, hashes: seq<Hash>, size: nat, k: nat)
    requires size > 0
    ensures ReportedAt(table, hashes, size, RestReports(table, hashes, 0, size, 1), k)
  {
    var all := RestReports(table, hashes, 0, size, 1);
    StartIsProduct(k, size);
    NumberOfReports(table, hashes, size, k);
    if k < |all| {
      DropReports(table, hashes, size, k);
      FirstReport(table, hashes, Start(k, size), size, k + 1);
      assert all[k] == all[k..][0];
    }
  }

  lemma ReportsMean(table: set<Hash>, hashes: seq<Hash>, size: nat)
    requires size > 0
    ensures Reported(table, hashes, size, Reports(table, Cut(hashes, 0, size), 1))
  {
    assert table + Elements(hashes[..0]) == table;
    RestIsReports(table, hashes, 0, size, 1);
    forall k: nat ensures ReportedAt(table, hashes, size, Reports(table, Cut(hashes, 0, size), 1), k) {
      ReportsMeanAt(table, hashes, size, k);
    }
  }

  /** `_fetch_existing_hash_import_hashes`: the distinct hashes are looked up 500 at a time. */
  method FetchExisting(table: set<Hash>, hashes: seq<Hash>) returns (existing: set<Hash>)
    ensures existing == table * Elements(hashes)
  {
    var unique := Dedup(hashes);
    DedupElements(hashes);
    existing := {};
    var start := 0;
    while start < |unique|
      invariant start <= |unique| && existing == table * Elements(unique[..start])
    {
      var end := start + Min(500, |unique| - start);
      assert unique[..end] == unique[..start] + unique[start..end];
      existing := existing + (set h | h in unique[start..end] && h in table);
      start := end;
    }
    assert unique[..|unique|] == unique;
  }

  method SimulateChunk(seen: set<Hash>, chunk: seq<Hash>) returns (imported: nat, skipped: nat, seen': set<Hash>)
    ensures imported == New(seen, chunk) && imported + skipped == |chunk| && seen' == seen + Elements(chunk)
  {
    imported, skipped, seen' := 0, 0, seen;
    for i := 0 to |chunk|
      invariant imported + New(seen', chunk[i..]) == New(seen, chunk)
      invariant imported + skipped == i && seen' == seen + Elements(chunk[..i])
    {
      TakeSnoc(chunk, i);
      assert chunk[i..][1..] == chunk[i + 1..];
      if chunk[i] in seen' {
        skipped := skipped + 1;
      } else {
        imported, seen' := imported + 1, seen' + {chunk[i]};
      }
    }
    assert chunk[..|chunk|] == chunk;
  }

  /** The simulated chunk loop with its running `simulated_seen`. */
  method Simulate(known: set<Hash>, hashes: seq<Hash>, size: nat) returns (reports: seq<Chunk>)
    requires size > 0
    ensures reports == Reports(known, Cut(hashes, 0, size), 1)
  {
    reports := [];
    var seen, start, index := known, 0, 1;
    ghost var left := Cut(hashes, 0, size);
    ghost var expected := Reports(known, left, 1);
    while start < |hashes|
      invariant start <= |hashes| && left == Cut(hashes, start, size)
      invariant reports + Reports(seen, left, index) == expected
    {
      var end := End(hashes, start, size);
      NextReport(reports, seen, left, index);
      ghost var report := ReportOf(seen, left.head, index);
      var imported, skipped;
      imported, skipped, seen := SimulateChunk(seen, hashes[start..end]);
      assert report == Chunk(index, imported, skipped);
      reports := reports + [Chunk(index, imported, skipped)];
      start, index, left := end, index + 1, left.tail;
    }
  }

  class Registry {
    /** `external_hash_cache` rows of the hash-import account. */
    var table: set<Hash>

    /** `INSERT OR IGNORE` of one chunk in one transaction. */
    method InsertChunk(chunk: seq<Hash>) returns (imported: nat)
      modifies this
      ensures imported == New(old(table), chunk) && table == old(table) + Elements(chunk)
    {
      imported := 0;
      for i := 0 to |chunk|
        invariant imported + New(table, chunk[i..]) == New(old(table), chunk)
        invariant table == old(table) + Elements(chunk[..i])
      {
        TakeSnoc(chunk, i);
        assert chunk[i..][1..] == chunk[i + 1..];
        if chunk[i] !in table {
          table := table + {chunk[i]};
          imported := imported + 1;
        }
      }
      assert chunk[..|chunk|] == chunk;
    }

    method BulkInsert(hashes: seq<Hash>, size: int) returns (r: Result)
      modifies this
      ensures r.BadChunkSize? <==> size <= 0
      ensures r.BadChunkSize? ==> table == old(table)
      ensures r.Ok? ==>
        r.chunks == Reports(old(table), Cut(hashes, 0, size), 1) && table == old(table) + Elements(hashes)
    {
      if size <= 0 {
        return BadChunkSize;
      }
      var results, start, index := [], 0, 1;
      ghost var left := Cut(hashes, 0, size);
      ghost var expected := Reports(table, left, 1);
      while start < |hashes|
        invariant start <= |hashes| && left == Cut(hashes, start, size)
        invariant table == old(table) + Elements(hashes[..start])
        invariant results + Reports(table, left, index) == expected
      {
        var end := End(hashes, start, size);
        NextReport(results, table, left, index);
        ElementsTake(hashes, start, end);
        ghost var report := ReportOf(table, left.head, index);
        var imported := InsertChunk(hashes[start..end]);
        assert report == Chunk(index, imported, end - start - imported);
        results := results + [Chunk(index, imported, end - start - imported)];
        start, index, left := end, index + 1, left.tail;
      }
      assert hashes[..|hashes|] == hashes;
      return Ok(results);
    }

    /** The real branch of the chunk loop: one bulk insert per chunk. */
    method ExecuteReal(hashes: seq<Hash>, size: nat) returns (reports: seq<Chunk>)
      requires size > 0
      modifies this
      ensures reports == Reports(old(table), Cut(hashes, 0, size), 1) && table == old(table) + Elements(hashes)
    {
      reports := [];
      var start, index := 0, 1;
      ghost var left := Cut(hashes, 0, size);
      ghost var expected := Reports(table, left, 1);
      while start < |hashes|
        invariant start <= |hashes| && left == Cut(hashes, start, size)
        invariant table == old(table) + Elements(hashes[..start])
        invariant reports + Reports(table, left, index) == expected
      {
        var end := End(hashes, start, size);
        NextReport(reports, table, left, index);
        ElementsTake(hashes, start, end);
        OneChunk(table, hashes[start..end]);
        ghost var report := ReportOf(table, left.head, index);
        var one := BulkInsert(hashes[start..end], end - start);
        assert report == Chunk(index, one.chunks[0].imported, one.chunks[0].skipped);
        reports := reports + [Chunk(index, one.chunks[0].imported, one.chunks[0].skipped)];
        start, index, left := end, index + 1, left.tail;
      }
      assert hashes[..|hashes|] == hashes;
    }

    /** `_execute_hash_import_chunks`: the dry run predicts the real run and leaves the table alone. */
    method Execute(hashes: seq<Hash>, size: int, dryRun: bool) returns (r: Result)
      modifies this
      ensures r.BadChunkSize? <==> size <= 0
      ensures r.Ok? ==> r.chunks == Reports(old(table), Cut(hashes, 0, size), 1)
      ensures r.Ok? ==> Reported(old(table), hashes, size, r.chunks)
      ensures table == if dryRun || r.BadChunkSize? then old(table) else old(table) + Elements(hashes)
    {
      if size <= 0 {
        return BadChunkSize;
      }
      ReportsMean(table, hashes, size);
      if dryRun {
        var known := FetchExisting(table, hashes);
        var chunks := Simulate(known, hashes, size);
        JoinCut(hashes, 0, size);
        ReportsDependOnListed(known, table, Cut(hashes, 0, size), 1);
        return Ok(chunks);
      }
      var reports := ExecuteReal(hashes, size);
      return Ok(reports);
    }
  }
}
