/** Collision-free naming and the durable move into a queue (`storage.py`). */
module Storage {
  import opened Wrappers

  type Bytes = seq<bv8>

  /** The lifecycle roots, pairwise disjoint by construction. */
  datatype Root = Staging | Quarantine | Pending | Accepted | Rejected | Trash

  /** A regular file: its root, its directory below that root, its name. */
  datatype Path = Path(root: Root, dir: string, name: string)

  type Files = map<Path, Bytes>

  /** SHA-256, taken to be collision free: a digest is known by the content it came from. */
  datatype Sha = Sha256(content: Bytes)

  function Content(files: Files, p: Path): Option<Bytes> {
    if p in files then Some(files[p]) else None
  }

  /** Nothing changed but at the given paths. */
  ghost predicate SameElsewhere(files: Files, files': Files, changed: set<Path>) {
    forall p: Path :: p !in changed ==> Content(files', p) == Content(files, p)
  }

  // ---- names ----

  function Digit(d: nat): char
    requires d < 10
  {
    (48 + d) as char
  }

  /** Decimal notation. */
  function Decimal(n: nat): string {
    if n < 10 then [Digit(n)] else Decimal(n / 10) + [Digit(n % 10)]
  }

  function DigitValue(c: char): nat {
    if '0' <= c <= '9' then c as int - 48 else 0
  }

  function Value(s: string): nat {
    if s == [] then 0 else 10 * Value(s[..|s| - 1]) + DigitValue(s[|s| - 1])
  }

  /** Reading a decimal numeral gives the number back, so numbered names differ. */
  lemma {:induction false} DecimalRoundTrip(n: nat)
    ensures Value(Decimal(n)) == n && Decimal(n) != [] && '.' !in Decimal(n)
  {
    if n < 10 {
      assert Decimal(n)[..0] == [];
    } else {
      DecimalRoundTrip(n / 10);
      assert Decimal(n)[..|Decimal(n)| - 1] == Decimal(n / 10);
    }
  }

  /** Position of the dot that starts the suffix (pathlib): the last one, unless it is first or last in the name. */
  function LastDot(name: string): int
    ensures -1 <= LastDot(name) < |name|
    ensures LastDot(name) >= 0 ==> name[LastDot(name)] == '.'
    ensures forall i :: LastDot(name) < i < |name| ==> name[i] != '.'
  {
    if name == [] then -1
    else if name[|name| - 1] == '.' then |name| - 1
    else LastDot(name[..|name| - 1])
  }

  function SplitAt(name: string): (k: nat)
    ensures k <= |name|
  {
    if 0 < LastDot(name) < |name| - 1 then LastDot(name) else |name|
  }

  function Stem(name: string): string { name[..SplitAt(name)] }

  function Suffix(name: string): string { name[SplitAt(name)..] }

  function Numbered(base: Path, i: nat): Path {
    base.(name := Stem(base.name) + "-" + Decimal(i) + Suffix(base.name))
  }

  lemma NumberedInjective(base: Path, i: nat, j: nat)
    requires Numbered(base, i) == Numbered(base, j)
    ensures i == j
  {
    DecimalRoundTrip(i);
    DecimalRoundTrip(j);
    var a, b := Numbered(base, i).name, Numbered(base, j).name;
    var from := |Stem(base.name)| + 1;
    assert a[from..|a| - |Suffix(base.name)|] == Decimal(i);
    assert b[from..|b| - |Suffix(base.name)|] == Decimal(j);
  }

  lemma NumberedIsNotBase(base: Path, i: nat)
    ensures Numbered(base, i) != base
  {
    assert base.name == Stem(base.name) + Suffix(base.name);
  }

  // ---- collision search ----

  datatype Choice = Chosen(path: Path) | BadLimit | LimitExceeded

  function Candidate(base: Path, i: nat): Path {
    if i == 0 then base else Numbered(base, i)
  }

  /** Candidate k is free and every earlier one is taken. */
  ghost predicate LowestFree(files: Files, base: Path, k: nat) {
    Candidate(base, k) !in files && forall i :: 0 <= i < k ==> Candidate(base, i) in files
  }

  /** No name is left to try. */
  ghost predicate AllNamesTaken(files: Files, base: Path, maxAttempts: int) {
    maxAttempts < 1 || forall i :: 0 <= i <= maxAttempts ==> Candidate(base, i) in files
  }

  /** The path is the lowest free candidate. */
  ghost predicate IsLowestFree(files: Files, base: Path, maxAttempts: int, p: Path) {
    exists k: nat :: LowestFree(files, base, k) && k <= maxAttempts && p == Candidate(base, k)
  }

  /** The directory listing around a path. */
  function Siblings(files: Files, p: Path): set<Path> {
    set q | q in files && q.root == p.root && q.dir == p.dir
  }

  ghost function Tried(base: Path, n: nat): set<Path> {
    if n == 0 then {} else Tried(base, n - 1) + {Candidate(base, n - 1)}
  }

  lemma CandidatesDiffer(base: Path, i: nat, j: nat)
    requires i < j
    ensures Candidate(base, i) != Candidate(base, j)
  {
    if i == 0 {
      NumberedIsNotBase(base, j);
    } else if Candidate(base, i) == Candidate(base, j) {
      NumberedInjective(base, i, j);
    }
  }

  lemma {:induction false} TriedIsNew(base: Path, n: nat, k: nat)
    requires n <= k
    ensures Candidate(base, k) !in Tried(base, n)
  {
    if n == 0 {
    } else {
      TriedIsNew(base, n - 1, k);
      CandidatesDiffer(base, n - 1, k);
    }
  }

  lemma {:induction false} TriedSize(base: Path, n: nat)
    ensures |Tried(base, n)| == n
  {
    if n == 0 {
    } else {
      TriedSize(base, n - 1);
      TriedIsNew(base, n - 1, n - 1);
    }
  }

  lemma {:induction false} TriedAreSiblings(files: Files, base: Path, n: nat)
    requires forall i :: 0 <= i < n ==> Candidate(base, i) in files
    ensures Tried(base, n) <= Siblings(files, base)
  {
    if n == 0 {
    } else {
      TriedAreSiblings(files, base, n - 1);
    }
  }

  lemma {:induction false} SubsetSize<T>(a: set<T>, b: set<T>)
    requires a <= b
    ensures |a| <= |b|
  {
    if a == {} {
    } else {
      var x :| x in a;
      SubsetSize(a - {x}, b - {x});
    }
  }

  /** When every candidate is taken, the directory holds more than `n` entries. */
  lemma FullDirectory(files: Files, base: Path, n: nat)
    requires forall i :: 0 <= i <= n ==> Candidate(base, i) in files
    ensures |Siblings(files, base)| > n
  {
    TriedSize(base, n + 1);
    TriedAreSiblings(files, base, n + 1);
    SubsetSize(Tried(base, n + 1), Siblings(files, base));
  }

  /** The base path or the lowest free numbered name; failure only when all are taken, which needs more than
      `maxAttempts` entries in the directory. */
  method ChooseDestination(files: Files, base: Path, maxAttempts: int) returns (c: Choice)
    ensures c.BadLimit? <==> maxAttempts < 1
    ensures c.Chosen? <==> !AllNamesTaken(files, base, maxAttempts)
    ensures c.Chosen? ==> IsLowestFree(files, base, maxAttempts, c.path)
    ensures maxAttempts >= 1 && |Siblings(files, base)| <= maxAttempts ==> c.Chosen?
  {
    if maxAttempts < 1 {
      return BadLimit;
    }
    if base !in files {
      assert Candidate(base, 0) == base && LowestFree(files, base, 0);
      return Chosen(base);
    }
    for index := 1 to maxAttempts + 1
      invariant forall i :: 0 <= i < index ==> Candidate(base, i) in files
    {
      var candidate := Numbered(base, index);
      if candidate !in files {
        assert candidate == Candidate(base, index) && LowestFree(files, base, index);
        return Chosen(candidate);
      }
    }
    FullDirectory(files, base, maxAttempts);
    return LimitExceeded;
  }

  predicate TmpName(p: Path) {
    |p.name| >= 4 && p.name[|p.name| - 4..] == ".tmp"
  }

  lemma TmpIsSuffix(front: string, suffix: string)
    requires suffix != "" && suffix[0] == '.' && forall k :: 1 <= k < |suffix| ==> suffix[k] != '.'
    ensures var n := front + suffix; (|n| >= 4 && n[|n| - 4..] == ".tmp") <==> suffix == ".tmp"
  {
    var n := front + suffix;
    if |n| >= 4 && n[|n| - 4..] == ".tmp" {
      assert n[|n| - 4] == n[|n| - 4..][0];
      assert forall k :: 1 <= k < 4 ==> n[|n| - 4 + k] == ".tmp"[k] != '.';
      assert n[|front|] == '.';
    }
  }

  lemma DecimalLastDigit(n: nat)
    ensures Decimal(n) != [] && '0' <= Decimal(n)[|Decimal(n)| - 1] <= '9'
  {
  }

  /** Numbering keeps the suffix, so it never makes a `.tmp` name. */
  lemma NumberedNotTmp(base: Path, i: nat)
    ensures TmpName(Candidate(base, i)) ==> TmpName(base)
  {
    var n, suffix := Numbered(base, i).name, Suffix(base.name);
    assert base.name == Stem(base.name) + suffix;
    assert n == (Stem(base.name) + "-" + Decimal(i)) + suffix;
    if suffix == "" {
      DecimalLastDigit(i);
      assert n[|n| - 1] == Decimal(i)[|Decimal(i)| - 1];
    } else {
      TmpIsSuffix(Stem(base.name) + "-" + Decimal(i), suffix);
      TmpIsSuffix(Stem(base.name), suffix);
    }
  }

  // ---- durable commit ----

  /** The sibling a cross-pool copy is written to first. */
  function Tmp(p: Path): Path {
    p.(name := p.name + ".tmp")
  }

  datatype Commit =
    | Moved(size: nat, renamed: bool)
    | SourceMissing
    | OutsideRoot
    | SameFile
    | SizeMismatch
    | HashMismatch

  /** The content is whole at one of two places. */
  ghost predicate Safe(files: Files, a: Path, b: Path, content: Bytes) {
    (a in files && files[a] == content) || (b in files && files[b] == content)
  }

  lemma TmpDiffers(p: Path)
    ensures Tmp(p) != p
  {
    assert |Tmp(p).name| == |p.name| + 4;
  }

  class Disk {
    var files: Files
    /** Every state the disk has been in, oldest first; a crash leaves one of them. */
    ghost var states: seq<Files>

    ghost predicate Valid()
      reads this
    {
      states != [] && states[|states| - 1] == files
    }

    constructor (files: Files)
      ensures Valid() && this.files == files && states == [files]
    {
      this.files := files;
      states := [files];
    }

    method Set(next: Files)
      requires Valid()
      modifies this
      ensures Valid() && files == next && states == old(states) + [next]
    {
      files := next;
      states := states + [next];
    }

    /** `copied` is what the copy step really wrote, which may be anything. Every state on the way keeps the content
        and differs from the start at the source, the destination and its `.tmp` sibling only. */
    method CommitFile(source: Path, destination: Path, samePool: bool, root: Root, copied: Bytes) returns (r: Commit)
      requires Valid()
      modifies this
      ensures Valid() && old(states) <= states
      ensures r.SourceMissing? <==> source !in old(files)
      ensures r.OutsideRoot? <==> source in old(files) && destination.root != root
      ensures r.SameFile? <==>
        source in old(files) && destination.root == root && !samePool && source == Tmp(destination)
      ensures source in old(files) && destination.root == root ==>
        (r.Moved? <==> samePool || (source != Tmp(destination) && copied == old(files)[source]))
      ensures r.SizeMismatch? ==> |copied| != |old(files)[source]|
      ensures r.HashMismatch? ==> |copied| == |old(files)[source]|
      ensures r.SourceMissing? || r.OutsideRoot? || r.SameFile? ==> files == old(files) && states == old(states)
      ensures r.SizeMismatch? || r.HashMismatch? ==> !samePool && copied != old(files)[source]
      ensures r.SizeMismatch? || r.HashMismatch? ==> files == old(files) - {Tmp(destination)}
      ensures r.Moved? ==> source in old(files) && r.size == |old(files)[source]| && r.renamed == samePool
      ensures r.Moved? ==>
        (destination in files && files[destination] == old(files)[source] <==> samePool || source != destination)
      ensures r.Moved? && destination !in old(files) ==>
        var dropped := if samePool then {} else {Tmp(destination)};
        files == (old(files) - {source} - dropped)[destination := old(files)[source]]
      ensures source in old(files) && (samePool || source != destination) ==>
        forall k :: |old(states)| <= k < |states| ==> Safe(states[k], source, destination, old(files)[source])
      ensures forall k :: |old(states)| <= k < |states| ==>
        SameElsewhere(old(files), states[k], {source, destination} + (if samePool then {} else {Tmp(destination)}))
    {
      if source !in files {
        return SourceMissing;
      }
      if destination.root != root {
        return OutsideRoot;
      }
      ghost var content := files[source];
      if samePool {
        Set((files - {source})[destination := files[source]]);
        return Moved(|files[destination]|, true);
      }
      var tmp := Tmp(destination);
      if source == tmp {
        return SameFile; // what shutil.copy2 raises
      }
      TmpDiffers(destination);
      Set(files[tmp := copied]);
      if |files[source]| != |files[tmp]| {
        Set(files - {tmp});
        return SizeMismatch;
      }
      if Sha256(files[source]) != Sha256(files[tmp]) {
        Set(files - {tmp});
        return HashMismatch;
      }
      Set((files - {tmp})[destination := files[tmp]]);
      Set(files - {source});
      return Moved(|copied|, false);
    }
  }
}
