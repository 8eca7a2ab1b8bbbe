/** Order-preserving removal of repeats: what a `seen` set beside a growing list computes. */
module Sequences {

  ghost predicate Distinct<T>(s: seq<T>) {
    forall i, j :: 0 <= i < j < |s| ==> s[i] != s[j]
  }

  ghost function Elements<T>(s: seq<T>): set<T> {
    set x | x in s
  }

  lemma TakeSnoc<T>(s: seq<T>, i: nat)
    requires i < |s|
    ensures s[..i + 1] == s[..i] + [s[i]] && s[..i + 1][..i] == s[..i]
  {
  }

  function Push<T(==)>(s: seq<T>, x: T): seq<T> {
    if x in s then s else s + [x]
  }

  /** Feed `more` into a repeat-free list. */
  function Collect<T(==)>(s: seq<T>, more: seq<T>): seq<T>
    decreases |more|
  {
    if more == [] then s else Collect(Push(s, more[0]), more[1..])
  }

  /** Keeps the first occurrence of every element. */
  function Dedup<T(==)>(s: seq<T>): seq<T> {
    Collect([], s)
  }

  lemma {:induction false} CollectAppend<T>(s: seq<T>, t: seq<T>, u: seq<T>)
    ensures Collect(s, t + u) == Collect(Collect(s, t), u)
    decreases |t|
  {
    if t == [] {
      assert t + u == u;
    } else {
      assert (t + u)[1..] == t[1..] + u;
      CollectAppend(Push(s, t[0]), t[1..], u);
    }
  }

  lemma {:induction false} CollectElements<T>(s: seq<T>, more: seq<T>)
    requires Distinct(s)
    ensures Distinct(Collect(s, more)) && s <= Collect(s, more)
    ensures forall x :: x in Collect(s, more) <==> x in s || x in more
    decreases |more|
  {
    if more == [] {
    } else {
      CollectElements(Push(s, more[0]), more[1..]);
      assert more == [more[0]] + more[1..];
    }
  }

  /** Dedup has the same elements, each once ... */
  lemma DedupElements<T>(s: seq<T>)
    ensures Distinct(Dedup(s))
    ensures forall x :: x in Dedup(s) <==> x in s
  {
    CollectElements([], s);
  }

  lemma DedupPush<T>(s: seq<T>, x: T)
    ensures Dedup(s + [x]) == Push(Dedup(s), x)
  {
    CollectAppend([], s, [x]);
    assert Collect(Dedup(s), [x]) == Push(Dedup(s), x);
  }

  lemma DedupSingle<T>(x: T)
    ensures Dedup([x]) == [x]
  {
    assert Collect([], [x]) == Collect([x], []);
  }

  /** ... in order of first occurrence: what comes from a prefix of the input is a prefix of the output. */
  lemma DedupFirstOccurrenceOrder<T>(s: seq<T>, k: nat)
    requires k <= |s|
    ensures Dedup(s[..k]) <= Dedup(s)
    ensures forall x :: x in Dedup(s[..k]) <==> x in s[..k]
  {
    assert s == s[..k] + s[k..];
    DedupElements(s[..k]);
    CollectAppend([], s[..k], s[k..]);
    CollectElements(Dedup(s[..k]), s[k..]);
  }

  /** Removing repeats inside a nested list first changes nothing. */
  lemma {:induction false} CollectNested<T>(s: seq<T>, t: seq<T>)
    requires Distinct(s)
    ensures Collect(s, Dedup(t)) == Collect(s, t)
    decreases |t|
  {
    if t == [] {
    } else {
      var u, x := t[..|t| - 1], t[|t| - 1];
      assert t == u + [x];
      CollectNested(s, u);
      CollectAppend(s, u, [x]);
      CollectAppend([], u, [x]);
      DedupElements(u);
      CollectElements(s, u);
      assert Collect(Dedup(u), [x]) == Push(Dedup(u), x) && Collect(Collect(s, u), [x]) == Push(Collect(s, u), x);
      CollectAppend(s, Dedup(u), [x]);
    }
  }

  lemma FeedNested<T>(fed: seq<T>, t: seq<T>)
    ensures Collect(Dedup(fed), Dedup(t)) == Dedup(fed + t)
  {
    CollectElements([], fed);
    CollectNested(Dedup(fed), t);
    CollectAppend([], fed, t);
  }

  /** The inner loop shared by every such list: append what `seen` does not hold yet. */
  method AppendNew<T(==)>(list: seq<T>, seen: set<T>, more: seq<T>) returns (list': seq<T>, seen': set<T>)
    requires seen == Elements(list)
    ensures list' == Collect(list, more) && seen' == Elements(list')
  {
    list', seen' := list, seen;
    for j := 0 to |more|
      invariant Collect(list', more[j..]) == Collect(list, more) && seen' == Elements(list')
    {
      assert more[j..][1..] == more[j + 1..];
      if more[j] !in seen' {
        list' := list' + [more[j]];
        seen' := seen' + {more[j]};
      }
    }
  }

  /** `list.index`: the first position holding x. */
  method IndexOf<T(==)>(s: seq<T>, x: T) returns (i: nat)
    requires x in s
    ensures i < |s| && s[i] == x && x !in s[..i]
  {
    i := 0;
    while s[i] != x
      invariant i < |s| && x !in s[..i]
      decreases |s| - i
    {
      TakeSnoc(s, i);
      i := i + 1;
    }
  }
}
