/** Sequence helpers for the game's live lists, which the source edits with
    `list.remove` while iterating over a copy. */
module Seqs {

  /** No object appears twice in the list. */
  predicate Distinct<T(==)>(s: seq<T>) {
    forall i, j :: 0 <= i < j < |s| ==> s[i] != s[j]
  }

  /** The position of the first occurrence of `x` in `s`. */
  function FirstIndex<T(==)>(s: seq<T>, x: T): (i: nat)
    requires x in s
    ensures i < |s| && s[i] == x && x !in s[..i]
  {
    if s[0] == x then 0
    else
      var i := FirstIndex(s[1..], x);
      assert s[..i + 1] == [s[0]] + s[1..][..i];
      i + 1
  }

  /** Python's `list.remove(x)`: drops the first occurrence of `x`.
      Python raises when `x` is absent; every call site removes an element it
      has just read from the list, so presence is the caller's obligation. */
  function RemoveFirst<T(==)>(s: seq<T>, x: T): (r: seq<T>)
    requires x in s
    ensures |r| == |s| - 1
    ensures multiset(r) == multiset(s) - multiset{x}
  {
    var i := FirstIndex(s, x);
    assert s == s[..i] + [x] + s[i + 1..];
    s[..i] + s[i + 1..]
  }

  /** The elements of `s` that are not in `gone`, in their original order. */
  function Sweep<T(==)>(s: seq<T>, gone: set<T>): (r: seq<T>)
    ensures |r| <= |s|
  {
    if s == [] then []
    else
      Sweep(s[..|s| - 1], gone) + (if s[|s| - 1] in gone then [] else [s[|s| - 1]])
  }

  /** The survivors are exactly the elements of `s` outside `gone`. */
  lemma {:induction false} SweepMembers<T>(s: seq<T>, gone: set<T>)
    ensures forall x :: x in Sweep(s, gone) <==> x in s && x !in gone
  {
    if s != [] {
      var init, last := s[..|s| - 1], s[|s| - 1];
      assert s == init + [last];
      SweepMembers(init, gone);
    }
  }

  /** Removing `x` from a list whose prefix `a` lacks it cuts exactly that
      occurrence. */
  lemma RemoveFirstAfter<T>(a: seq<T>, x: T, b: seq<T>)
    requires x !in a
    ensures RemoveFirst(a + [x] + b, x) == a + b
  {
    var s := a + [x] + b;
    var i := FirstIndex(s, x);
    assert s[|a|] == x;
    assert s[..i] == a;
    assert s[i + 1..] == b;
  }

  lemma {:induction false} SweepDistinct<T>(s: seq<T>, gone: set<T>)
    requires Distinct(s)
    ensures Distinct(Sweep(s, gone))
  {
    if s != [] {
      var init, last := s[..|s| - 1], s[|s| - 1];
      assert Distinct(init);
      SweepDistinct(init, gone);
      assert last !in init;
      SweepMembers(init, gone);
    }
  }

  /** One step of a pass over a snapshot `s` of a list: when the list is the
      survivors of the visited prefix followed by the unvisited rest, removing
      the current element if condemned keeps that shape one element further on. */
  lemma SweepStep<T>(s: seq<T>, i: nat, gone: set<T>)
    requires Distinct(s) && i < |s|
    ensures s[i] in Sweep(s[..i], gone) + s[i..]
    ensures s[i] !in Sweep(s[..i], gone)
    ensures Sweep(s[..i + 1], gone) + s[i + 1..]
         == if s[i] in gone then RemoveFirst(Sweep(s[..i], gone) + s[i..], s[i])
            else Sweep(s[..i], gone) + s[i..]
  {
    var a := Sweep(s[..i], gone);
    var x := s[i];
    var rest := s[i + 1..];
    SweepExcludesNext(s, i, gone);
    assert s[i..] == [x] + rest;
    assert a + s[i..] == a + [x] + rest;
    SweepLast(s, i, gone);
    if x in gone {
      assert Sweep(s[..i + 1], gone) == a + [] == a;
      RemoveFirstAfter(a, x, rest);
    } else {
      assert Sweep(s[..i + 1], gone) == a + [x];
      assert a + [x] + rest == a + s[i..];
    }
  }

  lemma SweepExcludesNext<T>(s: seq<T>, i: nat, gone: set<T>)
    requires Distinct(s) && i < |s|
    ensures s[i] !in Sweep(s[..i], gone)
  {
    assert s[i] !in s[..i];
    SweepMembers(s[..i], gone);
  }

  lemma SweepLast<T>(s: seq<T>, i: nat, gone: set<T>)
    requires i < |s|
    ensures Sweep(s[..i + 1], gone) == Sweep(s[..i], gone) + (if s[i] in gone then [] else [s[i]])
  {
    var t := s[..i + 1];
    assert t[..|t| - 1] == s[..i];
    assert t[|t| - 1] == s[i];
  }

  /** The live list after a pass over the snapshot `s` of it has visited the
      first `i` entries, calling `remove` on each visited entry in `gone`. */
  function Pending<T(==)>(s: seq<T>, i: nat, gone: set<T>): seq<T>
    requires i <= |s|
    decreases i
  {
    if i == 0 then s
    else
      var p := Pending(s, i - 1, gone);
      if s[i - 1] in gone && s[i - 1] in p then RemoveFirst(p, s[i - 1]) else p
  }

  /** Removing while iterating over a snapshot of a list without repeats:
      after `i` entries the list holds the survivors among them followed by
      the entries not yet visited. */
  lemma {:induction false} PendingSweep<T>(s: seq<T>, i: nat, gone: set<T>)
    requires Distinct(s) && i <= |s|
    ensures Pending(s, i, gone) == Sweep(s[..i], gone) + s[i..]
  {
    if i > 0 {
      PendingSweep(s, i - 1, gone);
      var p := Pending(s, i - 1, gone);
      SweepStep(s, i - 1, gone);
      assert s[i - 1] in p;
      assert Pending(s, i, gone) == if s[i - 1] in gone then RemoveFirst(p, s[i - 1]) else p;
    }
  }

  /** The entry a pass is about to visit is still in the list. */
  lemma PendingHolds<T>(s: seq<T>, i: nat, gone: set<T>)
    requires Distinct(s) && i < |s|
    ensures s[i] in Pending(s, i, gone)
  {
    PendingSweep(s, i, gone);
    SweepStep(s, i, gone);
  }

  /** A pass that has visited every entry leaves exactly the survivors. */
  lemma PendingDone<T>(s: seq<T>, gone: set<T>)
    requires Distinct(s)
    ensures Pending(s, |s|, gone) == Sweep(s, gone)
  {
    PendingSweep(s, |s|, gone);
    assert s[..|s|] == s;
  }

  /** How many of `bs` hold. */
  function Count(bs: seq<bool>): (r: nat)
    ensures r <= |bs|
  {
    if bs == [] then 0 else Count(bs[..|bs| - 1]) + if bs[|bs| - 1] then 1 else 0
  }

  lemma CountStep(bs: seq<bool>, b: bool)
    ensures Count(bs + [b]) == Count(bs) + if b then 1 else 0
  {
    assert (bs + [b])[..|bs|] == bs;
  }
}
