/**
 * The JavaScript array and Set operations the timetable logic is built
 * from: `find`, `slice`, `filter` by index, and a `Set<string>`, whose
 * iteration order is insertion order and which is therefore a sequence
 * without duplicates here.
 */
module JsCollections {
  import opened Wrappers

  /** Array.prototype.find, as the index of the element found: the first one satisfying `p`. */
  function FindFirst<T>(s: seq<T>, p: T -> bool): (r: Option<nat>)
    ensures r.Some? ==> r.value < |s| && p(s[r.value])
    ensures r.Some? ==> forall j :: 0 <= j < r.value ==> !p(s[j])
    ensures r.None? ==> forall j :: 0 <= j < |s| ==> !p(s[j])
  {
    if s == [] then None
    else if p(s[0]) then Some(0)
    else match FindFirst(s[1..], p)
      case None => None
      case Some(i) => Some(i + 1)
  }

  /** `find` returns the index of the element it stops at: the first satisfying `p`. */
  lemma FindFirstIs<T>(s: seq<T>, p: T -> bool, i: nat)
    requires i < |s| && p(s[i])
    requires forall j :: 0 <= j < i ==> !p(s[j])
    ensures FindFirst(s, p) == Some(i)
  {
  }

  /** Array.prototype.slice(start, end) for non-negative bounds: both are clamped to the length. */
  function Slice<T>(s: seq<T>, start: nat, end: nat): seq<T> {
    var e := if end <= |s| then end else |s|;
    if start < e then s[start..e] else []
  }

  /** Array.prototype.slice(start) for a non-negative start. */
  function SliceFrom<T>(s: seq<T>, start: nat): seq<T> {
    Slice(s, start, |s|)
  }

  /** `s.filter((_, index) => index !== i)`: every element whose position is not `i`, in order. */
  function FilterOutIndex<T>(s: seq<T>, i: int): seq<T> {
    if s == [] then []
    else
      var n := |s| - 1;
      FilterOutIndex(s[..n], i) + (if n == i then [] else [s[n]])
  }

  /** Filtering out index `i` drops exactly position `i` when it is in range, and nothing otherwise. */
  lemma {:induction false} FilterOutIndexFacts<T>(s: seq<T>, i: int)
    ensures 0 <= i < |s| ==> FilterOutIndex(s, i) == s[..i] + s[i + 1..]
    ensures !(0 <= i < |s|) ==> FilterOutIndex(s, i) == s
  {
    if s != [] {
      var n := |s| - 1;
      assert s == s[..n] + [s[n]];
      FilterOutIndexFacts(s[..n], i);
    }
  }

  // ------------------------------------------------------------- Set<T>


  predicate NoDuplicates<T(==)>(s: seq<T>) {
    forall i, j :: 0 <= i < j < |s| ==> s[i] != s[j]
  }

  /** Filtering out one position keeps the remaining elements distinct. */
  lemma FilterOutIndexDistinct<T>(s: seq<T>, i: int)
    requires NoDuplicates(s)
    ensures NoDuplicates(FilterOutIndex(s, i))
  {
    FilterOutIndexFacts(s, i);
    if 0 <= i < |s| {
      var r := FilterOutIndex(s, i);
      forall a, b | 0 <= a < b < |r| ensures r[a] != r[b] {
        assert r[a] == s[if a < i then a else a + 1];
        assert r[b] == s[if b < i then b else b + 1];
      }
    }
  }

  /** Set.prototype.add: a value already present keeps its place, a new one goes last. */
  function SetAdd<T(==)>(members: seq<T>, x: T): seq<T> {
    if x in members then members else members + [x]
  }

  /** Adding `xs` one by one, left to right: `new Set(xs)` when `members` is empty. */
  function SetAddAll<T(==)>(members: seq<T>, xs: seq<T>): seq<T> {
    if xs == [] then members
    else
      var n := |xs| - 1;
      SetAdd(SetAddAll(members, xs[..n]), xs[n])
  }

  /**
   * Nothing is lost, nothing is duplicated, and what was there stays in
   * front in its order.
   */
  lemma {:induction false} SetAddAllFacts<T>(members: seq<T>, xs: seq<T>)
    ensures forall i :: 0 <= i < |SetAddAll(members, xs)| ==> SetAddAll(members, xs)[i] in members || SetAddAll(members, xs)[i] in xs
    ensures forall i :: 0 <= i < |xs| ==> xs[i] in SetAddAll(members, xs)
    ensures NoDuplicates(members) ==> NoDuplicates(SetAddAll(members, xs))
    ensures |members| <= |SetAddAll(members, xs)| && SetAddAll(members, xs)[..|members|] == members
  {
    if xs != [] {
      var n := |xs| - 1;
      assert xs == xs[..n] + [xs[n]];
      SetAddAllFacts(members, xs[..n]);
    }
  }

  lemma AppendAssoc<T>(a: seq<T>, b: seq<T>, c: seq<T>)
    ensures (a + b) + c == a + (b + c)
  {
  }

  /**
   * A Set keeps first-appearance order: whenever member `j` of `new Set(xs)`
   * occurs in `xs`, every earlier member has already occurred before it.
   */
  lemma {:induction false} SetAddAllOrder<T>(xs: seq<T>, i: nat, j: nat, q: nat)
    requires i < j < |SetAddAll([], xs)| && q < |xs| && xs[q] == SetAddAll([], xs)[j]
    ensures exists p :: 0 <= p < q && xs[p] == SetAddAll([], xs)[i]
  {
    var n := |xs| - 1;
    var prev := SetAddAll([], xs[..n]);
    var r := SetAddAll([], xs);
    SetAddAllFacts([], xs[..n]);
    if j < |prev| {
      assert r[i] == prev[i] && r[j] == prev[j];
      var q' := q;
      if q == n {
        var k :| 0 <= k < n && xs[..n][k] == prev[j];
        q' := k;
      }
      assert xs[..n][q'] == prev[j];
      SetAddAllOrder(xs[..n], i, j, q');
      var p :| 0 <= p < q' && xs[..n][p] == prev[i];
      assert xs[p] == r[i];
    } else {
      assert xs[n] !in prev && r == prev + [xs[n]] && r[j] == xs[n];
      var p :| 0 <= p < n && xs[..n][p] == prev[i];
      assert xs[p] == r[i];
    }
  }

  /** Adding one more value after `xs` is one more Set.prototype.add. */
  lemma SetAddAllSnoc<T>(members: seq<T>, xs: seq<T>, x: T)
    ensures SetAddAll(members, xs + [x]) == SetAdd(SetAddAll(members, xs), x)
  {
    assert (xs + [x])[..|xs|] == xs;
  }

  /** The elements of `xs` that are not in `known`, in order: `xs.filter(x => !known.has(x))`. */
  function Unknown<T(==)>(xs: seq<T>, known: seq<T>): (r: seq<T>)
  {
    if xs == [] then []
    else
      var n := |xs| - 1;
      Unknown(xs[..n], known) + (if xs[n] in known then [] else [xs[n]])
  }

  /** Filtering distributes over concatenation. */
  lemma {:induction false} UnknownAppend<T>(a: seq<T>, b: seq<T>, known: seq<T>)
    ensures Unknown(a + b, known) == Unknown(a, known) + Unknown(b, known)
    decreases |b|
  {
    if b == [] {
      assert a + b == a;
    } else {
      var n := |b| - 1;
      assert (a + b)[..|a + b| - 1] == a + b[..n];
      UnknownAppend(a, b[..n], known);
    }
  }

  /** The filter adds nothing that was not in its input. */
  lemma {:induction false} UnknownOmits<T>(xs: seq<T>, known: seq<T>, x: T)
    requires x !in xs
    ensures x !in Unknown(xs, known)
  {
    if xs != [] {
      var n := |xs| - 1;
      assert xs[n] in xs;
      assert x !in xs[..n] by {
        assert forall k :: 0 <= k < n ==> xs[..n][k] == xs[k];
      }
      UnknownOmits(xs[..n], known, x);
    }
  }

  /** The filter keeps exactly the unknown elements and no duplicates of a duplicate-free input. */
  lemma {:induction false} UnknownMembers<T>(xs: seq<T>, known: seq<T>)
    ensures forall i :: 0 <= i < |Unknown(xs, known)| ==> Unknown(xs, known)[i] in xs && Unknown(xs, known)[i] !in known
    ensures forall i :: 0 <= i < |xs| && xs[i] !in known ==> xs[i] in Unknown(xs, known)
    ensures NoDuplicates(xs) ==> NoDuplicates(Unknown(xs, known))
  {
    if xs != [] {
      var n := |xs| - 1;
      assert xs == xs[..n] + [xs[n]];
      UnknownMembers(xs[..n], known);
      if NoDuplicates(xs) {
        assert xs[n] !in xs[..n];
      }
    }
  }

  /**
   * Adding distinct values to a set appends exactly the new ones, in the
   * order they are added, after the existing members.
   */
  lemma {:induction false} SetAddAllAppendsUnknown<T>(members: seq<T>, xs: seq<T>)
    requires NoDuplicates(xs)
    ensures SetAddAll(members, xs) == members + Unknown(xs, members)
  {
    if xs != [] {
      var n := |xs| - 1;
      assert xs == xs[..n] + [xs[n]];
      assert NoDuplicates(xs[..n]);
      SetAddAllAppendsUnknown(members, xs[..n]);
      UnknownMembers(xs[..n], members);
      assert xs[n] !in xs[..n];
    }
  }
}
