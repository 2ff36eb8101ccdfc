/**
 * The generic singly linked list: a chain of nodes from `head` to `tail`
 * with a size counter and a single cursor.
 *
 * The chain is represented by the sequence of the elements reachable from
 * `head` by following `next`, so element i is the payload of the i-th node
 * and walking to position i is indexing.  Element equality and the element
 * transformations are the caller's callbacks, passed as function values.
 */
module SinglyLinkedList {
  import opened Wrappers

  // ---------------------------------------------------------------------
  // Specification of the walks, as functions on the chain of elements
  // ---------------------------------------------------------------------

  /** The position of the first element that `equal` relates to `probe`, or -1. */
  function FirstIndex<T, P>(s: seq<T>, equal: (T, P) -> bool, probe: P): (r: int)
    ensures -1 <= r < |s|
    ensures r == -1 <==> forall j :: 0 <= j < |s| ==> !equal(s[j], probe)
    ensures r >= 0 ==> equal(s[r], probe) && forall j :: 0 <= j < r ==> !equal(s[j], probe)
  {
    if s == [] then -1
    else if equal(s[0], probe) then 0
    else
      var r := FirstIndex(s[1..], equal, probe);
      if r == -1 then -1 else r + 1
  }

  /** The number of elements that `equal` relates to `probe`. */
  function Occurrences<T, P>(s: seq<T>, equal: (T, P) -> bool, probe: P): (n: nat)
    ensures n <= |s|
    ensures n == 0 <==> forall j :: 0 <= j < |s| ==> !equal(s[j], probe)
  {
    if s == [] then 0
    else
      Occurrences(s[..|s| - 1], equal, probe) + (if equal(s[|s| - 1], probe) then 1 else 0)
  }

  /** The chain with every element that matches `probe` unlinked, the rest in order. */
  function Without<T, P>(s: seq<T>, equal: (T, P) -> bool, probe: P): (r: seq<T>)
    ensures |r| + Occurrences(s, equal, probe) == |s|
  {
    if s == [] then []
    else
      var rest := Without(s[..|s| - 1], equal, probe);
      if equal(s[|s| - 1], probe) then rest else rest + [s[|s| - 1]]
  }

  /** The chain with every match after the first one unlinked, the rest in order. */
  function KeepingFirst<T, P>(s: seq<T>, equal: (T, P) -> bool, probe: P): (r: seq<T>)
    ensures |r| == |s| - Occurrences(s, equal, probe) + (if Occurrences(s, equal, probe) > 0 then 1 else 0)
  {
    if s == [] then []
    else
      var init := s[..|s| - 1];
      var rest := KeepingFirst(init, equal, probe);
      if equal(s[|s| - 1], probe) && Occurrences(init, equal, probe) > 0 then rest
      else rest + [s[|s| - 1]]
  }

  /** The elements that satisfy `keep`, in chain order. */
  function Filtered<T>(s: seq<T>, keep: T -> bool): (r: seq<T>)
    ensures |r| <= |s|
  {
    if s == [] then []
    else
      var rest := Filtered(s[..|s| - 1], keep);
      if keep(s[|s| - 1]) then rest + [s[|s| - 1]] else rest
  }

  /** `f` applied to every element, in chain order. */
  function Mapped<T, U>(s: seq<T>, f: T -> U): (r: seq<U>)
    ensures |r| == |s|
    ensures forall i :: 0 <= i < |s| ==> r[i] == f(s[i])
  {
    if s == [] then [] else Mapped(s[..|s| - 1], f) + [f(s[|s| - 1])]
  }

  // ---------------------------------------------------------------------
  // One more element at the end of the chain: how each walk extends
  // ---------------------------------------------------------------------

  lemma OccurrencesSnoc<T, P>(s: seq<T>, x: T, equal: (T, P) -> bool, probe: P)
    ensures Occurrences(s + [x], equal, probe) == Occurrences(s, equal, probe) + (if equal(x, probe) then 1 else 0)
  {
    assert (s + [x])[..|s|] == s;
  }

  lemma WithoutSnoc<T, P>(s: seq<T>, x: T, equal: (T, P) -> bool, probe: P)
    ensures Without(s + [x], equal, probe) == if equal(x, probe) then Without(s, equal, probe) else Without(s, equal, probe) + [x]
  {
    assert (s + [x])[..|s|] == s;
  }

  lemma KeepingFirstSnoc<T, P>(s: seq<T>, x: T, equal: (T, P) -> bool, probe: P)
    ensures KeepingFirst(s + [x], equal, probe)
         == if equal(x, probe) && Occurrences(s, equal, probe) > 0 then KeepingFirst(s, equal, probe)
            else KeepingFirst(s, equal, probe) + [x]
  {
    assert (s + [x])[..|s|] == s;
  }

  lemma FilteredSnoc<T>(s: seq<T>, x: T, keep: T -> bool)
    ensures Filtered(s + [x], keep) == if keep(x) then Filtered(s, keep) + [x] else Filtered(s, keep)
  {
    assert (s + [x])[..|s|] == s;
  }

  lemma MappedSnoc<T, U>(s: seq<T>, x: T, f: T -> U)
    ensures Mapped(s + [x], f) == Mapped(s, f) + [f(x)]
  {
    assert (s + [x])[..|s|] == s;
  }

  /** A match appended behind a chain that has one leaves the first match where it was. */
  lemma FirstIndexSnoc<T, P>(s: seq<T>, x: T, equal: (T, P) -> bool, probe: P)
    ensures FirstIndex(s + [x], equal, probe)
         == if FirstIndex(s, equal, probe) >= 0 then FirstIndex(s, equal, probe)
            else if equal(x, probe) then |s| else -1
  {
    var t := s + [x];
    var p, q := FirstIndex(s, equal, probe), FirstIndex(t, equal, probe);
    assert forall j :: 0 <= j < |s| ==> t[j] == s[j];
    if p >= 0 {
      assert equal(t[p], probe);
      assert q != -1 && q <= p;
    } else {
      assert forall j :: 0 <= j < |s| ==> !equal(t[j], probe);
      if equal(x, probe) {
        assert t[|s|] == x;
        assert q != -1;
      } else {
        assert forall j :: 0 <= j < |t| ==> !equal(t[j], probe);
      }
    }
  }

  /** `t` is `s` with the node at position `p` unlinked, seen element by element. */
  ghost predicate UnlinkedFrom<T>(t: seq<T>, s: seq<T>, p: int)
  {
    && 0 <= p < |s| && |t| == |s| - 1
    && forall j :: 0 <= j < |t| ==> t[j] == s[if j < p then j else j + 1]
  }

  /** Unlinking position `p` is joining the chain before it to the chain after it. */
  lemma UnlinkedBySlices<T>(s: seq<T>, p: int)
    requires 0 <= p < |s|
    ensures UnlinkedFrom(s[..p] + s[p + 1..], s, p)
  {
  }

  /**
   * Unlinking an element that does not match leaves the first match, if
   * any, in front of the same element.
   */
  lemma FirstIndexAfterUnlink<T, P>(s: seq<T>, t: seq<T>, p: int, equal: (T, P) -> bool, probe: P)
    requires UnlinkedFrom(t, s, p) && !equal(s[p], probe)
    ensures var q, q' := FirstIndex(s, equal, probe), FirstIndex(t, equal, probe);
      (q == -1 <==> q' == -1) && (q >= 0 ==> t[q'] == s[q])
  {
    var q := FirstIndex(s, equal, probe);
    if q >= 0 {
      var e := if q < p then q else q - 1;
      assert t[e] == s[q];
      FirstIndexIs(t, equal, probe, e);
    } else {
      assert forall j :: 0 <= j < |t| ==> !equal(t[j], probe);
    }
  }

  /** A match with no match before it is the first match. */
  lemma FirstIndexIs<T, P>(s: seq<T>, equal: (T, P) -> bool, probe: P, e: int)
    requires 0 <= e < |s| && equal(s[e], probe)
    requires forall j :: 0 <= j < e ==> !equal(s[j], probe)
    ensures FirstIndex(s, equal, probe) == e
  {
  }

  /** The search only looks at what `equal` sees, so two chains that look alike to it search alike. */
  lemma FirstIndexSameView<T, P>(s: seq<T>, probe: P, t: seq<T>, probe': P, equal: (T, P) -> bool)
    requires |s| == |t|
    requires forall j :: 0 <= j < |s| ==> equal(s[j], probe) == equal(t[j], probe')
    ensures FirstIndex(s, equal, probe) == FirstIndex(t, equal, probe')
  {
    var q, q' := FirstIndex(s, equal, probe), FirstIndex(t, equal, probe');
    if q >= 0 && q' >= 0 {
      assert !(q < q') && !(q' < q);
    }
  }

  // ---------------------------------------------------------------------
  // What the removals leave behind
  // ---------------------------------------------------------------------

  /** Unlinking every match is keeping the elements of the complementary predicate. */
  lemma {:induction false} WithoutIsFiltered<T, P>(s: seq<T>, equal: (T, P) -> bool, probe: P, keep: T -> bool)
    requires forall x :: keep(x) == !equal(x, probe)
    ensures Without(s, equal, probe) == Filtered(s, keep)
  {
    if s != [] {
      WithoutIsFiltered(s[..|s| - 1], equal, probe, keep);
    }
  }

  /**
   * Filtering keeps exactly the accepted elements: nothing else appears in
   * the result, and every accepted element appears as often as in the chain.
   */
  lemma {:induction false} FilteredKeepsExactly<T>(s: seq<T>, keep: T -> bool)
    ensures forall x :: x in Filtered(s, keep) ==> x in s && keep(x)
    ensures forall x :: x in s && keep(x) ==> multiset(Filtered(s, keep))[x] == multiset(s)[x]
  {
    if s != [] {
      var init, last := s[..|s| - 1], s[|s| - 1];
      assert s == init + [last];
      FilteredKeepsExactly(init, keep);
      assert multiset(s) == multiset(init) + multiset{last};
    }
  }

  /** No element of the chain left by RemoveAll matches, and each of them was in the chain before. */
  lemma WithoutLeavesNoMatch<T, P>(s: seq<T>, equal: (T, P) -> bool, probe: P)
    ensures forall x :: x in Without(s, equal, probe) ==> x in s && !equal(x, probe)
  {
    WithoutIsFiltered(s, equal, probe, x => !equal(x, probe));
    FilteredKeepsExactly(s, x => !equal(x, probe));
  }

  /**
   * Removing the duplicates of `probe` keeps the chain up to and including
   * the first match, and unlinks every match after it.
   */
  lemma KeepingFirstKeepsFirstMatch<T, P>(s: seq<T>, equal: (T, P) -> bool, probe: P)
    ensures FirstIndex(s, equal, probe) == -1 ==> KeepingFirst(s, equal, probe) == s
    ensures var p := FirstIndex(s, equal, probe);
      p >= 0 ==> KeepingFirst(s, equal, probe) == s[..p + 1] + Without(s[p + 1..], equal, probe)
  {
    var p := FirstIndex(s, equal, probe);
    if p == -1 {
      KeepingFirstNoMatch(s, equal, probe);
    } else {
      var a, b := s[..p + 1], s[p + 1..];
      assert s == a + b;
      assert a == s[..p] + [s[p]];
      assert forall j :: 0 <= j < |s[..p]| ==> !equal(s[..p][j], probe);
      KeepingFirstNoMatch(s[..p], equal, probe);
      KeepingFirstSnoc(s[..p], s[p], equal, probe);
      OccurrencesSnoc(s[..p], s[p], equal, probe);
      KeepingFirstBehindMatch(a, b, equal, probe);
    }
  }

  /** A chain without a match has no duplicates of it to remove. */
  lemma {:induction false} KeepingFirstNoMatch<T, P>(s: seq<T>, equal: (T, P) -> bool, probe: P)
    requires Occurrences(s, equal, probe) == 0
    ensures KeepingFirst(s, equal, probe) == s
  {
    if s != [] {
      var init := s[..|s| - 1];
      assert Occurrences(init, equal, probe) == 0;
      KeepingFirstNoMatch(init, equal, probe);
      assert s == init + [s[|s| - 1]];
    }
  }

  /** Behind a prefix that already holds a match, every further match is unlinked. */
  lemma {:induction false} KeepingFirstBehindMatch<T, P>(a: seq<T>, b: seq<T>, equal: (T, P) -> bool, probe: P)
    requires Occurrences(a, equal, probe) > 0
    ensures Occurrences(a + b, equal, probe) > 0
    ensures KeepingFirst(a + b, equal, probe) == KeepingFirst(a, equal, probe) + Without(b, equal, probe)
  {
    if b == [] {
      assert a + b == a;
    } else {
      var init, y := b[..|b| - 1], b[|b| - 1];
      assert b == init + [y];
      ConcatAssoc(a, init, [y]);
      KeepingFirstBehindMatch(a, init, equal, probe);
      OccurrencesSnoc(a + init, y, equal, probe);
      KeepingFirstSnoc(a + init, y, equal, probe);
      WithoutSnoc(init, y, equal, probe);
      ConcatAssoc(KeepingFirst(a, equal, probe), Without(init, equal, probe), [y]);
    }
  }

  /** Counting over a chain split in two counts each part. */
  lemma {:induction false} OccurrencesConcat<T, P>(a: seq<T>, b: seq<T>, equal: (T, P) -> bool, probe: P)
    ensures Occurrences(a + b, equal, probe) == Occurrences(a, equal, probe) + Occurrences(b, equal, probe)
  {
    if b == [] {
      assert a + b == a;
    } else {
      var init, y := b[..|b| - 1], b[|b| - 1];
      assert b == init + [y];
      OccurrencesConcat(a, init, equal, probe);
      ConcatAssoc(a, init, [y]);
      OccurrencesSnoc(a + init, y, equal, probe);
      OccurrencesSnoc(init, y, equal, probe);
    }
  }

  lemma ConcatAssoc<T>(a: seq<T>, b: seq<T>, c: seq<T>)
    ensures a + b + c == a + (b + c)
  {
  }

  /** The chain `kept + rest` seen around its node at position |kept|, the head of `rest`. */
  lemma NodeOf<T>(kept: seq<T>, rest: seq<T>)
    requires rest != []
    ensures (kept + rest)[|kept|] == rest[0]
    ensures (kept + rest)[..|kept|] + (kept + rest)[|kept| + 1..] == kept + rest[1..]
    ensures kept + rest == (kept + [rest[0]]) + rest[1..]
  {
  }

  /** One step of the list_remove_all walk: the node after the kept prefix is the head of `rest`. */
  lemma RemoveAllStep<T, P>(visited: seq<T>, rest: seq<T>, equal: (T, P) -> bool, probe: P)
    requires rest != []
    ensures var kept, x := Without(visited, equal, probe), rest[0];
      var chain := kept + rest;
      && chain[|kept|] == x
      && (visited + [x]) + rest[1..] == visited + rest
      && Occurrences(visited + [x], equal, probe) == Occurrences(visited, equal, probe) + (if equal(x, probe) then 1 else 0)
      && (equal(x, probe) ==> Without(visited + [x], equal, probe) + rest[1..] == chain[..|kept|] + chain[|kept| + 1..]
                              && |Without(visited + [x], equal, probe)| == |kept|)
      && (!equal(x, probe) ==> Without(visited + [x], equal, probe) + rest[1..] == chain
                               && |Without(visited + [x], equal, probe)| == |kept| + 1)
  {
    WithoutSnoc(visited, rest[0], equal, probe);
    OccurrencesSnoc(visited, rest[0], equal, probe);
    NodeOf(Without(visited, equal, probe), rest);
    NodeOf(visited, rest);
  }

  /** One step of the list_remove_duplicates walk, as RemoveAllStep is for list_remove_all. */
  lemma RemoveDuplicatesStep<T, P>(visited: seq<T>, rest: seq<T>, equal: (T, P) -> bool, probe: P)
    requires rest != []
    ensures var kept, x := KeepingFirst(visited, equal, probe), rest[0];
      var chain := kept + rest;
      var unlink := equal(x, probe) && Occurrences(visited, equal, probe) > 0;
      && chain[|kept|] == x
      && (visited + [x]) + rest[1..] == visited + rest
      && Occurrences(visited + [x], equal, probe) == Occurrences(visited, equal, probe) + (if equal(x, probe) then 1 else 0)
      && (unlink ==> KeepingFirst(visited + [x], equal, probe) + rest[1..] == chain[..|kept|] + chain[|kept| + 1..]
                     && |KeepingFirst(visited + [x], equal, probe)| == |kept|)
      && (!unlink ==> KeepingFirst(visited + [x], equal, probe) + rest[1..] == chain
                      && |KeepingFirst(visited + [x], equal, probe)| == |kept| + 1)
  {
    KeepingFirstSnoc(visited, rest[0], equal, probe);
    OccurrencesSnoc(visited, rest[0], equal, probe);
    NodeOf(KeepingFirst(visited, equal, probe), rest);
    NodeOf(visited, rest);
  }

  /** Mapped over one more element of `s`. */
  lemma MappedPrefix<T, U>(s: seq<T>, i: int, f: T -> U)
    requires 0 <= i < |s|
    ensures Mapped(s[..i + 1], f) == Mapped(s[..i], f) + [f(s[i])]
  {
    assert s[..i + 1] == s[..i] + [s[i]];
    MappedSnoc(s[..i], s[i], f);
  }

  /** Filtered over one more element of `s`. */
  lemma FilteredPrefix<T>(s: seq<T>, i: int, keep: T -> bool)
    requires 0 <= i < |s|
    ensures Filtered(s[..i + 1], keep) == if keep(s[i]) then Filtered(s[..i], keep) + [s[i]] else Filtered(s[..i], keep)
  {
    assert s[..i + 1] == s[..i] + [s[i]];
    FilteredSnoc(s[..i], s[i], keep);
  }

  /** Mapping a concatenation maps each part. */
  lemma MappedConcat<T, U>(a: seq<T>, b: seq<T>, f: T -> U)
    ensures Mapped(a + b, f) == Mapped(a, f) + Mapped(b, f)
  {
    assert forall i :: 0 <= i < |b| ==> (a + b)[|a| + i] == b[i];
  }

  /** Walking one element further along `s` appends that element. */
  lemma ExtendByNext<T>(a: seq<T>, s: seq<T>, j: int)
    requires 0 <= j < |s|
    ensures a + s[..j + 1] == (a + s[..j]) + [s[j]]
  {
    assert s[..j + 1] == s[..j] + [s[j]];
  }

  /**
   * The elements at positions `startIdx` to `endIdx`, both included, where
   * a negative start counts as the head: empty when the range holds no
   * position of the chain.
   */
  function Between<T>(s: seq<T>, startIdx: int, endIdx: int): (r: seq<T>)
    requires endIdx < |s|
    ensures var lo := if startIdx < 0 then 0 else startIdx;
      && |r| == (if endIdx < lo then 0 else endIdx + 1 - lo)
      && forall t :: 0 <= t < |r| ==> r[t] == s[lo + t]
  {
    var lo := if startIdx < 0 then 0 else startIdx;
    if endIdx < lo then [] else s[lo..endIdx + 1]
  }

  // ---------------------------------------------------------------------
  // The linear search, shared by the list and by the hash-table buckets
  // ---------------------------------------------------------------------

  /** Walks the chain from the head and stops at the first element related to `probe`. */
  method FindInChain<T, P>(s: seq<T>, equal: (T, P) -> bool, probe: P) returns (i: int)
    ensures i == FirstIndex(s, equal, probe)
  {
    var node := 0;
    while node < |s|
      invariant 0 <= node <= |s|
      invariant forall j :: 0 <= j < node ==> !equal(s[j], probe)
    {
      if equal(s[node], probe) {
        return node;
      }
      node := node + 1;
    }
    return -1;
  }

  // ---------------------------------------------------------------------
  // The list object
  // ---------------------------------------------------------------------

  class List<T> {
    /** The payloads of the nodes reachable from `head`; `head` is elems[0], `tail` the last one. */
    var elems: seq<T>
    /** The element counter. */
    var size: nat
    /** The one cursor: the position of the node it designates; at or past `size` it is NULL. */
    var cursor: nat

    ghost predicate Valid()
      reads this
    {
      size == |elems|
    }

    /** list_create */
    constructor ()
      ensures Valid() && elems == [] && cursor == 0
    {
      elems, size, cursor := [], 0, 0;
    }

    method IsEmpty() returns (b: bool)
      requires Valid()
      ensures b <==> elems == []
    {
      b := size == 0;
    }

    method Size() returns (n: nat)
      requires Valid()
      ensures n == |elems|
    {
      n := size;
    }

    method GetFirst() returns (r: Option<T>)
      requires Valid()
      ensures r.None? <==> elems == []
      ensures r.Some? ==> r.value == elems[0]
    {
      if size == 0 {
        return None;
      }
      r := Some(elems[0]);
    }

    method GetLast() returns (r: Option<T>)
      requires Valid()
      ensures r.None? <==> elems == []
      ensures r.Some? ==> r.value == elems[|elems| - 1]
    {
      if size == 0 {
        return None;
      }
      r := Some(elems[size - 1]);
    }

    /** A negative position compares as a huge unsigned one against `size`, so it is out of range too. */
    method Get(position: int) returns (r: Option<T>)
      requires Valid()
      ensures r.None? <==> !(0 <= position < |elems|)
      ensures r.Some? ==> r.value == elems[position]
    {
      if position < 0 || position >= size {
        return None;
      }
      r := Some(elems[position]);
    }

    method Find<P>(equal: (T, P) -> bool, probe: P) returns (i: int)
      requires Valid()
      ensures i == FirstIndex(elems, equal, probe)
    {
      i := FindInChain(elems, equal, probe);
    }

    method InsertFirst(x: T)
      requires Valid()
      modifies this`elems, this`size
      ensures Valid() && elems == [x] + old(elems)
    {
      elems, size := [x] + elems, size + 1;
    }

    method InsertLast(x: T)
      requires Valid()
      modifies this`elems, this`size
      ensures Valid() && elems == old(elems) + [x]
    {
      elems, size := elems + [x], size + 1;
    }

    /** Places `x` at `position`, shifting the later elements; an out-of-range position changes nothing. */
    method Insert(x: T, position: int)
      requires Valid()
      modifies this`elems, this`size
      ensures Valid()
      ensures 0 <= position <= |old(elems)| ==> elems == old(elems)[..position] + [x] + old(elems)[position..]
      ensures !(0 <= position <= |old(elems)|) ==> elems == old(elems)
    {
      if position < 0 || position > size {
        return;
      }
      if position == 0 {
        InsertFirst(x);
      } else if position == size {
        InsertLast(x);
      } else {
        elems, size := elems[..position] + [x] + elems[position..], size + 1;
      }
    }

    method RemoveFirst() returns (r: Option<T>)
      requires Valid()
      modifies this`elems, this`size
      ensures Valid()
      ensures old(elems) == [] ==> r == None && elems == []
      ensures old(elems) != [] ==> r == Some(old(elems)[0]) && elems == old(elems)[1..]
    {
      if size == 0 {
        return None;
      }
      r := Some(elems[0]);
      elems, size := elems[1..], size - 1;
    }

    /** The removed node is unlinked from its predecessor here (see the stale-link model below). */
    method RemoveLast() returns (r: Option<T>)
      requires Valid()
      modifies this`elems, this`size
      ensures Valid()
      ensures old(elems) == [] ==> r == None && elems == []
      ensures old(elems) != [] ==> r == Some(old(elems)[|old(elems)| - 1]) && elems == old(elems)[..|old(elems)| - 1]
    {
      if size == 0 {
        return None;
      }
      r := Some(elems[size - 1]);
      if size == 1 {
        MakeEmpty();
      } else {
        elems, size := elems[..size - 1], size - 1;
      }
    }

    method Remove(position: int) returns (r: Option<T>)
      requires Valid()
      modifies this`elems, this`size
      ensures Valid()
      ensures 0 <= position < |old(elems)| ==>
        r == Some(old(elems)[position]) && elems == old(elems)[..position] + old(elems)[position + 1..]
      ensures !(0 <= position < |old(elems)|) ==> r == None && elems == old(elems)
    {
      if position < 0 || position >= size {
        return None;
      } else if position == 0 {
        r := RemoveFirst();
        return;
      } else if position == size - 1 {
        r := RemoveLast();
        return;
      }
      r := Some(elems[position]);
      elems, size := elems[..position] + elems[position + 1..], size - 1;
    }

    method MakeEmpty()
      requires Valid()
      modifies this`elems, this`size
      ensures Valid() && elems == []
    {
      elems, size := [], 0;
    }

    /** Copies the elements, in order, into the first `size` slots of `out`. */
    method ToArray(out: array<T>)
      requires Valid() && |elems| <= out.Length
      modifies out
      ensures out[..|elems|] == elems
      ensures forall k :: |elems| <= k < out.Length ==> out[k] == old(out[k])
    {
      var i := 0;
      while i < size
        invariant 0 <= i <= size
        invariant out[..i] == elems[..i]
        invariant forall k :: size <= k < out.Length ==> out[k] == old(out[k])
      {
        out[i] := elems[i];
        i := i + 1;
      }
    }

    method CountAll<P>(equal: (T, P) -> bool, probe: P) returns (n: int)
      requires Valid()
      ensures n == Occurrences(elems, equal, probe)
    {
      n := 0;
      var node := 0;
      while node < size
        invariant 0 <= node <= size
        invariant n == Occurrences(elems[..node], equal, probe)
      {
        assert elems[..node + 1] == elems[..node] + [elems[node]];
        OccurrencesSnoc(elems[..node], elems[node], equal, probe);
        if equal(elems[node], probe) {
          n := n + 1;
        }
        node := node + 1;
      }
      assert elems[..node] == elems;
    }

    /**
     * Unlinks every element that matches `probe`; returns how many were
     * unlinked, which is what CountAll reported beforehand.
     */
    method RemoveAll<P>(equal: (T, P) -> bool, probe: P) returns (n: int)
      requires Valid()
      modifies this`elems, this`size
      ensures Valid()
      ensures elems == Without(old(elems), equal, probe)
      ensures n == Occurrences(old(elems), equal, probe) == |old(elems)| - |elems|
    {
      ghost var visited, rest := [], elems;  // the nodes behind `node`, and `node` with those after it
      var node := 0;  // position of `node`; `previous` is the one before it
      n := 0;
      while node < size
        invariant Valid()
        invariant visited + rest == old(elems)
        invariant elems == Without(visited, equal, probe) + rest
        invariant node == |Without(visited, equal, probe)|
        invariant n == Occurrences(visited, equal, probe)
        decreases |rest|
      {
        var x := elems[node];
        RemoveAllStep(visited, rest, equal, probe);
        if equal(x, probe) {
          elems, size := elems[..node] + elems[node + 1..], size - 1;
          n := n + 1;
        } else {
          node := node + 1;
        }
        visited, rest := visited + [x], rest[1..];
      }
      assert rest == [] && visited == old(elems);
    }

    /**
     * Keeps the first element that matches `probe` and unlinks every later
     * match; returns the number of matches, the kept one included.
     */
    method RemoveDuplicates<P>(equal: (T, P) -> bool, probe: P) returns (n: int)
      requires Valid()
      modifies this`elems, this`size
      ensures Valid()
      ensures elems == KeepingFirst(old(elems), equal, probe)
      ensures n == Occurrences(old(elems), equal, probe)
    {
      ghost var visited, rest := [], elems;
      var node := 0;
      n := 0;
      while node < size
        invariant Valid()
        invariant visited + rest == old(elems)
        invariant elems == KeepingFirst(visited, equal, probe) + rest
        invariant node == |KeepingFirst(visited, equal, probe)|
        invariant n == Occurrences(visited, equal, probe)
        decreases |rest|
      {
        var x := elems[node];
        RemoveDuplicatesStep(visited, rest, equal, probe);
        if equal(x, probe) {
          n := n + 1;
          if n > 1 {
            elems, size := elems[..node] + elems[node + 1..], size - 1;
          } else {
            node := node + 1;
          }
        } else {
          node := node + 1;
        }
        visited, rest := visited + [x], rest[1..];
      }
      assert rest == [] && visited == old(elems);
    }

    /** A fresh list of `func` applied to every element; no function gives no list. */
    method Map<U>(func: Option<T -> U>) returns (r: List?<U>)
      requires Valid()
      ensures func.None? ==> r == null
      ensures func.Some? ==> r != null && fresh(r) && r.Valid() && r.cursor == 0
      ensures func.Some? ==> r.elems == Mapped(elems, func.value)
    {
      if func.None? {
        return null;
      }
      var l := new List<U>();
      var node := 0;
      while node < size
        invariant 0 <= node <= size
        invariant fresh(l) && l.Valid() && l.cursor == 0
        invariant l.elems == Mapped(elems[..node], func.value)
      {
        MappedPrefix(elems, node, func.value);
        l.InsertLast(func.value(elems[node]));
        node := node + 1;
      }
      assert elems[..node] == elems;
      r := l;
    }

    /** A fresh list of the elements `func` accepts, in order; no function gives no list. */
    method Filter(func: Option<T -> bool>) returns (r: List?<T>)
      requires Valid()
      ensures func.None? ==> r == null
      ensures func.Some? ==> r != null && fresh(r) && r.Valid() && r.cursor == 0
      ensures func.Some? ==> r.elems == Filtered(elems, func.value)
    {
      if func.None? {
        return null;
      }
      var l := new List<T>();
      var node := 0;
      while node < size
        invariant 0 <= node <= size
        invariant fresh(l) && l.Valid() && l.cursor == 0
        invariant l.elems == Filtered(elems[..node], func.value)
      {
        FilteredPrefix(elems, node, func.value);
        if func.value(elems[node]) {
          l.InsertLast(elems[node]);
        }
        node := node + 1;
      }
      assert elems[..node] == elems;
      r := l;
    }

    /**
     * A fresh list of the elements from `startIdx` to `endIdx`, both included.
     * A negative start skips nothing, so the list then starts at the head.
     */
    method SublistBetween(startIdx: int, endIdx: int) returns (r: List?<T>)
      requires Valid()
      requires startIdx <= endIdx ==> endIdx < |elems|
      ensures endIdx < startIdx ==> r == null
      ensures startIdx <= endIdx ==> r != null && fresh(r) && r.Valid() && r.cursor == 0
      ensures startIdx <= endIdx ==> r.elems == Between(elems, startIdx, endIdx)
    {
      if endIdx < startIdx {
        return null;
      }
      var l := new List<T>();
      var idx := if startIdx < 0 then 0 else startIdx;
      var first := idx;
      while idx <= endIdx
        invariant first <= idx && (idx <= endIdx + 1 || idx == first)
        invariant fresh(l) && l.Valid() && l.cursor == 0
        invariant l.elems == elems[first..idx]
      {
        assert elems[first..idx + 1] == elems[first..idx] + [elems[idx]];
        l.InsertLast(elems[idx]);
        idx := idx + 1;
      }
      r := l;
    }

    /** A fresh list of the elements at the first `count` positions listed in `indexes`, in that order. */
    method Sublist(indexes: array<int>, count: int) returns (r: List?<T>)
      requires Valid()
      requires count <= indexes.Length
      requires forall t :: 0 <= t < count ==> 0 <= indexes[t] < |elems|
      ensures count <= 0 ==> r == null
      ensures count > 0 ==> r != null && fresh(r) && r.Valid() && r.cursor == 0
      ensures count > 0 ==> |r.elems| == count && forall t :: 0 <= t < count ==> r.elems[t] == elems[indexes[t]]
    {
      if count <= 0 {
        return null;
      }
      var l := new List<T>();
      var i := 0;
      while i < count
        invariant 0 <= i <= count
        invariant fresh(l) && l.Valid() && l.cursor == 0
        invariant |l.elems| == i && forall t :: 0 <= t < i ==> l.elems[t] == elems[indexes[t]]
      {
        l.InsertLast(elems[indexes[i]]);
        i := i + 1;
      }
      r := l;
    }

    method IteratorStart()
      requires Valid()
      modifies this`cursor
      ensures cursor == 0
    {
      cursor := 0;
    }

    method IteratorHasNext() returns (b: bool)
      requires Valid()
      ensures b <==> cursor < |elems|
    {
      b := cursor < size;
    }

    /** Yields the element under the cursor and moves the cursor to the next node. */
    method IteratorGetNext() returns (r: Option<T>)
      requires Valid()
      modifies this`cursor
      ensures old(cursor) < |elems| ==> r == Some(elems[old(cursor)]) && cursor == old(cursor) + 1
      ensures old(cursor) >= |elems| ==> r == None && cursor == old(cursor)
    {
      if cursor >= size {
        return None;
      }
      r := Some(elems[cursor]);
      cursor := cursor + 1;
    }
  }

  /** A fresh list holding the elements of `list1` followed by those of `list2`. */
  method Join<T>(list1: List<T>, list2: List<T>) returns (r: List<T>)
    requires list1.Valid() && list2.Valid()
    ensures fresh(r) && r.Valid() && r.cursor == 0
    ensures r.elems == list1.elems + list2.elems
  {
    r := new List<T>();
    var node := 0;
    while node < list1.size
      invariant 0 <= node <= list1.size
      invariant fresh(r) && r.Valid() && r.cursor == 0
      invariant r.elems == list1.elems[..node]
    {
      assert list1.elems[..node + 1] == list1.elems[..node] + [list1.elems[node]];
      r.InsertLast(list1.elems[node]);
      node := node + 1;
    }
    node := 0;
    while node < list2.size
      invariant 0 <= node <= list2.size
      invariant fresh(r) && r.Valid() && r.cursor == 0
      invariant r.elems == list1.elems + list2.elems[..node]
    {
      assert list2.elems[..node + 1] == list2.elems[..node] + [list2.elems[node]];
      r.InsertLast(list2.elems[node]);
      node := node + 1;
    }
  }

  // ---------------------------------------------------------------------
  // list_remove_last as written: the predecessor keeps its `next` link
  // ---------------------------------------------------------------------

  /**
   * The node structure as the C code leaves it: `reachable` holds the
   * payloads met by following `next` from `head` until NULL, `size` is the
   * counter.  Walks bounded by the counter (list_get, list_find,
   * list_to_array) see reachable[..size]; walks that chase `next` until
   * NULL (list_count_all, list_remove_all, list_join, list_map,
   * list_filter, the cursor) see all of `reachable`.
   */
  datatype RawChain<T> = RawChain(reachable: seq<T>, size: nat)

  /**
   * list_remove_last as written: with two or more elements it moves `tail`
   * back and decrements the counter, but the new tail's `next` still points
   * at the removed node; with one element it empties the list.
   */
  function RemoveLastAsWritten<T>(c: RawChain<T>): (r: (RawChain<T>, Option<T>))
    requires c.size <= |c.reachable|
    ensures c.size == 0 ==> r == (c, None)
    ensures c.size > 0 ==> r.1 == Some(c.reachable[c.size - 1]) && r.0.size == c.size - 1
    ensures c.size == 1 ==> r.0 == RawChain([], 0)
    ensures c.size >= 2 ==> r.0.reachable == c.reachable
  {
    if c.size == 0 then (c, None)
    else if c.size == 1 then (RawChain([], 0), Some(c.reachable[0]))
    else (RawChain(c.reachable, c.size - 1), Some(c.reachable[c.size - 1]))
  }

  /** list_count_all as written: it chases `next` until NULL rather than counting to `size`. */
  function CountAllAsWritten<T, P>(c: RawChain<T>, equal: (T, P) -> bool, probe: P): (n: nat)
    ensures c.size <= |c.reachable| ==> Occurrences(c.reachable[..c.size], equal, probe) <= n
    ensures c.size == |c.reachable| ==> n == Occurrences(c.reachable[..c.size], equal, probe)
  {
    if c.size <= |c.reachable| then
      OccurrencesConcat(c.reachable[..c.size], c.reachable[c.size..], equal, probe);
      assert c.reachable == c.reachable[..c.size] + c.reachable[c.size..];
      Occurrences(c.reachable, equal, probe)
    else
      Occurrences(c.reachable, equal, probe)
  }

  /**
   * After list_remove_last on a list of two or more elements, a `next`-chasing
   * walk still meets the removed element: list_count_all counts it although
   * the counter says it is gone.
   */
  lemma StaleTailStillCounted<T, P>(s: seq<T>, equal: (T, P) -> bool, probe: P)
    requires |s| >= 2
    ensures var after := RemoveLastAsWritten(RawChain(s, |s|)).0;
      && after.size == |s| - 1
      && CountAllAsWritten(after, equal, probe) == Occurrences(s[..|s| - 1], equal, probe) + (if equal(s[|s| - 1], probe) then 1 else 0)
  {
    assert s == s[..|s| - 1] + [s[|s| - 1]];
    OccurrencesSnoc(s[..|s| - 1], s[|s| - 1], equal, probe);
  }

  /** The concrete case: remove the last of [1, 2]; the C walk still counts one 2, the list holds none. */
  lemma StaleTailExample()
    ensures var after := RemoveLastAsWritten(RawChain([1, 2], 2)).0;
      && after.reachable[..after.size] == [1]
      && CountAllAsWritten(after, (a: int, b: int) => a == b, 2) == 1
      && Occurrences([1], (a: int, b: int) => a == b, 2) == 0
  {
    StaleTailStillCounted([1, 2], (a: int, b: int) => a == b, 2);
    assert [1, 2][..1] == [1];
  }
}
