/**
  Generic sequence operations used by the keyword-mapping script: the
  array `filter` of JavaScript and the `flatten` and `uniq` helpers of
  lodash, each with the property that characterises it.
 */
module Seqs {

  /** No element occurs twice. */
  predicate NoDuplicates<T(==)>(s: seq<T>) {
    forall i, j :: 0 <= i < j < |s| ==> s[i] != s[j]
  }

  /** Each element is smaller than every later one. */
  predicate StrictlyIncreasing(s: seq<nat>) {
    forall j1, j2 :: 0 <= j1 < j2 < |s| ==> s[j1] < s[j2]
  }

  /** Array.prototype.filter: the elements satisfying `p`, in their original order. */
  function Filter<T(!new)>(s: seq<T>, p: T -> bool): (r: seq<T>)
    ensures |r| <= |s|
    ensures forall x {:trigger x in r} :: x in r <==> x in s && p(x)
  {
    if s == [] then []
    else (if p(s[0]) then [s[0]] else []) + Filter(s[1..], p)
  }

  /** Filtering distributes over concatenation: the order of the input is kept. */
  lemma {:induction false} FilterAppend<T(!new)>(a: seq<T>, b: seq<T>, p: T -> bool)
    ensures Filter(a + b, p) == Filter(a, p) + Filter(b, p)
  {
    if a != [] {
      assert (a + b)[0] == a[0];
      assert (a + b)[1..] == a[1..] + b;
      FilterAppend(a[1..], b, p);
    } else {
      assert a + b == b;
    }
  }

  /**
    `pos` is a strictly increasing list of positions of `s` that picks out
    exactly `r`, and every position of `s` whose element satisfies `p` is
    among them.
   */
  ghost predicate SubsequenceAt<T>(s: seq<T>, p: T -> bool, r: seq<T>, pos: seq<nat>) {
    && |pos| == |r|
    && (forall j :: 0 <= j < |pos| ==> pos[j] < |s| && r[j] == s[pos[j]])
    && StrictlyIncreasing(pos)
    && (forall i :: 0 <= i < |s| && p(s[i]) ==> i in pos)
  }

  /**
    `Filter(s, p)` is the subsequence of `s` made of the elements that
    satisfy `p`, in their order in `s` (by the contract of `Filter`, no
    element that fails `p` is picked).
   */
  lemma {:induction false} FilterPositions<T(!new)>(s: seq<T>, p: T -> bool) returns (pos: seq<nat>)
    ensures SubsequenceAt(s, p, Filter(s, p), pos)
  {
    if s == [] {
      pos := [];
    } else {
      var rest := FilterPositions(s[1..], p);
      var shifted := ShiftPositions(s, p, rest);
      if p(s[0]) {
        pos := PrependFirst(s, p, shifted);
      } else {
        assert Filter(s, p) == Filter(s[1..], p);
        pos := shifted;
      }
    }
  }

  /**
    `shifted` is a strictly increasing list of positions of `s`, none of them
    the first, that picks out `Filter(s[1..], p)` and covers every later
    position whose element satisfies `p`.
   */
  ghost predicate ShiftedAt<T(!new)>(s: seq<T>, p: T -> bool, shifted: seq<nat>)
    requires s != []
  {
    && |shifted| == |Filter(s[1..], p)|
    && (forall j :: 0 <= j < |shifted| ==> 0 < shifted[j] < |s| && Filter(s[1..], p)[j] == s[shifted[j]])
    && StrictlyIncreasing(shifted)
    && (forall i :: 0 < i < |s| && p(s[i]) ==> i in shifted)
  }

  /** The positions of `Filter(s[1..], p)` in `s[1..]`, moved one place right to become positions in `s`. */
  lemma ShiftPositions<T(!new)>(s: seq<T>, p: T -> bool, rest: seq<nat>) returns (shifted: seq<nat>)
    requires s != []
    requires SubsequenceAt(s[1..], p, Filter(s[1..], p), rest)
    ensures ShiftedAt(s, p, shifted)
  {
    var tail := Filter(s[1..], p);
    shifted := seq(|rest|, j requires 0 <= j < |rest| => rest[j] + 1);
    forall j | 0 <= j < |shifted|
      ensures 0 < shifted[j] < |s| && tail[j] == s[shifted[j]]
    {
      assert tail[j] == s[1..][rest[j]];
    }
    forall i | 0 < i < |s| && p(s[i])
      ensures i in shifted
    {
      assert s[i] == s[1..][i - 1];
      var j :| 0 <= j < |rest| && rest[j] == i - 1;
      assert shifted[j] == i;
    }
  }

  /** When the first element is kept, its position goes in front of the shifted ones. */
  lemma PrependFirst<T(!new)>(s: seq<T>, p: T -> bool, shifted: seq<nat>) returns (pos: seq<nat>)
    requires s != [] && p(s[0])
    requires ShiftedAt(s, p, shifted)
    ensures SubsequenceAt(s, p, Filter(s, p), pos)
  {
    var tail := Filter(s[1..], p);
    pos := [0] + shifted;
    assert Filter(s, p) == [s[0]] + tail;
    forall j | 0 < j < |pos| ensures pos[j] < |s| && Filter(s, p)[j] == s[pos[j]] {
      assert pos[j] == shifted[j - 1] && Filter(s, p)[j] == tail[j - 1];
    }
    forall j1, j2 | 0 <= j1 < j2 < |pos| ensures pos[j1] < pos[j2] {
      assert pos[j2] == shifted[j2 - 1];
      if 0 < j1 {
        assert pos[j1] == shifted[j1 - 1];
      }
    }
    forall i | 0 < i < |s| && p(s[i]) ensures i in pos {
      assert i in shifted;
    }
  }

  /** lodash `flatten` (one level): the lists concatenated in order. */
  function Flatten<T(!new)>(xss: seq<seq<T>>): (r: seq<T>)
    ensures forall x :: x in r <==> exists i :: 0 <= i < |xss| && x in xss[i]
  {
    if xss == [] then []
    else
      assert forall i :: 1 <= i < |xss| ==> xss[1..][i - 1] == xss[i];
      xss[0] + Flatten(xss[1..])
  }

  /** Flattening works list by list: the items of `a` come first, then those of `b`, each in its own order. */
  lemma {:induction false} FlattenAppend<T(!new)>(a: seq<seq<T>>, b: seq<seq<T>>)
    ensures Flatten(a + b) == Flatten(a) + Flatten(b)
  {
    if a == [] {
      assert a + b == b;
    } else {
      assert (a + b)[0] == a[0] && (a + b)[1..] == a[1..] + b;
      FlattenAppend(a[1..], b);
    }
  }

  /**
    Position of the first occurrence of `x` in `s`. It is defined by peeling
    the last element, the same way `Uniq` is, and its contract says what
    "first occurrence" means.
   */
  function FirstIndex<T(==)>(s: seq<T>, x: T): (i: nat)
    requires x in s
    ensures i < |s| && s[i] == x && x !in s[..i]
  {
    var init := s[..|s| - 1];
    if x in init then
      assert init[..FirstIndex(init, x)] == s[..FirstIndex(init, x)];
      FirstIndex(init, x)
    else
      assert s[..|s| - 1] == init;
      |s| - 1
  }

  /** The elements of `r` that occur in `s` come in the order of their first occurrence in `s`. */
  ghost predicate FirstAppearanceOrdered<T>(s: seq<T>, r: seq<T>) {
    forall i, j :: 0 <= i < j < |r| && r[i] in s && r[j] in s ==> FirstIndex(s, r[i]) < FirstIndex(s, r[j])
  }

  /**
    lodash `uniq`: the distinct elements, each kept at its first occurrence.
    The sequence is consumed from the left, one element at a time; an element
    already kept is skipped.
   */
  function Uniq<T(==,!new)>(s: seq<T>): (r: seq<T>)
    ensures NoDuplicates(r)
    ensures forall x :: x in r <==> x in s
    ensures |r| <= |s|
  {
    if s == [] then []
    else
      var kept := Uniq(s[..|s| - 1]);
      var last := s[|s| - 1];
      assert forall x :: x in s <==> x in s[..|s| - 1] || x == last by {
        assert s == s[..|s| - 1] + [last];
      }
      if last in kept then kept else kept + [last]
  }

  /** `Uniq` lists the distinct elements in order of first appearance. */
  lemma {:induction false} UniqFirstAppearanceOrder<T(!new)>(s: seq<T>)
    ensures FirstAppearanceOrdered(s, Uniq(s))
  {
    if s != [] {
      var init := s[..|s| - 1];
      var last := s[|s| - 1];
      var kept := Uniq(init);
      UniqFirstAppearanceOrder(init);
      assert s == init + [last];
      forall x | x in init ensures FirstIndex(s, x) == FirstIndex(init, x) { }
      if last !in kept {
        forall i | 0 <= i < |kept| ensures FirstIndex(s, kept[i]) < FirstIndex(s, last) {
          assert kept[i] in init;
        }
      }
    }
  }

  /** On a sequence without duplicates `Uniq` changes nothing; in particular it is idempotent. */
  lemma {:induction false} UniqOfDistinct<T(!new)>(s: seq<T>)
    requires NoDuplicates(s)
    ensures Uniq(s) == s
  {
    if s != [] {
      var init := s[..|s| - 1];
      UniqOfDistinct(init);
      assert s[|s| - 1] !in init;
      assert s == init + [s[|s| - 1]];
    }
  }

  /**
    The three properties proved of `Uniq` (no duplicates, the same elements,
    ordered by first appearance) determine it: any sequence having them is
    `Uniq(s)`.
   */
  lemma {:induction false} UniqCharacterised<T(!new)>(s: seq<T>, r: seq<T>)
    requires NoDuplicates(r)
    requires forall x :: x in r <==> x in s
    requires FirstAppearanceOrdered(s, r)
    ensures r == Uniq(s)
  {
    if s == [] {
      forall x ensures multiset(r)[x] == 0 { assert x !in r; }
      assert multiset(r) == multiset{};
      assert |r| == |multiset(r)|;
    } else {
      var init := s[..|s| - 1];
      var last := s[|s| - 1];
      if last in init {
        assert s == init + [last];
        forall x ensures x in r <==> x in init { }
        forall x | x in init ensures FirstIndex(s, x) == FirstIndex(init, x) { }
        UniqCharacterised(init, r);
      } else {
        NewLastComesLast(s, r);
        DropLastOrdered(s, r);
        var front := r[..|r| - 1];
        assert s == init + [last];
        assert r == front + [last];
        DropSharedLast(init, front, last);
        UniqCharacterised(init, front);
      }
    }
  }

  /**
    When the last element of `s` is new, it is the last element of any
    sequence with the same elements ordered by first appearance in `s`.
   */
  lemma NewLastComesLast<T(!new)>(s: seq<T>, r: seq<T>)
    requires s != [] && s[|s| - 1] !in s[..|s| - 1]
    requires forall x :: x in r <==> x in s
    requires FirstAppearanceOrdered(s, r)
    ensures r != [] && r[|r| - 1] == s[|s| - 1]
  {
    var last := s[|s| - 1];
    assert last in r;
    var p :| 0 <= p < |r| && r[p] == last;
    var q := |r| - 1;
    assert FirstIndex(s, last) == |s| - 1;
    assert r[q] in s;
    OrderedBefore(s, r, p, q);
  }

  /** In a sequence ordered by first appearance, an element appearing no later comes no later. */
  lemma OrderedBefore<T(!new)>(s: seq<T>, r: seq<T>, i: nat, j: nat)
    requires FirstAppearanceOrdered(s, r)
    requires i < |r| && j < |r| && r[i] in s && r[j] in s
    requires FirstIndex(s, r[j]) <= FirstIndex(s, r[i])
    ensures j <= i
  {
  }

  /** Dropping a shared, new last element from two sequences with the same elements keeps them so. */
  lemma DropSharedLast<T(!new)>(init: seq<T>, front: seq<T>, last: T)
    requires last !in init
    requires NoDuplicates(front + [last])
    requires forall x :: x in front + [last] <==> x in init + [last]
    ensures NoDuplicates(front)
    ensures forall x :: x in front <==> x in init
  {
    var r := front + [last];
    forall x ensures x in front <==> x in init {
      assert x in r <==> x in front || x == last;
      assert x in init + [last] <==> x in init || x == last;
      if x in front {
        var i :| 0 <= i < |front| && front[i] == x;
        assert r[i] == x && r[|r| - 1] == last;
      }
    }
    forall i, j | 0 <= i < j < |front| ensures front[i] != front[j] {
      assert r[i] == front[i] && r[j] == front[j];
    }
  }

  /** Dropping the last element of both sequences keeps the order of first appearance. */
  lemma DropLastOrdered<T(!new)>(s: seq<T>, r: seq<T>)
    requires s != [] && r != []
    requires FirstAppearanceOrdered(s, r)
    ensures FirstAppearanceOrdered(s[..|s| - 1], r[..|r| - 1])
  {
  }

  /** Dropping the last element does not move the first occurrence of an earlier element. */
  lemma FirstIndexOfInit<T(!new)>(s: seq<T>, x: T)
    requires s != [] && x in s[..|s| - 1]
    ensures FirstIndex(s, x) == FirstIndex(s[..|s| - 1], x)
  {
  }
}
