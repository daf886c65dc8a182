/** The presentation-timestamp window of the encode loop in source/x265.cpp:
    when the output asks for PTS tracking, every written frame's pts is
    pushed negated into a `std::priority_queue<int64_t>` (a max-queue) and
    the top is popped whenever more than two are held, so the queue keeps
    the negations of the two largest pts; `closeFile` then receives the
    larger and the smaller of the two. */
module PtsWindow {

  /** Non-increasing order, the order in which a max-queue hands out its
      elements. */
  predicate SortedDesc(s: seq<int>)
  {
    forall i, j :: 0 <= i < j < |s| ==> s[i] >= s[j]
  }

  /** `x` placed after every element greater than it. */
  function InsertDesc(s: seq<int>, x: int): (t: seq<int>)
    ensures |t| == |s| + 1
  {
    if s == [] || s[0] <= x then [x] + s
    else [s[0]] + InsertDesc(s[1..], x)
  }

  /** A bound on every element and on `x` bounds the result. */
  lemma {:induction false} InsertDescBounded(s: seq<int>, x: int, b: int)
    requires forall k :: 0 <= k < |s| ==> s[k] <= b
    requires x <= b
    ensures forall k :: 0 <= k < |InsertDesc(s, x)| ==> InsertDesc(s, x)[k] <= b
  {
    if s != [] && s[0] > x {
      InsertDescBounded(s[1..], x, b);
    }
  }

  /** Insertion keeps the order. */
  lemma {:induction false} InsertDescSorted(s: seq<int>, x: int)
    requires SortedDesc(s)
    ensures SortedDesc(InsertDesc(s, x))
  {
    var t := InsertDesc(s, x);
    if s == [] || s[0] <= x {
      assert t == [x] + s;
      forall i, j | 0 <= i < j < |t| ensures t[i] >= t[j] {
        assert t[j] == s[j - 1];
        if i > 0 {
          assert t[i] == s[i - 1];
        } else {
          assert s[0] >= s[j - 1];
        }
      }
    } else {
      var rest := InsertDesc(s[1..], x);
      InsertDescSorted(s[1..], x);
      InsertDescBounded(s[1..], x, s[0]);
      assert t == [s[0]] + rest;
      forall i, j | 0 <= i < j < |t| ensures t[i] >= t[j] {
        assert t[j] == rest[j - 1];
        if i > 0 {
          assert t[i] == rest[i - 1];
        }
      }
    }
  }

  /** Insertion adds exactly the one element. */
  lemma {:induction false} InsertDescPermutes(s: seq<int>, x: int)
    ensures multiset(InsertDesc(s, x)) == multiset(s) + multiset{x}
  {
    if s == [] || s[0] <= x {
    } else {
      InsertDescPermutes(s[1..], x);
      assert s == [s[0]] + s[1..];
    }
  }

  /** `std::priority_queue<int64_t>`: its elements in the order `top()` and
      `pop()` hand them out. The 64-bit range is not modelled. */
  class PtsQueue {
    var items: seq<int>

    ghost predicate Valid()
      reads this
    {
      SortedDesc(items)
    }

    constructor ()
      ensures Valid() && items == []
    {
      items := [];
    }

    method Push(x: int)
      requires Valid()
      modifies this
      ensures Valid() && items == InsertDesc(old(items), x)
      ensures multiset(items) == multiset(old(items)) + multiset{x}
    {
      InsertDescSorted(items, x);
      InsertDescPermutes(items, x);
      items := InsertDesc(items, x);
    }

    method Size() returns (n: nat)
      ensures n == |items|
    {
      n := |items|;
    }

    /** The largest element. */
    method Top() returns (x: int)
      requires Valid() && |items| > 0
      ensures x == items[0] && forall k :: 0 <= k < |items| ==> items[k] <= x
    {
      x := items[0];
    }

    /** Removes the largest element. */
    method Pop()
      requires Valid() && |items| > 0
      modifies this
      ensures Valid() && items == old(items)[1..]
    {
      items := items[1..];
    }
  }

  function Max(a: int, b: int): int { if a >= b then a else b }
  function Min(a: int, b: int): int { if a <= b then a else b }

  /** The largest of a non-empty list of pts. */
  function Largest(s: seq<int>): int
    requires |s| > 0
  {
    if |s| == 1 then s[0] else Max(Largest(s[..|s| - 1]), s[|s| - 1])
  }

  /** The second largest (counting repeats) of a list of at least two pts. */
  function SecondLargest(s: seq<int>): int
    requires |s| >= 2
  {
    if |s| == 2 then Min(s[0], s[1])
    else
      var init := s[..|s| - 1];
      var x := s[|s| - 1];
      if x >= Largest(init) then Largest(init) else Max(SecondLargest(init), x)
  }

  /** The position `Largest` takes its value from. */
  function ArgLargest(s: seq<int>): (i: nat)
    requires |s| > 0
    ensures i < |s|
  {
    if |s| == 1 then 0
    else if s[|s| - 1] >= Largest(s[..|s| - 1]) then |s| - 1
    else ArgLargest(s[..|s| - 1])
  }

  /** The position `SecondLargest` takes its value from. */
  function ArgSecond(s: seq<int>): (j: nat)
    requires |s| >= 2
    ensures j < |s|
  {
    var init := s[..|s| - 1];
    var x := s[|s| - 1];
    if |s| == 2 then (if s[1] >= s[0] then 0 else 1)
    else if x >= Largest(init) then ArgLargest(init)
    else if x > SecondLargest(init) then |s| - 1
    else ArgSecond(init)
  }

  /** `ArgLargest` is where the largest pts sits, and every pts is at most
      it. */
  lemma {:induction false} LargestAt(s: seq<int>)
    requires |s| > 0
    ensures s[ArgLargest(s)] == Largest(s)
    ensures forall k :: 0 <= k < |s| ==> s[k] <= Largest(s)
  {
    if |s| > 1 {
      var init := s[..|s| - 1];
      LargestAt(init);
      assert forall k :: 0 <= k < |init| ==> s[k] == init[k];
    }
  }

  /** The two positions are different, hold the two values, and every
      other pts is at most the second largest. */
  lemma {:induction false} TopTwoAt(s: seq<int>)
    requires |s| >= 2
    ensures ArgLargest(s) != ArgSecond(s)
    ensures s[ArgLargest(s)] == Largest(s) && s[ArgSecond(s)] == SecondLargest(s)
    ensures forall k :: 0 <= k < |s| && k != ArgLargest(s) ==> s[k] <= SecondLargest(s)
    ensures SecondLargest(s) <= Largest(s)
  {
    var init := s[..|s| - 1];
    var n := |s| - 1;
    LargestAt(s);
    assert forall k :: 0 <= k < n ==> s[k] == init[k];
    if |s| == 2 {
      assert init == [s[0]];
    } else {
      TopTwoAt(init);
      LargestAt(init);
    }
  }

  /** `Largest` and `SecondLargest` are what their names say: two different
      positions hold them, and every pts other than the one at the first
      position is at most the second largest. */
  lemma TopTwoCharacterised(s: seq<int>)
    requires |s| >= 2
    ensures exists i, j :: (0 <= i < |s| && 0 <= j < |s| && i != j &&
      s[i] == Largest(s) && s[j] == SecondLargest(s) &&
      forall k :: 0 <= k < |s| && k != i ==> s[k] <= SecondLargest(s))
    ensures SecondLargest(s) <= Largest(s)
  {
    TopTwoAt(s);
    var i, j := ArgLargest(s), ArgSecond(s);
    assert forall k :: 0 <= k < |s| && k != i ==> s[k] <= SecondLargest(s);
  }

  /** Insertion into a queue of at most two entries, spelled out. */
  lemma InsertSmall(s: seq<int>, y: int)
    requires SortedDesc(s) && |s| <= 2
    ensures |s| == 0 ==> InsertDesc(s, y) == [y]
    ensures |s| == 1 ==> InsertDesc(s, y) == if s[0] <= y then [y, s[0]] else [s[0], y]
    ensures |s| == 2 ==> (InsertDesc(s, y) ==
      if s[0] <= y then [y, s[0], s[1]]
      else if s[1] <= y then [s[0], y, s[1]]
      else [s[0], s[1], y])
  {
    if |s| == 2 && s[0] > y {
      assert s[1..] == [s[1]];
    }
  }

  /** Pushing a third pts and popping the top leaves the two largest. */
  lemma PopAfterThird(sl: int, l: int, x: int)
    requires sl <= l
    ensures InsertDesc([-sl, -l], -x)[1..] == if x >= l then [-l, -x] else [-Max(sl, x), -l]
  {
    InsertSmall([-sl, -l], -x);
  }

  /** What the queue holds after the pts of `s` went through it. */
  function Window(s: seq<int>): seq<int>
  {
    if |s| == 0 then []
    else if |s| == 1 then [-s[0]]
    else [-SecondLargest(s), -Largest(s)]
  }

  /** The queue after one more pts: pushed negated, and the top popped when
      more than two are held. */
  function Retain(items: seq<int>, pts: int): (t: seq<int>)
  {
    var pushed := InsertDesc(items, -pts);
    if |pushed| > 2 then pushed[1..] else pushed
  }

  /** The step of the encode loop once a frame was written:
      `pts_queue->push(-pic_out.pts)`, then a pop when more than two are
      held. */
  method Track(q: PtsQueue, pts: int)
    requires q.Valid()
    modifies q
    ensures q.Valid() && q.items == Retain(old(q.items), pts)
  {
    ghost var before := q.items;
    q.Push(-pts);
    ghost var pushed := q.items;
    assert Retain(before, pts) == if |pushed| > 2 then pushed[1..] else pushed;
    var n := q.Size();
    if n > 2 {
      q.Pop();
    }
  }

  /** The two largest after one more pts. */
  lemma TopTwoSnoc(s: seq<int>, x: int)
    requires |s| >= 1
    ensures Largest(s + [x]) == Max(Largest(s), x)
    ensures |s| >= 2 ==>
      SecondLargest(s + [x]) == if x >= Largest(s) then Largest(s) else Max(SecondLargest(s), x)
    ensures |s| == 1 ==> SecondLargest(s + [x]) == Min(s[0], x)
  {
    var t := s + [x];
    assert t[..|t| - 1] == s;
    if |s| == 1 {
      assert t == [s[0], x];
    }
  }

  /** What the queue holds is in the order the queue keeps. */
  lemma WindowSorted(s: seq<int>)
    ensures SortedDesc(Window(s))
  {
    if |s| >= 2 {
      SecondNotAbove(s);
    }
  }

  lemma SecondNotAbove(s: seq<int>)
    requires |s| >= 2
    ensures SecondLargest(s) <= Largest(s)
  {
    TopTwoAt(s);
  }

  /** `Retain` on a full queue, spelled out. */
  lemma RetainFull(sl: int, l: int, x: int)
    requires sl <= l
    ensures Retain([-sl, -l], x) == if x >= l then [-l, -x] else [-Max(sl, x), -l]
  {
    PopAfterThird(sl, l, x);
  }

  /** The window of a third and later pts, when the queue holds two. */
  lemma WindowStepFull(s: seq<int>, x: int)
    requires |s| >= 2
    ensures Window(s + [x]) == Retain(Window(s), x)
  {
    SecondNotAbove(s);
    TopTwoSnoc(s, x);
    RetainFull(SecondLargest(s), Largest(s), x);
  }

  /** The window of the first and the second pts. */
  lemma WindowStepSmall(s: seq<int>, x: int)
    requires |s| < 2
    ensures SortedDesc(Window(s))
    ensures Window(s + [x]) == Retain(Window(s), x)
  {
    if |s| == 0 {
      assert s + [x] == [x];
    } else {
      TopTwoSnoc(s, x);
      InsertSmall([-s[0]], -x);
    }
  }

  /** Whatever the order the pts arrive in, the queue holds the negations
      of the two largest. */
  lemma WindowStep(s: seq<int>, x: int)
    ensures SortedDesc(Window(s))
    ensures Window(s + [x]) == Retain(Window(s), x)
  {
    if |s| < 2 {
      WindowStepSmall(s, x);
    } else {
      WindowSorted(s);
      WindowStepFull(s, x);
    }
  }

  /** The pts window over a whole run, and the values handed to
      `closeFile`: with at least two entries, `second_largest_pts` is the
      negated top and `largest_pts` the negated next one; otherwise, and
      when the output does not ask for PTS tracking (no queue is made),
      both are 0. */
  method RunWindow(needPts: bool, pts: seq<int>) returns (largest: int, secondLargest: int)
    ensures needPts && |pts| >= 2 ==> largest == Largest(pts) && secondLargest == SecondLargest(pts)
    ensures !(needPts && |pts| >= 2) ==> largest == 0 && secondLargest == 0
  {
    var q: PtsQueue? := null;
    if needPts {
      q := new PtsQueue();
    }
    var i := 0;
    while i < |pts|
      invariant 0 <= i <= |pts|
      invariant q != null ==> q.Valid() && q.items == Window(pts[..i])
    {
      if q != null {
        WindowStep(pts[..i], pts[i]);
        assert pts[..i + 1] == pts[..i] + [pts[i]];
        Track(q, pts[i]);
      }
      i := i + 1;
    }
    assert pts[..i] == pts;
    largest, secondLargest := Close(q);
  }

  /** The end of `x265main`: reads the two retained pts back out. */
  method Close(q: PtsQueue?) returns (largest: int, secondLargest: int)
    requires q != null ==> q.Valid()
    modifies q
    ensures q != null && |old(q.items)| >= 2 ==>
      secondLargest == -old(q.items)[0] && largest == -old(q.items)[1]
    ensures !(q != null && |old(q.items)| >= 2) ==> largest == 0 && secondLargest == 0
  {
    secondLargest, largest := 0, 0;
    if q != null {
      var n := q.Size();
      if n >= 2 {
        var top := q.Top();
        secondLargest := -top;
        q.Pop();
        top := q.Top();
        largest := -top;
        q.Pop();
      }
    }
  }
}
