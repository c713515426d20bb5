/**
 * The binary min-heap of the utilities: a complete binary tree stored level by level
 * in a growable array, ordered by a caller-supplied comparator that returns a negative,
 * zero or positive number. Position j > 0 has its parent at floor((j - 1) / 2).
 *
 * The array is the field `items`; `down` and `up` are the TypeScript hole-based loops,
 * each proved equal to the textbook swap-based sift (`SiftDown`, `SiftUp`), and the
 * heap-order facts are proved about those functions.
 */
module MinHeap {
  import opened Wrappers

  /** `a` may stand above `b`: the comparator does not place `a` after `b`. */
  predicate Le<T>(cmp: (T, T) -> int, a: T, b: T) {
    cmp(a, b) <= 0
  }

  /**
   * What heap order needs of the comparator: a total preorder. A non-negative comparison
   * reverses to a non-positive one, and "not after" is transitive.
   */
  ghost predicate ComparatorOk<T(!new)>(cmp: (T, T) -> int) {
    && (forall x, y :: cmp(x, y) >= 0 ==> cmp(y, x) <= 0)
    && (forall x, y, z :: cmp(x, y) <= 0 && cmp(y, z) <= 0 ==> cmp(x, z) <= 0)
  }

  lemma LeTrans<T(!new)>(cmp: (T, T) -> int, x: T, y: T, z: T)
    requires ComparatorOk(cmp) && Le(cmp, x, y) && Le(cmp, y, z)
    ensures Le(cmp, x, z)
  {
  }

  lemma LeFlip<T(!new)>(cmp: (T, T) -> int, x: T, y: T)
    requires ComparatorOk(cmp) && cmp(x, y) >= 0
    ensures Le(cmp, y, x)
  {
  }

  /** `Math.floor((j - 1) / 2)`; Dafny's division rounds down for a positive divisor. */
  function Parent(j: nat): nat
    requires j > 0
  {
    (j - 1) / 2
  }

  /** Every element is not after any of its children. */
  ghost predicate IsHeap<T>(s: seq<T>, cmp: (T, T) -> int) {
    forall j :: 0 < j < |s| ==> Le(cmp, s[Parent(j)], s[j])
  }

  /** The child `down` compares against: the right one when it is strictly before the left one. */
  function MinChild<T>(s: seq<T>, cmp: (T, T) -> int, i: nat): (c: nat)
    requires 2 * i + 1 < |s|
    ensures c == 2 * i + 1 || c == 2 * i + 2
    ensures i < c < |s|
  {
    var l := 2 * i + 1;
    if l + 1 < |s| && cmp(s[l + 1], s[l]) < 0 then l + 1 else l
  }

  function Swap<T>(s: seq<T>, i: nat, j: nat): (r: seq<T>)
    requires i < |s| && j < |s|
    ensures |r| == |s|
  {
    s[i := s[j]][j := s[i]]
  }

  /** The element at i moves towards the leaves while its smaller child is strictly before it. */
  function SiftDown<T>(s: seq<T>, cmp: (T, T) -> int, i: nat): (r: seq<T>)
    ensures |r| == |s|
    decreases |s| - i
  {
    if 2 * i + 1 >= |s| then s
    else
      var c := MinChild(s, cmp, i);
      if cmp(s[i], s[c]) <= 0 then s else SiftDown(Swap(s, i, c), cmp, c)
  }

  /** The element at i moves towards the root while it is strictly before its parent. */
  function SiftUp<T>(s: seq<T>, cmp: (T, T) -> int, i: nat): (r: seq<T>)
    ensures |r| == |s|
    decreases i
  {
    if i == 0 || i >= |s| then s
    else if cmp(s[i], s[Parent(i)]) < 0 then SiftUp(Swap(s, i, Parent(i)), cmp, Parent(i))
    else s
  }

  /** `removeByIndex` before its sift: the last leaf overwrites position i and the array shrinks by one. */
  function Spliced<T>(s: seq<T>, i: nat): (r: seq<T>)
    requires i < |s|
    ensures |r| == |s| - 1
  {
    s[i := s[|s| - 1]][..|s| - 1]
  }

  /** The elements of s that `f` keeps, in order. */
  function Kept<T>(s: seq<T>, f: T -> bool): (r: seq<T>)
    ensures forall x :: x in r ==> x in s && f(x)
  {
    if s == [] then [] else (if f(s[0]) then [s[0]] else []) + Kept(s[1..], f)
  }

  /** The first position of v in s, or -1: `Array.prototype.indexOf`. */
  function IndexOf<T(==)>(s: seq<T>, v: T): (i: int)
    ensures -1 <= i < |s|
    ensures i >= 0 ==> s[i] == v && forall j :: 0 <= j < i ==> s[j] != v
    ensures i < 0 ==> v !in s
  {
    if s == [] then -1
    else if s[0] == v then 0
    else var k := IndexOf(s[1..], v); if k < 0 then -1 else k + 1
  }

  // ---------------------------------------------------------------------------
  // Elements are preserved

  lemma SwapPerm<T>(s: seq<T>, i: nat, j: nat)
    requires i < |s| && j < |s|
    ensures multiset(Swap(s, i, j)) == multiset(s)
  {
    var t := s[i := s[j]];
    assert multiset(t) == multiset(s) - multiset{s[i]} + multiset{s[j]};
    assert multiset(t[j := s[i]]) == multiset(t) - multiset{t[j]} + multiset{s[i]};
  }

  lemma {:induction false} SiftDownPerm<T>(s: seq<T>, cmp: (T, T) -> int, i: nat)
    ensures multiset(SiftDown(s, cmp, i)) == multiset(s)
    decreases |s| - i
  {
    if 2 * i + 1 < |s| {
      var c := MinChild(s, cmp, i);
      if cmp(s[i], s[c]) > 0 {
        SwapPerm(s, i, c);
        SiftDownPerm(Swap(s, i, c), cmp, c);
      }
    }
  }

  lemma {:induction false} SiftUpPerm<T>(s: seq<T>, cmp: (T, T) -> int, i: nat)
    ensures multiset(SiftUp(s, cmp, i)) == multiset(s)
    decreases i
  {
    if 0 < i < |s| && cmp(s[i], s[Parent(i)]) < 0 {
      SwapPerm(s, i, Parent(i));
      SiftUpPerm(Swap(s, i, Parent(i)), cmp, Parent(i));
    }
  }


  lemma SplicedPerm<T>(s: seq<T>, i: nat)
    requires i < |s|
    ensures multiset(Spliced(s, i)) == multiset(s) - multiset{s[i]}
  {
    var t := Spliced(s, i);
    SplicedSuffix(s, i);
    MultisetSplit(t, i);
    MultisetSplit(s, i);
    MultisetHead(s, i);
    MultisetCancel(multiset(s[..i]), multiset(s[i + 1..]), s[i]);
  }

  lemma MultisetSplit<T>(x: seq<T>, i: nat)
    requires i <= |x|
    ensures multiset(x) == multiset(x[..i]) + multiset(x[i..])
  {
    assert x == x[..i] + x[i..];
  }

  lemma MultisetHead<T>(x: seq<T>, i: nat)
    requires i < |x|
    ensures multiset(x[i..]) == multiset{x[i]} + multiset(x[i + 1..])
  {
    assert x[i..] == [x[i]] + x[i + 1..];
  }

  lemma MultisetCancel<T>(a: multiset<T>, b: multiset<T>, v: T)
    ensures (a + (multiset{v} + b)) - multiset{v} == a + b
  {
  }


  /** removeByIndex's result loses exactly the element at i. */
  lemma RemovedAtPerm<T>(s: seq<T>, cmp: (T, T) -> int, i: nat)
    requires i < |s|
    ensures multiset(RemovedAt(s, cmp, i)) == multiset(s) - multiset{s[i]}
  {
    SplicedPerm(s, i);
    SiftDownPerm(Spliced(s, i), cmp, i);
  }



  /** A swap of i with a later position keeps the prefix before i and permutes the suffix from i. */
  lemma SwapFrame<T>(s: seq<T>, i: nat, c: nat)
    requires i < c < |s|
    ensures Swap(s, i, c)[..i] == s[..i]
    ensures multiset(Swap(s, i, c)[i..]) == multiset(s[i..])
  {
    SwapPerm(s[i..], 0, c - i);
    assert Swap(s[i..], 0, c - i) == Swap(s, i, c)[i..];
  }

  /** Agreement before c and a permutation from c give agreement before i and a permutation from i, for i <= c. */
  lemma FrameWiden<T>(r: seq<T>, t: seq<T>, i: nat, c: nat)
    requires i <= c <= |r| == |t|
    requires r[..c] == t[..c] && multiset(r[c..]) == multiset(t[c..])
    ensures r[..i] == t[..i]
    ensures multiset(r[i..]) == multiset(t[i..])
  {
    assert r[..i] == r[..c][..i];
    assert t[..i] == t[..c][..i];
    assert r[i..] == r[i..c] + r[c..];
    assert t[i..] == t[i..c] + t[c..];
    assert r[i..c] == r[..c][i..];
    assert t[i..c] == t[..c][i..];
  }

  /** `down` from i never touches positions before i and only permutes the rest. */
  lemma {:induction false} SiftDownFrame<T>(s: seq<T>, cmp: (T, T) -> int, i: nat)
    requires i <= |s|
    ensures SiftDown(s, cmp, i)[..i] == s[..i]
    ensures multiset(SiftDown(s, cmp, i)[i..]) == multiset(s[i..])
    decreases |s| - i
  {
    if 2 * i + 1 < |s| {
      var c := MinChild(s, cmp, i);
      if cmp(s[i], s[c]) > 0 {
        var t := Swap(s, i, c);
        var r := SiftDown(t, cmp, c);
        SiftDownFrame(t, cmp, c);
        FrameWiden(r, t, i, c);
        SwapFrame(s, i, c);
      }
    }
  }

  // ---------------------------------------------------------------------------
  // Heap order

  /**
   * Heap order holds except below position i, and the parent of i is not after the children
   * of i: the situation `down` starts from when position i receives a new element.
   */
  ghost predicate DownInv<T>(s: seq<T>, cmp: (T, T) -> int, i: nat) {
    && (forall j :: 0 < j < |s| && Parent(j) != i ==> Le(cmp, s[Parent(j)], s[j]))
    && (forall j :: 0 < j < |s| && Parent(j) == i && i > 0 ==> Le(cmp, s[Parent(i)], s[j]))
  }

  /**
   * Heap order holds except above position i, and the parent of i is not after the children
   * of i: the situation `up` starts from when position i receives a new element.
   */
  ghost predicate UpInv<T>(s: seq<T>, cmp: (T, T) -> int, i: nat) {
    && (forall j :: 0 < j < |s| && j != i ==> Le(cmp, s[Parent(j)], s[j]))
    && (forall j :: 0 < j < |s| && Parent(j) == i && i > 0 ==> Le(cmp, s[Parent(i)], s[j]))
  }

  /** The child `down` picks is not after its sibling. */
  lemma MinChildFirst<T(!new)>(s: seq<T>, cmp: (T, T) -> int, i: nat, j: nat)
    requires ComparatorOk(cmp) && 2 * i + 1 < |s| && j < |s| && (j == 2 * i + 1 || j == 2 * i + 2)
    ensures Le(cmp, s[MinChild(s, cmp, i)], s[j])
  {
    var l := 2 * i + 1;
    if MinChild(s, cmp, i) == l && j == l + 1 {
      LeFlip(cmp, s[l + 1], s[l]);
    }
  }

  lemma DownStep<T(!new)>(s: seq<T>, cmp: (T, T) -> int, i: nat)
    requires ComparatorOk(cmp) && DownInv(s, cmp, i) && 2 * i + 1 < |s|
    requires cmp(s[i], s[MinChild(s, cmp, i)]) > 0
    ensures DownInv(Swap(s, i, MinChild(s, cmp, i)), cmp, MinChild(s, cmp, i))
  {
    var c := MinChild(s, cmp, i);
    var t := Swap(s, i, c);
    LeFlip(cmp, s[i], s[c]);
    forall j | 0 < j < |t| && Parent(j) != c
      ensures Le(cmp, t[Parent(j)], t[j])
    {
      if Parent(j) == i {
        MinChildFirst(s, cmp, i, j);
      } else if j == i {
        assert Le(cmp, s[Parent(i)], s[c]);
      }
    }
    forall j | 0 < j < |t| && Parent(j) == c
      ensures Le(cmp, t[Parent(c)], t[j])
    {
      assert Parent(c) == i && j != i && j != c;
    }
  }

  lemma DownDone<T(!new)>(s: seq<T>, cmp: (T, T) -> int, i: nat)
    requires ComparatorOk(cmp) && DownInv(s, cmp, i)
    requires 2 * i + 1 >= |s| || cmp(s[i], s[MinChild(s, cmp, i)]) <= 0
    ensures IsHeap(s, cmp)
  {
    forall j | 0 < j < |s| && Parent(j) == i
      ensures Le(cmp, s[i], s[j])
    {
      MinChildFirst(s, cmp, i, j);
      LeTrans(cmp, s[i], s[MinChild(s, cmp, i)], s[j]);
    }
  }

  /** `down` from a position where only that position may be out of order restores heap order. */
  lemma {:induction false} SiftDownHeap<T(!new)>(s: seq<T>, cmp: (T, T) -> int, i: nat)
    requires ComparatorOk(cmp) && DownInv(s, cmp, i)
    ensures IsHeap(SiftDown(s, cmp, i), cmp)
    decreases |s| - i
  {
    if 2 * i + 1 >= |s| || cmp(s[i], s[MinChild(s, cmp, i)]) <= 0 {
      DownDone(s, cmp, i);
    } else {
      var c := MinChild(s, cmp, i);
      DownStep(s, cmp, i);
      SiftDownHeap(Swap(s, i, c), cmp, c);
    }
  }

  lemma UpStep<T(!new)>(s: seq<T>, cmp: (T, T) -> int, i: nat)
    requires ComparatorOk(cmp) && UpInv(s, cmp, i) && 0 < i < |s|
    requires cmp(s[i], s[Parent(i)]) < 0
    ensures UpInv(Swap(s, i, Parent(i)), cmp, Parent(i))
  {
    var p := Parent(i);
    var t := Swap(s, i, p);
    forall j | 0 < j < |t| && j != p
      ensures Le(cmp, t[Parent(j)], t[j])
    {
      if j == i {
      } else if Parent(j) == p {
        LeTrans(cmp, s[i], s[p], s[j]);
      } else if Parent(j) == i {
        assert Le(cmp, s[p], s[j]);
      }
    }
    forall j | 0 < j < |t| && Parent(j) == p && p > 0
      ensures Le(cmp, t[Parent(p)], t[j])
    {
      assert Le(cmp, s[Parent(p)], s[p]);
      if j != i {
        LeTrans(cmp, s[Parent(p)], s[p], s[j]);
      }
    }
  }

  /** `up` from a position where only that position may be out of order restores heap order. */
  lemma {:induction false} SiftUpHeap<T(!new)>(s: seq<T>, cmp: (T, T) -> int, i: nat)
    requires ComparatorOk(cmp) && i < |s| && UpInv(s, cmp, i)
    ensures IsHeap(SiftUp(s, cmp, i), cmp)
    decreases i
  {
    if i == 0 {
    } else if cmp(s[i], s[Parent(i)]) < 0 {
      UpStep(s, cmp, i);
      SiftUpHeap(Swap(s, i, Parent(i)), cmp, Parent(i));
    } else {
      LeFlip(cmp, s[i], s[Parent(i)]);
    }
  }

  /** In a heap the root is not after any element. */
  lemma RootIsMin<T(!new)>(s: seq<T>, cmp: (T, T) -> int, j: nat)
    requires ComparatorOk(cmp) && IsHeap(s, cmp) && j < |s|
    ensures Le(cmp, s[0], s[j])
    decreases j
  {
    if j == 0 {
      assert cmp(s[0], s[0]) >= 0 || cmp(s[0], s[0]) < 0;
    } else {
      RootIsMin(s, cmp, Parent(j));
      LeTrans(cmp, s[0], s[Parent(j)], s[j]);
    }
  }

  /** Appending an element and sifting it up (`insert`) keeps heap order. */
  lemma InsertKeepsHeap<T(!new)>(s: seq<T>, cmp: (T, T) -> int, v: T)
    requires ComparatorOk(cmp) && IsHeap(s, cmp)
    ensures IsHeap(SiftUp(s + [v], cmp, |s|), cmp)
  {
    var t := s + [v];
    assert forall j :: 0 < j < |t| && j != |s| ==> t[j] == s[j] && t[Parent(j)] == s[Parent(j)];
    SiftUpHeap(t, cmp, |s|);
  }

  /**
   * The TypeScript removal keeps heap order when the moved leaf is not before the
   * parent of the vacated position (or there is no such parent, or the removed element
   * is the last leaf).
   */
  lemma RemoveKeepsHeap<T(!new)>(s: seq<T>, cmp: (T, T) -> int, i: nat)
    requires ComparatorOk(cmp) && IsHeap(s, cmp) && i < |s|
    requires i == 0 || i == |s| - 1 || Le(cmp, s[Parent(i)], s[|s| - 1])
    ensures IsHeap(SiftDown(Spliced(s, i), cmp, i), cmp)
  {
    var t := Spliced(s, i);
    if i == |s| - 1 {
      assert t == s[..i];
      DownDone(t, cmp, i);
    } else {
      SplicedDownInv(s, cmp, i);
      SiftDownHeap(t, cmp, i);
    }
  }

  /** Moving the last leaf into position i leaves heap order broken at most below i. */
  lemma SplicedDownInv<T(!new)>(s: seq<T>, cmp: (T, T) -> int, i: nat)
    requires ComparatorOk(cmp) && IsHeap(s, cmp) && i < |s| - 1
    requires i == 0 || Le(cmp, s[Parent(i)], s[|s| - 1])
    ensures DownInv(Spliced(s, i), cmp, i)
  {
    var t := Spliced(s, i);
    var last := s[|s| - 1];
    assert forall j :: 0 <= j < |t| ==> t[j] == if j == i then last else s[j];
    forall j | 0 < j < |t| && Parent(j) != i
      ensures Le(cmp, t[Parent(j)], t[j])
    {
      if j != i {
        assert t[j] == s[j] && t[Parent(j)] == s[Parent(j)];
      }
    }
    forall j | 0 < j < |t| && Parent(j) == i && i > 0
      ensures Le(cmp, t[Parent(i)], t[j])
    {
      assert t[j] == s[j] && t[Parent(i)] == s[Parent(i)];
      LeTrans(cmp, s[Parent(i)], s[i], s[j]);
    }
  }


  /** The TypeScript removal as written: the moved leaf is only ever sifted down. */
  function RemovedAt<T>(s: seq<T>, cmp: (T, T) -> int, i: nat): (r: seq<T>)
    requires i < |s|
    ensures |r| == |s| - 1
  {
    SiftDown(Spliced(s, i), cmp, i)
  }

  function IntOrder(x: int, y: int): int {
    x - y
  }

  /**
   * Removing a leaf that is not the last one can break heap order: in the heap
   * [0, 5, 1, 6, 7, 2] removing position 3 moves 2 under 5 and `down` leaves it there.
   */
  lemma RemovedAtCanBreakHeap()
    ensures IsHeap([0, 5, 1, 6, 7, 2], IntOrder)
    ensures RemovedAt([0, 5, 1, 6, 7, 2], IntOrder, 3) == [0, 5, 1, 2, 7]
    ensures !IsHeap(RemovedAt([0, 5, 1, 6, 7, 2], IntOrder, 3), IntOrder)
  {
    var s := [0, 5, 1, 6, 7, 2];
    assert Spliced(s, 3) == [0, 5, 1, 2, 7];
    var r := [0, 5, 1, 2, 7];
    assert Parent(3) == 1 && !Le(IntOrder, r[1], r[3]);
  }

  /**
   * The removal the heap needs: the moved leaf goes up when it is strictly before the
   * parent of its new position, and down otherwise.
   */
  function RemovedAtRestoring<T>(s: seq<T>, cmp: (T, T) -> int, i: nat): (r: seq<T>)
    requires i < |s|
    ensures |r| == |s| - 1
  {
    var t := Spliced(s, i);
    if 0 < i < |t| && cmp(t[i], t[Parent(i)]) < 0 then SiftUp(t, cmp, i) else SiftDown(t, cmp, i)
  }

  /** The restoring removal keeps heap order for every position. */
  lemma RemovedAtRestoringKeepsHeap<T(!new)>(s: seq<T>, cmp: (T, T) -> int, i: nat)
    requires ComparatorOk(cmp) && IsHeap(s, cmp) && i < |s|
    ensures IsHeap(RemovedAtRestoring(s, cmp, i), cmp)
    ensures multiset(RemovedAtRestoring(s, cmp, i)) == multiset(s) - multiset{s[i]}
  {
    var t := Spliced(s, i);
    SplicedPerm(s, i);
    if 0 < i < |t| && cmp(t[i], t[Parent(i)]) < 0 {
      var last := s[|s| - 1];
      assert t[i] == last && t[Parent(i)] == s[Parent(i)];
      forall j | 0 < j < |t| && j != i
        ensures Le(cmp, t[Parent(j)], t[j])
      {
        if Parent(j) == i {
          LeTrans(cmp, s[Parent(i)], s[i], s[j]);
          LeTrans(cmp, last, s[Parent(i)], s[j]);
        }
      }
      forall j | 0 < j < |t| && Parent(j) == i && i > 0
        ensures Le(cmp, t[Parent(i)], t[j])
      {
        LeTrans(cmp, s[Parent(i)], s[i], s[j]);
      }
      SiftUpHeap(t, cmp, i);
      SiftUpPerm(t, cmp, i);
    } else {
      if 0 < i < |t| {
        LeFlip(cmp, t[i], t[Parent(i)]);
      }
      RemoveKeepsHeap(s, cmp, i);
      SiftDownPerm(t, cmp, i);
    }
  }

  /** Kept looks at the first element, then at the rest. */
  lemma KeptCons<T>(x: T, rest: seq<T>, f: T -> bool)
    ensures Kept([x] + rest, f) == (if f(x) then [x] else []) + Kept(rest, f)
  {
    assert ([x] + rest)[1..] == rest;
  }

  // ---------------------------------------------------------------------------
  // The heap object

  class Heap<T(==, !new)> {
    /** The complete binary tree, level by level. */
    var items: seq<T>
    const cmp: (T, T) -> int

    constructor (cmp: (T, T) -> int)
      ensures items == [] && this.cmp == cmp
    {
      this.cmp := cmp;
      items := [];
    }

    /** `empty`. */
    function Empty(): (r: bool)
      reads this
      ensures r <==> Get().None?
    {
      |items| == 0
    }

    /** `get`: the root, or nothing (`undefined` in TypeScript) for an empty heap; the root is a minimum. */
    function Get(): (r: Option<T>)
      reads this
      ensures r.Some? <==> |items| > 0
      ensures r.Some? ==> r.value == items[0]
      ensures r.Some? && ComparatorOk(cmp) && IsHeap(items, cmp) ==>
                forall j :: 0 <= j < |items| ==> Le(cmp, r.value, items[j])
    {
      if |items| == 0 then None
      else
        var r := Some(items[0]);
        RootIsMinAll(items, cmp);
        r
    }

    /** `insert`: push, then `up` from the new last position. */
    method Insert(value: T)
      modifies this
      ensures items == SiftUp(old(items) + [value], cmp, |old(items)|)
      ensures multiset(items) == multiset(old(items)) + multiset{value}
      ensures ComparatorOk(cmp) && IsHeap(old(items), cmp) ==> IsHeap(items, cmp)
    {
      items := items + [value];
      Up(|items| - 1);
      SiftUpPerm(old(items) + [value], cmp, |old(items)|);
      if ComparatorOk(cmp) && IsHeap(old(items), cmp) {
        InsertKeepsHeap(old(items), cmp, value);
      }
    }

    /** `remove`: `removeByIndex(indexOf(value))`, so nothing happens when the value is absent. */
    method Remove(value: T)
      modifies this
      ensures value !in old(items) ==> items == old(items)
      ensures value in old(items) ==> items == RemovedAt(old(items), cmp, IndexOf(old(items), value))
      ensures multiset(items) == multiset(old(items)) - multiset{value}
    {
      RemoveByIndex(IndexOf(items, value));
    }

    /**
     * `removeByIndex`: an index outside [0, length) changes nothing; otherwise the last leaf
     * takes the place of the removed element and goes down. Heap order survives under the
     * condition of RemoveKeepsHeap only.
     */
    method RemoveByIndex(index: int)
      modifies this
      ensures !(0 <= index < |old(items)|) ==> items == old(items)
      ensures 0 <= index < |old(items)| ==> items == RemovedAt(old(items), cmp, index)
      ensures 0 <= index < |old(items)| ==> multiset(items) == multiset(old(items)) - multiset{old(items)[index]}
      ensures 0 <= index < |old(items)| && ComparatorOk(cmp) && IsHeap(old(items), cmp)
              && (index == 0 || index == |old(items)| - 1 || Le(cmp, old(items)[Parent(index)], old(items)[|old(items)| - 1]))
              ==> IsHeap(items, cmp)
    {
      var len := |items| - 1;
      if index < 0 || index > len {
        return;
      }
      ghost var s := items;
      items := items[index := items[len]];
      items := items[..len];
      assert items == Spliced(s, index);
      Down(index);
      assert items == RemovedAt(s, cmp, index);
      RemovedAtPerm(s, cmp, index);
      if ComparatorOk(cmp) && IsHeap(s, cmp) && (index == 0 || index == len || Le(cmp, s[Parent(index)], s[len])) {
        RemoveKeepsHeap(s, cmp, index);
      }
    }

    /** The removal heap order needs, in place of `removeByIndex`: the moved leaf goes up or down. */
    method RemoveByIndexRestoring(index: int)
      modifies this
      ensures !(0 <= index < |old(items)|) ==> items == old(items)
      ensures 0 <= index < |old(items)| ==> items == RemovedAtRestoring(old(items), cmp, index)
      ensures 0 <= index < |old(items)| && ComparatorOk(cmp) && IsHeap(old(items), cmp) ==> IsHeap(items, cmp)
    {
      var len := |items| - 1;
      if index < 0 || index > len {
        return;
      }
      ghost var s := items;
      items := items[index := items[len]];
      items := items[..len];
      ghost var t := Spliced(s, index);
      assert items == t;
      if 0 < index < len && cmp(items[index], items[Parent(index)]) < 0 {
        Up(index);
        assert items == SiftUp(t, cmp, index);
      } else {
        Down(index);
        assert items == SiftDown(t, cmp, index);
      }
      assert items == RemovedAtRestoring(s, cmp, index);
      if ComparatorOk(cmp) && IsHeap(s, cmp) {
        RemovedAtRestoringKeepsHeap(s, cmp, index);
      }
    }

    /**
     * `filter`: from the last position to the first, every element `f` rejects is removed
     * with `removeByIndex`. Exactly the kept elements remain.
     */
    method Filter(f: T -> bool)
      modifies this
      ensures multiset(items) == multiset(Kept(old(items), f))
      ensures forall x :: x in items ==> f(x)
    {
      var i := |items| - 1;
      while i >= 0
        invariant FilterInv(old(items), items, f, i)
        decreases i
      {
        FilterKeeps(old(items), items, cmp, f, i);
        if !f(items[i]) {
          RemoveByIndex(i);
        }
        i := i - 1;
      }
      FilterDone(old(items), items, f);
    }

    /** `pop`: the root, or nothing for an empty heap (where the TypeScript array ends up empty again). */
    method Pop() returns (r: Option<T>)
      modifies this
      ensures |old(items)| == 0 ==> r == None && items == []
      ensures |old(items)| > 0 ==> r == Some(old(items)[0]) && items == RemovedAt(old(items), cmp, 0)
      ensures |old(items)| > 0 ==> multiset(items) == multiset(old(items)) - multiset{old(items)[0]}
      ensures |old(items)| > 0 && ComparatorOk(cmp) && IsHeap(old(items), cmp) ==>
                IsHeap(items, cmp) && forall j :: 0 <= j < |old(items)| ==> Le(cmp, r.value, old(items)[j])
    {
      if |items| == 0 {
        return None;
      }
      ghost var s := items;
      r := Some(items[0]);
      var len := |items| - 1;
      items := items[0 := items[len]];
      items := items[..len];
      Down(0);
      RemovedAtPerm(s, cmp, 0);
      if ComparatorOk(cmp) && IsHeap(s, cmp) {
        RemoveKeepsHeap(s, cmp, 0);
        RootIsMinAll(s, cmp);
      }
    }

    /** `clear`. */
    method Clear()
      modifies this
      ensures items == [] && Empty()
    {
      items := [];
    }

    /** `down`: the hole-based loop; the result is the swap-based sift. */
    method Down(index: nat)
      modifies this
      ensures items == SiftDown(old(items), cmp, index)
    {
      if |items| <= index {
        return;
      }
      var element := items[index];
      var curr := index;
      var left := curr * 2 + 1;
      var right := left + 1;
      assert items[curr := element] == items;
      while left < |items|
        invariant |items| == |old(items)| && curr < |items|
        invariant left == 2 * curr + 1 && right == left + 1
        invariant SiftDown(items[curr := element], cmp, curr) == SiftDown(old(items), cmp, index)
        decreases |items| - curr
      {
        ghost var t := items[curr := element];
        var child := left;
        if right < |items| && cmp(items[right], items[left]) < 0 {
          child := right;
        }
        assert child == MinChild(t, cmp, curr);
        if cmp(element, items[child]) <= 0 {
          break;
        }
        items := items[curr := items[child]];
        assert items[child := element] == Swap(t, curr, child);
        curr := child;
        left := curr * 2 + 1;
        right := left + 1;
      }
      items := items[curr := element];
    }

    /** `up`: the hole-based loop; the result is the swap-based sift. */
    method Up(index: nat)
      modifies this
      ensures items == SiftUp(old(items), cmp, index)
    {
      if |items| <= index {
        return;
      }
      var element := items[index];
      var curr := index;
      var parent := (curr - 1) / 2;
      assert items[curr := element] == items;
      while parent >= 0 && cmp(element, items[parent]) < 0
        invariant |items| == |old(items)| && curr < |items|
        invariant parent == (curr - 1) / 2
        invariant SiftUp(items[curr := element], cmp, curr) == SiftUp(old(items), cmp, index)
        decreases curr
      {
        ghost var t := items[curr := element];
        items := items[curr := items[parent]];
        assert items[parent := element] == Swap(t, curr, parent);
        curr := parent;
        parent := (curr - 1) / 2;
      }
      items := items[curr := element];
    }
  }

  /** Every element is not before the root of a heap. */
  lemma RootIsMinAll<T(!new)>(s: seq<T>, cmp: (T, T) -> int)
    requires |s| > 0
    ensures ComparatorOk(cmp) && IsHeap(s, cmp) ==> forall j :: 0 <= j < |s| ==> Le(cmp, s[0], s[j])
  {
    if ComparatorOk(cmp) && IsHeap(s, cmp) {
      forall j | 0 <= j < |s|
        ensures Le(cmp, s[0], s[j])
      {
        RootIsMin(s, cmp, j);
      }
    }
  }

  /**
   * The state of `filter` with positions i+1 and above done: s agrees with the original o
   * up to i, and from i+1 on holds exactly the elements of o[i+1..] that `f` keeps.
   */
  ghost predicate FilterInv<T>(o: seq<T>, s: seq<T>, f: T -> bool, i: int) {
    && -1 <= i < |o| && i + 1 <= |s|
    && s[..i + 1] == o[..i + 1]
    && multiset(s[i + 1..]) == multiset(Kept(o[i + 1..], f))
    && (forall x :: x in s[i + 1..] ==> f(x))
  }

  /** With every position done, s holds exactly what f keeps of o. */
  lemma FilterDone<T>(o: seq<T>, s: seq<T>, f: T -> bool)
    requires FilterInv(o, s, f, -1)
    ensures multiset(s) == multiset(Kept(o, f))
    ensures forall x :: x in s ==> f(x)
  {
    assert s[0..] == s;
    assert o[0..] == o;
  }

  /** One iteration of `filter` moves its state from i to i - 1. */
  lemma FilterKeeps<T>(o: seq<T>, s: seq<T>, cmp: (T, T) -> int, f: T -> bool, i: nat)
    requires FilterInv(o, s, f, i)
    ensures FilterInv(o, if f(s[i]) then s else RemovedAt(s, cmp, i), f, i - 1)
  {
    PrefixShrinks(o, s, i);
    KeptFrom(o, f, i);
    if f(s[i]) {
      FilterKeepAt(o, s, f, i);
    } else {
      FilterDropAt(o, s, cmp, f, i);
    }
  }

  lemma PrefixShrinks<T>(o: seq<T>, s: seq<T>, i: nat)
    requires i < |o| && i < |s| && s[..i + 1] == o[..i + 1]
    ensures s[i] == o[i] && s[..i] == o[..i]
  {
    assert s[i] == s[..i + 1][i];
    assert o[i] == o[..i + 1][i];
    assert s[..i] == s[..i + 1][..i];
    assert o[..i] == o[..i + 1][..i];
  }

  lemma KeptFrom<T>(o: seq<T>, f: T -> bool, i: nat)
    requires i < |o|
    ensures Kept(o[i..], f) == (if f(o[i]) then [o[i]] else []) + Kept(o[i + 1..], f)
  {
    assert o[i..] == [o[i]] + o[i + 1..];
    KeptCons(o[i], o[i + 1..], f);
  }

  /** `filter` keeps position i: the done part grows by s[i]. */
  lemma FilterKeepAt<T>(o: seq<T>, s: seq<T>, f: T -> bool, i: nat)
    requires FilterInv(o, s, f, i) && f(s[i]) && s[i] == o[i] && s[..i] == o[..i]
    requires Kept(o[i..], f) == [o[i]] + Kept(o[i + 1..], f)
    ensures FilterInv(o, s, f, i - 1)
  {
    assert s[i..] == [s[i]] + s[i + 1..];
  }

  /** `filter` drops position i: removeByIndex leaves the prefix and the done elements. */
  lemma FilterDropAt<T>(o: seq<T>, s: seq<T>, cmp: (T, T) -> int, f: T -> bool, i: nat)
    requires FilterInv(o, s, f, i) && !f(s[i]) && s[..i] == o[..i]
    requires Kept(o[i..], f) == Kept(o[i + 1..], f)
    ensures FilterInv(o, RemovedAt(s, cmp, i), f, i - 1)
  {
    var r := RemovedAt(s, cmp, i);
    FilterStep(s, cmp, i);
    forall x | x in r[i..]
      ensures f(x)
    {
      assert x in multiset(r[i..]);
      assert x in multiset(s[i + 1..]);
    }
  }

  /** A step of `filter` that removes position i keeps the prefix and exchanges s[i] for nothing in the suffix. */
  lemma FilterStep<T>(s: seq<T>, cmp: (T, T) -> int, i: nat)
    requires i < |s|
    ensures RemovedAt(s, cmp, i)[..i] == s[..i]
    ensures multiset(RemovedAt(s, cmp, i)[i..]) == multiset(s[i + 1..])
  {
    SplicedSuffix(s, i);
    SiftDownFrame(Spliced(s, i), cmp, i);
  }

  /** From position i on, Spliced(s, i) holds s[i + 1..] with its last element moved to the front. */
  lemma SplicedSuffix<T>(s: seq<T>, i: nat)
    requires i < |s|
    ensures Spliced(s, i)[..i] == s[..i]
    ensures multiset(Spliced(s, i)[i..]) == multiset(s[i + 1..])
  {
    var n := |s| - 1;
    var t := Spliced(s, i);
    if i < n {
      assert t[i..] == [s[n]] + s[i + 1..n];
      assert s[i + 1..] == s[i + 1..n] + [s[n]];
    } else {
      assert s[i + 1..] == [];
      assert t[i..] == [];
    }
  }
}
