/**
  The merge sort behind every sorted vector: a recursive merge through a temporary buffer, and an
  indirect branch for large elements, which sorts pointers and then permutes the elements in place.
 */
module MergeSort {
  import opened Basics

  type Compare<!T> = (T, T) -> int

  ghost predicate TotalPreorder<T(!new)>(cmp: Compare<T>) {
    (forall x, y :: cmp(x, y) <= 0 || cmp(y, x) <= 0) &&
    forall x, y, z :: cmp(x, y) <= 0 && cmp(y, z) <= 0 ==> cmp(x, z) <= 0
  }

  ghost predicate Sorted<T>(cmp: Compare<T>, s: seq<T>) {
    forall i, j | 0 <= i < j < |s| :: cmp(s[i], s[j]) <= 0
  }

  predicate Equivalent<T>(cmp: Compare<T>, x: T, y: T) {
    cmp(x, y) <= 0 && cmp(y, x) <= 0
  }

  /** The elements equivalent to x, in order. */
  function Class<T>(cmp: Compare<T>, x: T, s: seq<T>): seq<T> {
    if s == [] then [] else (if Equivalent(cmp, x, s[0]) then [s[0]] else []) + Class(cmp, x, s[1..])
  }

  /** Equivalent elements keep their order. */
  ghost predicate Stable<T(!new)>(cmp: Compare<T>, before: seq<T>, after: seq<T>) {
    forall x :: Class(cmp, x, after) == Class(cmp, x, before)
  }

  // ---------------------------------------------------------------- the algorithm on values

  function Merge<T>(cmp: Compare<T>, a: seq<T>, b: seq<T>): (r: seq<T>)
    ensures |r| == |a| + |b|
  {
    if a == [] then b
    else if b == [] then a
    else if cmp(a[0], b[0]) <= 0 then [a[0]] + Merge(cmp, a[1..], b)
    else [b[0]] + Merge(cmp, a, b[1..])
  }

  function MSort<T>(cmp: Compare<T>, s: seq<T>): (r: seq<T>)
    ensures |r| == |s|
  {
    if |s| <= 1 then s
    else Merge(cmp, MSort(cmp, s[..|s| / 2]), MSort(cmp, s[|s| / 2..]))
  }

  lemma {:induction false} MergePermutes<T>(cmp: Compare<T>, a: seq<T>, b: seq<T>)
    ensures multiset(Merge(cmp, a, b)) == multiset(a) + multiset(b)
  {
    if a != [] && b != [] {
      assert a == [a[0]] + a[1..] && b == [b[0]] + b[1..];
      if cmp(a[0], b[0]) <= 0 {
        MergePermutes(cmp, a[1..], b);
      } else {
        MergePermutes(cmp, a, b[1..]);
      }
    }
  }

  lemma JoinHalves<T>(s: seq<T>, h: nat)
    requires h <= |s|
    ensures s == s[..h] + s[h..]
  {
  }

  lemma HalvesMultiset<T>(s: seq<T>, h: nat)
    requires h <= |s|
    ensures multiset(s) == multiset(s[..h]) + multiset(s[h..])
  {
    JoinHalves(s, h);
  }

  lemma {:induction false} Permutes<T>(cmp: Compare<T>, s: seq<T>)
    ensures multiset(MSort(cmp, s)) == multiset(s)
  {
    if |s| > 1 {
      var h := |s| / 2;
      Permutes(cmp, s[..h]);
      Permutes(cmp, s[h..]);
      MergePermutes(cmp, MSort(cmp, s[..h]), MSort(cmp, s[h..]));
      HalvesMultiset(s, h);
    }
  }

  /** x comes before everything in s. */
  ghost predicate Below<T>(cmp: Compare<T>, x: T, s: seq<T>) {
    forall i | 0 <= i < |s| :: cmp(x, s[i]) <= 0
  }

  lemma ConsSorted<T>(cmp: Compare<T>, x: T, s: seq<T>)
    requires Sorted(cmp, s) && Below(cmp, x, s)
    ensures Sorted(cmp, [x] + s)
  {
  }

  lemma TailSorted<T>(cmp: Compare<T>, s: seq<T>)
    requires Sorted(cmp, s) && s != []
    ensures Sorted(cmp, s[1..]) && Below(cmp, s[0], s[1..])
  {
  }

  lemma {:induction false} MergeBelow<T>(cmp: Compare<T>, x: T, a: seq<T>, b: seq<T>)
    requires Below(cmp, x, a) && Below(cmp, x, b)
    ensures Below(cmp, x, Merge(cmp, a, b))
  {
    if a != [] && b != [] {
      if cmp(a[0], b[0]) <= 0 {
        MergeBelow(cmp, x, a[1..], b);
      } else {
        MergeBelow(cmp, x, a, b[1..]);
      }
    }
  }

  lemma BelowAll<T(!new)>(cmp: Compare<T>, x: T, s: seq<T>)
    requires TotalPreorder(cmp) && Sorted(cmp, s) && s != [] && cmp(x, s[0]) <= 0
    ensures Below(cmp, x, s)
  {
  }

  lemma {:induction false} MergeSorts<T(!new)>(cmp: Compare<T>, a: seq<T>, b: seq<T>)
    requires TotalPreorder(cmp) && Sorted(cmp, a) && Sorted(cmp, b)
    ensures Sorted(cmp, Merge(cmp, a, b))
  {
    if a != [] && b != [] {
      TailSorted(cmp, a);
      TailSorted(cmp, b);
      if cmp(a[0], b[0]) <= 0 {
        BelowAll(cmp, a[0], b);
        MergeSorts(cmp, a[1..], b);
        MergeBelow(cmp, a[0], a[1..], b);
        ConsSorted(cmp, a[0], Merge(cmp, a[1..], b));
      } else {
        BelowAll(cmp, b[0], a);
        MergeSorts(cmp, a, b[1..]);
        MergeBelow(cmp, b[0], a, b[1..]);
        ConsSorted(cmp, b[0], Merge(cmp, a, b[1..]));
      }
    }
  }

  lemma {:induction false} Sorts<T(!new)>(cmp: Compare<T>, s: seq<T>)
    requires TotalPreorder(cmp)
    ensures Sorted(cmp, MSort(cmp, s))
  {
    if |s| > 1 {
      Sorts(cmp, s[..|s| / 2]);
      Sorts(cmp, s[|s| / 2..]);
      MergeSorts(cmp, MSort(cmp, s[..|s| / 2]), MSort(cmp, s[|s| / 2..]));
    }
  }

  // ---------------------------------------------------------------- stability

  lemma {:induction false} ClassConcat<T>(cmp: Compare<T>, x: T, a: seq<T>, b: seq<T>)
    ensures Class(cmp, x, a + b) == Class(cmp, x, a) + Class(cmp, x, b)
  {
    if a == [] {
      assert a + b == b;
    } else {
      ClassConcat(cmp, x, a[1..], b);
      assert (a + b)[1..] == a[1..] + b;
      SeqAssoc(if Equivalent(cmp, x, a[0]) then [a[0]] else [], Class(cmp, x, a[1..]), Class(cmp, x, b));
    }
  }

  lemma {:induction false} ClassEmpty<T>(cmp: Compare<T>, x: T, s: seq<T>)
    requires forall i | 0 <= i < |s| :: !Equivalent(cmp, x, s[i])
    ensures Class(cmp, x, s) == []
  {
    if s != [] {
      ClassEmpty(cmp, x, s[1..]);
    }
  }

  /** If b[0] overtakes a, nothing in a is equivalent to it. */
  lemma NoneEquivalent<T(!new)>(cmp: Compare<T>, x: T, a: seq<T>, y: T)
    requires TotalPreorder(cmp) && Sorted(cmp, a) && a != [] && cmp(a[0], y) > 0 && Equivalent(cmp, x, y)
    ensures Class(cmp, x, a) == []
  {
    forall i | 0 <= i < |a|
      ensures !Equivalent(cmp, x, a[i])
    {
      assert i == 0 || cmp(a[0], a[i]) <= 0;
      assert cmp(a[i], y) > 0;
    }
    ClassEmpty(cmp, x, a);
  }

  /** The element at the head of a list, if it belongs to the class. */
  function Own<T>(cmp: Compare<T>, x: T, y: T): seq<T> { if Equivalent(cmp, x, y) then [y] else [] }

  lemma ClassHead<T>(cmp: Compare<T>, x: T, s: seq<T>)
    requires s != []
    ensures Class(cmp, x, s) == Own(cmp, x, s[0]) + Class(cmp, x, s[1..])
  {
  }

  lemma {:induction false} MergeStable<T(!new)>(cmp: Compare<T>, x: T, a: seq<T>, b: seq<T>)
    requires TotalPreorder(cmp) && Sorted(cmp, a)
    ensures Class(cmp, x, Merge(cmp, a, b)) == Class(cmp, x, a) + Class(cmp, x, b)
  {
    if a != [] && b != [] {
      MergeUnfold(cmp, a, b);
      ClassHead(cmp, x, Merge(cmp, a, b));
      if cmp(a[0], b[0]) <= 0 {
        TailSorted(cmp, a);
        MergeStable(cmp, x, a[1..], b);
        ClassHead(cmp, x, a);
        SeqAssoc(Own(cmp, x, a[0]), Class(cmp, x, a[1..]), Class(cmp, x, b));
      } else {
        MergeStable(cmp, x, a, b[1..]);
        ClassHead(cmp, x, b);
        Overtakes(cmp, x, a, b[0], Class(cmp, x, b[1..]));
      }
    }
  }

  lemma Overtakes<T(!new)>(cmp: Compare<T>, x: T, a: seq<T>, y: T, rest: seq<T>)
    requires TotalPreorder(cmp) && Sorted(cmp, a) && a != [] && cmp(a[0], y) > 0
    ensures Own(cmp, x, y) + (Class(cmp, x, a) + rest) == Class(cmp, x, a) + (Own(cmp, x, y) + rest)
  {
    if Equivalent(cmp, x, y) {
      NoneEquivalent(cmp, x, a, y);
    }
  }

  lemma ClassHalves<T>(cmp: Compare<T>, x: T, s: seq<T>, h: nat)
    requires h <= |s|
    ensures Class(cmp, x, s) == Class(cmp, x, s[..h]) + Class(cmp, x, s[h..])
  {
    ClassConcat(cmp, x, s[..h], s[h..]);
    JoinHalves(s, h);
  }

  lemma {:induction false} SortKeepsClass<T(!new)>(cmp: Compare<T>, x: T, s: seq<T>)
    requires TotalPreorder(cmp)
    ensures Class(cmp, x, MSort(cmp, s)) == Class(cmp, x, s)
  {
    if |s| > 1 {
      var a, b := s[..|s| / 2], s[|s| / 2..];
      SortKeepsClass(cmp, x, a);
      SortKeepsClass(cmp, x, b);
      Sorts(cmp, a);
      MergeStable(cmp, x, MSort(cmp, a), MSort(cmp, b));
      ClassHalves(cmp, x, s, |s| / 2);
    }
  }

  lemma SortIsStable<T(!new)>(cmp: Compare<T>, s: seq<T>)
    requires TotalPreorder(cmp)
    ensures Stable(cmp, s, MSort(cmp, s))
  {
    forall x
      ensures Class(cmp, x, MSort(cmp, s)) == Class(cmp, x, s)
    {
      SortKeepsClass(cmp, x, s);
    }
  }

  // ---------------------------------------------------------------- there is only one such result

  lemma {:induction false} ClassMember<T>(cmp: Compare<T>, x: T, s: seq<T>)
    requires Class(cmp, x, s) != []
    ensures exists i :: 0 <= i < |s| && Equivalent(cmp, x, s[i])
  {
    if !Equivalent(cmp, x, s[0]) {
      ClassMember(cmp, x, s[1..]);
      var i :| 0 <= i < |s[1..]| && Equivalent(cmp, x, s[1..][i]);
      assert Equivalent(cmp, x, s[i + 1]);
    }
  }

  /** The head of one is not after any head of the other. */
  lemma HeadBefore<T(!new)>(cmp: Compare<T>, a: seq<T>, b: seq<T>)
    requires TotalPreorder(cmp) && Sorted(cmp, a) && a != [] && b != []
    requires Class(cmp, b[0], a) == Class(cmp, b[0], b)
    ensures cmp(a[0], b[0]) <= 0
  {
    ClassMember(cmp, b[0], a);
    var i :| 0 <= i < |a| && Equivalent(cmp, b[0], a[i]);
    assert i == 0 || cmp(a[0], a[i]) <= 0;
  }

  lemma OwnClass<T(!new)>(cmp: Compare<T>, s: seq<T>)
    requires TotalPreorder(cmp) && s != []
    ensures Class(cmp, s[0], s) != []
  {
    assert Equivalent(cmp, s[0], s[0]);
  }

  lemma {:induction false} SortedStableUnique<T(!new)>(cmp: Compare<T>, a: seq<T>, b: seq<T>)
    requires TotalPreorder(cmp) && Sorted(cmp, a) && Sorted(cmp, b) && Stable(cmp, a, b)
    ensures a == b
  {
    if a == [] {
      if b != [] {
        OwnClass(cmp, b);
      }
    } else {
      assert Class(cmp, a[0], b) == Class(cmp, a[0], a);
      assert b != [];
      assert Class(cmp, b[0], b) == Class(cmp, b[0], a);
      HeadBefore(cmp, a, b);
      HeadBefore(cmp, b, a);
      assert a[0] == Class(cmp, a[0], a)[0] == b[0];
      TailSorted(cmp, a);
      TailSorted(cmp, b);
      forall x
        ensures Class(cmp, x, b[1..]) == Class(cmp, x, a[1..])
      {
        assert Class(cmp, x, b) == Class(cmp, x, a);
        SameTail(cmp, x, a, b);
      }
      SortedStableUnique(cmp, a[1..], b[1..]);
      assert a == [a[0]] + a[1..] && b == [b[0]] + b[1..];
    }
  }

  lemma SameTail<T>(cmp: Compare<T>, x: T, a: seq<T>, b: seq<T>)
    requires a != [] && b != [] && a[0] == b[0] && Class(cmp, x, a) == Class(cmp, x, b)
    ensures Class(cmp, x, b[1..]) == Class(cmp, x, a[1..])
  {
    var p, q := Class(cmp, x, a[1..]), Class(cmp, x, b[1..]);
    if Equivalent(cmp, x, a[0]) {
      assert ([a[0]] + p)[1..] == p && ([a[0]] + q)[1..] == q;
    } else {
      assert [] + p == p && [] + q == q;
    }
  }

  /** A sorted list that keeps the order of equivalent elements is the sort's result, and conversely. */
  lemma SortSpecification<T(!new)>(cmp: Compare<T>, s: seq<T>, r: seq<T>)
    requires TotalPreorder(cmp)
    ensures r == MSort(cmp, s) <==> Sorted(cmp, r) && Stable(cmp, s, r)
  {
    Sorts(cmp, s);
    SortIsStable(cmp, s);
    if Sorted(cmp, r) && Stable(cmp, s, r) {
      forall x
        ensures Class(cmp, x, r) == Class(cmp, x, MSort(cmp, s))
      {
        SortKeepsClass(cmp, x, s);
      }
      SortedStableUnique(cmp, MSort(cmp, s), r);
    }
  }

  // ---------------------------------------------------------------- merging through a buffer

  /** s with v written over it from lo on */
  ghost function Splice<T>(s: seq<T>, lo: nat, v: seq<T>): (r: seq<T>)
    requires lo + |v| <= |s|
    ensures |r| == |s|
  {
    s[..lo] + v + s[lo + |v|..]
  }

  /** memcpy of n elements */
  method Copy<T>(dst: array<T>, at: nat, src: array<T>, from: nat, n: nat)
    requires dst != src && at + n <= dst.Length && from + n <= src.Length
    modifies dst
    ensures dst[..] == Splice(old(dst[..]), at, src[..][from..from + n])
  {
    for i := 0 to n
      invariant forall k | 0 <= k < dst.Length ::
                  dst[k] == if at <= k < at + i then src[from + (k - at)] else old(dst[k])
    {
      dst[at + i] := src[from + i];
    }
  }

  /** `all` from i + j on is the merge of x from i on and y from j on. */
  ghost predicate Rest<T>(cmp: Compare<T>, all: seq<T>, x: seq<T>, i: nat, y: seq<T>, j: nat)
    decreases |x| - i + |y| - j
  {
    i <= |x| && j <= |y| && |all| == |x| + |y| &&
    if i == |x| then forall m | j <= m < |y| :: all[i + m] == y[m]
    else if j == |y| then forall m | i <= m < |x| :: all[j + m] == x[m]
    else if cmp(x[i], y[j]) <= 0 then all[i + j] == x[i] && Rest(cmp, all, x, i + 1, y, j)
    else all[i + j] == y[j] && Rest(cmp, all, x, i, y, j + 1)
  }

  lemma LastPart<T>(all: seq<T>, s: seq<T>, m: nat, k: nat)
    requires m <= |s| && k <= |all|
    ensures all[k..] == s[m..] <==> |all| - k == |s| - m && forall n | m <= n < |s| :: all[k - m + n] == s[n]
  {
    if |all| - k == |s| - m && forall n | m <= n < |s| :: all[k - m + n] == s[n] {
      assert forall n | 0 <= n < |s| - m :: all[k..][n] == all[k - m + (m + n)];
    }
    if all[k..] == s[m..] {
      assert |all| - k == |s| - m;
      assert forall n | m <= n < |s| :: all[k - m + n] == all[k..][n - m] == s[m..][n - m] == s[n];
    }
  }

  lemma DropOne<T>(s: seq<T>, i: nat)
    requires i < |s|
    ensures s[i..] != [] && s[i..][0] == s[i] && s[i..][1..] == s[i + 1..]
  {
  }

  lemma MergeUnfold<T>(cmp: Compare<T>, a: seq<T>, b: seq<T>)
    requires a != [] && b != []
    ensures var m := Merge(cmp, a, b);
            if cmp(a[0], b[0]) <= 0 then m[0] == a[0] && m[1..] == Merge(cmp, a[1..], b)
            else m[0] == b[0] && m[1..] == Merge(cmp, a, b[1..])
  {
  }

  /** From position k on `all` is the merge of what is left of x and y. */
  ghost predicate MergesTo<T>(cmp: Compare<T>, all: seq<T>, k: nat, x: seq<T>, i: nat, y: seq<T>, j: nat) {
    i <= |x| && j <= |y| && k == i + j && |all| == |x| + |y| && all[k..] == Merge(cmp, x[i..], y[j..])
  }

  lemma MergeRestStep<T>(cmp: Compare<T>, all: seq<T>, k: nat, x: seq<T>, i: nat, y: seq<T>, j: nat)
    requires MergesTo(cmp, all, k, x, i, y, j) && i < |x| && j < |y|
    ensures if cmp(x[i], y[j]) <= 0 then all[k] == x[i] && MergesTo(cmp, all, k + 1, x, i + 1, y, j)
            else all[k] == y[j] && MergesTo(cmp, all, k + 1, x, i, y, j + 1)
  {
    DropOne(all, k);
    DropOne(x, i);
    DropOne(y, j);
    MergeUnfold(cmp, x[i..], y[j..]);
  }

  lemma MergeRestBase<T>(cmp: Compare<T>, all: seq<T>, k: nat, x: seq<T>, i: nat, y: seq<T>, j: nat)
    requires MergesTo(cmp, all, k, x, i, y, j) && (i == |x| || j == |y|)
    ensures Rest(cmp, all, x, i, y, j)
  {
    if i == |x| {
      LastPart(all, y, j, k);
    } else {
      LastPart(all, x, i, k);
    }
  }

  lemma {:induction false} MergeRest<T>(cmp: Compare<T>, all: seq<T>, k: nat, x: seq<T>, i: nat, y: seq<T>, j: nat)
    requires MergesTo(cmp, all, k, x, i, y, j)
    ensures Rest(cmp, all, x, i, y, j)
    decreases |x| - i + |y| - j
  {
    if i < |x| && j < |y| {
      MergeRestStep(cmp, all, k, x, i, y, j);
      if cmp(x[i], y[j]) <= 0 {
        MergeRest(cmp, all, k + 1, x, i + 1, y, j);
      } else {
        MergeRest(cmp, all, k + 1, x, i, y, j + 1);
      }
    } else {
      MergeRestBase(cmp, all, k, x, i, y, j);
    }
  }

  lemma MergeBegin<T>(cmp: Compare<T>, x: seq<T>, y: seq<T>)
    ensures Rest(cmp, Merge(cmp, x, y), x, 0, y, 0)
  {
    assert x[0..] == x && y[0..] == y;
    MergeRest(cmp, Merge(cmp, x, y), 0, x, 0, y, 0);
  }

  lemma RestTail<T>(cmp: Compare<T>, all: seq<T>, x: seq<T>, i: nat, y: seq<T>, j: nat)
    requires Rest(cmp, all, x, i, y, j) && (i == |x| || j == |y|)
    ensures all[i + j..] == x[i..] + y[j..]
  {
    if i == |x| {
      LastPart(all, y, j, i + j);
      assert x[i..] == [];
    } else {
      LastPart(all, x, i, i + j);
      assert y[j..] == [];
    }
  }

  lemma PrefixOf<T>(tmp: array<T>, all: seq<T>, n: nat)
    requires n <= tmp.Length && n <= |all| && forall k | 0 <= k < n :: tmp[k] == all[k]
    ensures tmp[..n] == all[..n]
  {
  }

  lemma MergeEnd<T>(cmp: Compare<T>, all: seq<T>, x: seq<T>, i: nat, y: seq<T>, j: nat, tmp: array<T>)
    requires Rest(cmp, all, x, i, y, j) && (i == |x| || j == |y|)
    requires i + j <= tmp.Length && forall k | 0 <= k < i + j :: tmp[k] == all[k]
    ensures all == tmp[..i + j] + x[i..] + y[j..]
  {
    RestTail(cmp, all, x, i, y, j);
    PrefixOf(tmp, all, i + j);
    JoinThree(all, i + j, tmp[..i + j], x[i..], y[j..]);
  }

  lemma JoinThree<T>(s: seq<T>, n: nat, a: seq<T>, b: seq<T>, c: seq<T>)
    requires n <= |s| && s[..n] == a && s[n..] == b + c
    ensures s == a + b + c
  {
    JoinHalves(s, n);
    SeqAssoc(a, b, c);
  }

  /** The elements from lo on are those of s. */
  ghost predicate HasPart<T>(b: seq<T>, lo: nat, s: seq<T>) {
    lo + |s| <= |b| && forall k {:trigger s[k]} | 0 <= k < |s| :: b[lo + k] == s[k]
  }

  /** The part of b from lo on that is being sorted: halves x and y. */
  ghost predicate Holds<T>(b: array<T>, lo: nat, x: seq<T>, y: seq<T>)
    reads b
  {
    lo + |x| + |y| <= b.Length &&
    (forall k | 0 <= k < |x| :: b[lo + k] == x[k]) && forall k | 0 <= k < |y| :: b[lo + |x| + k] == y[k]
  }

  /** The merge loop: n1 and n2 elements are left of the two halves. */
  method MergeLoop<T>(cmp: Compare<T>, b: array<T>, lo: nat, h: nat, n: nat, tmp: array<T>,
                      ghost x: seq<T>, ghost y: seq<T>, ghost all: seq<T>)
      returns (n1: nat, n2: nat)
    requires Rest(cmp, all, x, 0, y, 0)
    requires |x| == h && |x| + |y| == n && Holds(b, lo, x, y) && n <= tmp.Length && b != tmp
    modifies tmp
    ensures n1 <= |x| && n2 <= |y| && (n1 == 0 || n2 == 0)
    ensures Rest(cmp, all, x, h - n1, y, |y| - n2)
    ensures forall k | 0 <= k < n - n1 - n2 :: tmp[k] == all[k]
  {
    n1, n2 := h, n - h;
    var b1, b2, t := lo, lo + h, 0;
    while n1 > 0 && n2 > 0
      invariant n1 <= h && n2 <= |y| && b1 == lo + (h - n1) && b2 == lo + h + (|y| - n2) && t == n - n1 - n2
      invariant Rest(cmp, all, x, h - n1, y, |y| - n2)
      invariant forall k | 0 <= k < t :: tmp[k] == all[k]
    {
      assert b[b1] == x[h - n1] && b[b2] == y[|y| - n2];
      if cmp(b[b1], b[b2]) <= 0 {
        tmp[t] := b[b1];
        b1 := b1 + 1;
        n1 := n1 - 1;
      } else {
        tmp[t] := b[b2];
        b2 := b2 + 1;
        n2 := n2 - 1;
      }
      t := t + 1;
    }
  }

  lemma SpliceTwice<T>(s: seq<T>, mid: seq<T>, lo: nat, x: seq<T>, y: seq<T>)
    requires lo + |x| + |y| <= |s| && mid == Splice(s, lo, x)
    ensures Splice(mid, lo + |x|, y) == Splice(s, lo, x + y)
  {
  }

  lemma SpliceHolds<T>(b: array<T>, s: seq<T>, lo: nat, x: seq<T>, y: seq<T>)
    requires lo + |x| + |y| <= |s| && b[..] == Splice(s, lo, x + y)
    ensures Holds(b, lo, x, y) && b[..][..lo] == s[..lo] && b[..][lo + |x| + |y|..] == s[lo + |x| + |y|..]
  {
    forall k | 0 <= k < |x|
      ensures b[lo + k] == x[k]
    {
      assert b[lo + k] == b[..][lo + k];
    }
    forall k | 0 <= k < |y|
      ensures b[lo + |x| + k] == y[k]
    {
      assert b[lo + |x| + k] == b[..][lo + |x| + k];
    }
  }

  lemma SpliceAll<T>(s: seq<T>, v: seq<T>)
    requires |s| == |v|
    ensures Splice(s, 0, v) == v
  {
  }

  lemma SpliceSelf<T>(s: seq<T>, lo: nat, part: seq<T>)
    requires HasPart(s, lo, part)
    ensures Splice(s, lo, part) == s
  {
  }

  lemma PartHalves<T>(b: seq<T>, lo: nat, s: seq<T>, h: nat)
    requires HasPart(b, lo, s) && h <= |s|
    ensures HasPart(b, lo, s[..h]) && HasPart(b, lo + h, s[h..])
  {
  }

  lemma PartAfter<T>(b: seq<T>, lo: nat, x: seq<T>, at: nat, s: seq<T>)
    requires lo + |x| <= at && HasPart(b, at, s)
    ensures HasPart(Splice(b, lo, x), at, s)
  {
  }

  /** Sorts the n elements `part` from lo on; everything else in the array is left alone. */
  method MsortWithTmp<T>(cmp: Compare<T>, b: array<T>, lo: nat, n: nat, tmp: array<T>, ghost part: seq<T>)
    requires |part| == n <= tmp.Length && b != tmp && HasPart(b[..], lo, part)
    modifies b, tmp
    ensures b[..] == Splice(old(b[..]), lo, MSort(cmp, part))
    decreases n
  {
    ghost var was := b[..];
    if n <= 1 {
      SpliceSelf(was, lo, part);
      return;
    }
    var h := n / 2;
    ghost var s, t := part[..h], part[h..];
    PartHalves(was, lo, part, h);
    SortHalves(cmp, b, lo, h, n, tmp, s, t);
    MergeBegin(cmp, MSort(cmp, s), MSort(cmp, t));
    MergeHalves(cmp, b, lo, h, n, tmp, was, MSort(cmp, s), MSort(cmp, t), MSort(cmp, part));
  }

  method SortHalves<T>(cmp: Compare<T>, b: array<T>, lo: nat, h: nat, n: nat, tmp: array<T>, ghost s: seq<T>,
                       ghost t: seq<T>)
    requires 0 < h < n <= tmp.Length && b != tmp && |s| == h && |t| == n - h
    requires HasPart(b[..], lo, s) && HasPart(b[..], lo + h, t)
    modifies b, tmp
    ensures b[..] == Splice(old(b[..]), lo, MSort(cmp, s) + MSort(cmp, t))
    decreases n, 0
  {
    ghost var was := b[..];
    MsortWithTmp(cmp, b, lo, h, tmp, s);
    PartAfter(was, lo, MSort(cmp, s), lo + h, t);
    SpliceTwice(was, b[..], lo, MSort(cmp, s), MSort(cmp, t));
    MsortWithTmp(cmp, b, lo + h, n - h, tmp, t);
  }

  method MergeHalves<T>(cmp: Compare<T>, b: array<T>, lo: nat, h: nat, n: nat, tmp: array<T>,
                        ghost was: seq<T>, ghost x: seq<T>, ghost y: seq<T>, ghost all: seq<T>)
    requires lo + n <= b.Length && n <= tmp.Length && b != tmp
    requires |x| == h && |x| + |y| == n && |was| == b.Length && b[..] == Splice(was, lo, x + y)
    requires |all| == n && Rest(cmp, all, x, 0, y, 0)
    modifies b, tmp
    ensures b[..] == Splice(was, lo, all)
  {
    SpliceHolds(b, was, lo, x, y);
    MergeParts(cmp, b, lo, h, n, tmp, x, y, all);
  }

  method MergeParts<T>(cmp: Compare<T>, b: array<T>, lo: nat, h: nat, n: nat, tmp: array<T>,
                       ghost x: seq<T>, ghost y: seq<T>, ghost all: seq<T>)
    requires |x| == h && |x| + |y| == n && Holds(b, lo, x, y) && n <= tmp.Length && b != tmp
    requires Rest(cmp, all, x, 0, y, 0)
    modifies b, tmp
    ensures |all| == n && b[..] == Splice(old(b[..]), lo, all)
  {
    ghost var both := b[..];
    var n1, n2 := MergeLoop(cmp, b, lo, h, n, tmp, x, y, all);
    ghost var front := MergeFront(cmp, all, x, y, n1, n2, n - n1 - n2, tmp);
    assert b[..] == both;
    MergeBack(b, lo, h, n, n1, n2, tmp, x, y, front, all);
  }

  lemma MergeFront<T>(cmp: Compare<T>, all: seq<T>, x: seq<T>, y: seq<T>, n1: nat, n2: nat, t: nat, tmp: array<T>)
      returns (front: seq<T>)
    requires n1 <= |x| && n2 <= |y| && (n1 == 0 || n2 == 0) && t == |x| - n1 + (|y| - n2) <= tmp.Length
    requires Rest(cmp, all, x, |x| - n1, y, |y| - n2) && forall k | 0 <= k < t :: tmp[k] == all[k]
    ensures front == tmp[..t] + x[|x| - n1..] && all == front + y[|y| - n2..]
  {
    MergeEnd(cmp, all, x, |x| - n1, y, |y| - n2, tmp);
    front := tmp[..t] + x[|x| - n1..];
  }

  /** The two final copies; what is left of the second half is already in place. */
  method MergeBack<T>(b: array<T>, lo: nat, h: nat, n: nat, n1: nat, n2: nat, tmp: array<T>,
                      ghost x: seq<T>, ghost y: seq<T>, ghost front: seq<T>, ghost all: seq<T>)
    requires |x| == h && |x| + |y| == n && Holds(b, lo, x, y) && n <= tmp.Length && b != tmp
    requires n1 <= h && n2 <= n - h && (n1 == 0 || n2 == 0)
    requires front == tmp[..n - n1 - n2] + x[h - n1..] && all == front + y[|y| - n2..]
    modifies b, tmp
    ensures |all| == n && b[..] == Splice(old(b[..]), lo, all)
  {
    ghost var was, rest := b[..], y[|y| - n2..];
    EndsWithRest(b, lo, n, n2, x, y);
    CopyLeft(b, lo, h, n, n1, n2, tmp, x, y, front);
    assert b[..] == was;
    CopyFront(b, lo, n, n2, tmp, front, rest, all);
  }

  method CopyFront<T>(b: array<T>, lo: nat, n: nat, n2: nat, tmp: array<T>, ghost front: seq<T>, ghost rest: seq<T>,
                      ghost all: seq<T>)
    requires b != tmp && n2 <= n <= tmp.Length && lo + n <= b.Length && |rest| == n2
    requires tmp[..][0..n - n2] == front && b[..][lo + (n - n2)..lo + n] == rest && all == front + rest
    modifies b
    ensures |all| == n && b[..] == Splice(old(b[..]), lo, all)
  {
    InPlace(b[..], lo, n, n2, front, rest, all);
    Copy(b, lo, tmp, 0, n - n2);
  }

  lemma EndsWithRest<T>(b: array<T>, lo: nat, n: nat, n2: nat, x: seq<T>, y: seq<T>)
    requires |x| + |y| == n && n2 <= |y| && Holds(b, lo, x, y)
    ensures b[..][lo + (n - n2)..lo + n] == y[|y| - n2..]
  {
  }

  /** Writing only the front is enough where the rest is in place. */
  lemma InPlace<T>(was: seq<T>, lo: nat, n: nat, n2: nat, front: seq<T>, rest: seq<T>, all: seq<T>)
    requires n2 <= n && lo + n <= |was| && |front| == n - n2 && |rest| == n2 && all == front + rest
    requires was[lo + (n - n2)..lo + n] == rest
    ensures Splice(was, lo, front) == Splice(was, lo, all)
  {
    assert was[lo + |front|..] == rest + was[lo + n..];
    SeqAssoc(was[..lo], front, rest);
    SeqAssoc(was[..lo] + front, rest, was[lo + n..]);
  }

  /** What is left of the first half goes to the buffer. */
  method CopyLeft<T>(b: array<T>, lo: nat, h: nat, n: nat, n1: nat, n2: nat, tmp: array<T>,
                     ghost x: seq<T>, ghost y: seq<T>, ghost front: seq<T>)
    requires |x| == h && |x| + |y| == n && Holds(b, lo, x, y) && n <= tmp.Length && b != tmp
    requires n1 <= h && n2 <= n - h && (n1 == 0 || n2 == 0)
    requires front == tmp[..n - n1 - n2] + x[h - n1..]
    modifies tmp
    ensures tmp[..][0..n - n2] == front
  {
    if n1 > 0 {
      assert b[..][lo + h - n1..lo + h] == x[h - n1..];
      Copy(tmp, n - n1 - n2, b, lo + h - n1, n1);
    } else {
      assert x[h - n1..] == [];
    }
  }

  // ---------------------------------------------------------------- the indirect branch

  function Iota(n: nat): (r: seq<nat>)
    ensures |r| == n && forall i | 0 <= i < n :: r[i] == i
  {
    seq(n, i => i)
  }

  ghost predicate InRange(p: seq<nat>, n: nat) { forall i | 0 <= i < |p| :: p[i] < n }

  function Gather<T>(s: seq<T>, p: seq<nat>): (r: seq<T>)
    requires InRange(p, |s|)
    ensures |r| == |p| && forall i | 0 <= i < |p| :: r[i] == s[p[i]]
  {
    seq(|p|, i requires 0 <= i < |p| => s[p[i]])
  }

  /** Comparing the elements that two pointers point to. */
  function ByElement<T>(cmp: Compare<T>, s: seq<T>): Compare<nat> {
    (x: nat, y: nat) => if x < |s| && y < |s| then cmp(s[x], s[y]) else 0
  }

  /** c compares pointers as cmp compares what they point to. */
  ghost predicate Induced<T>(c: Compare<nat>, cmp: Compare<T>, s: seq<T>) {
    forall x: nat, y: nat {:trigger c(x, y)} | x < |s| && y < |s| :: c(x, y) == cmp(s[x], s[y])
  }

  lemma GatherCons<T>(s: seq<T>, x: nat, p: seq<nat>)
    requires x < |s| && InRange(p, |s|)
    ensures InRange([x] + p, |s|) && Gather(s, [x] + p) == [s[x]] + Gather(s, p)
  {
  }

  lemma {:induction false} GatherMerge<T>(c: Compare<nat>, cmp: Compare<T>, s: seq<T>, a: seq<nat>, b: seq<nat>)
    requires Induced(c, cmp, s) && InRange(a, |s|) && InRange(b, |s|)
    ensures InRange(Merge(c, a, b), |s|)
    ensures Gather(s, Merge(c, a, b)) == Merge(cmp, Gather(s, a), Gather(s, b))
  {
    if a != [] && b != [] {
      GatherHalves(s, a, 1);
      GatherHalves(s, b, 1);
      if c(a[0], b[0]) <= 0 {
        GatherMerge(c, cmp, s, a[1..], b);
        GatherCons(s, a[0], Merge(c, a[1..], b));
      } else {
        GatherMerge(c, cmp, s, a, b[1..]);
        GatherCons(s, b[0], Merge(c, a, b[1..]));
      }
    }
  }

  lemma GatherHalves<T>(s: seq<T>, p: seq<nat>, h: nat)
    requires InRange(p, |s|) && h <= |p|
    ensures Gather(s, p)[..h] == Gather(s, p[..h]) && Gather(s, p)[h..] == Gather(s, p[h..])
  {
  }

  /** Sorting pointers and sorting what they point to is the same. */
  lemma {:induction false} GatherSort<T>(c: Compare<nat>, cmp: Compare<T>, s: seq<T>, p: seq<nat>)
    requires Induced(c, cmp, s) && InRange(p, |s|)
    ensures InRange(MSort(c, p), |s|) && Gather(s, MSort(c, p)) == MSort(cmp, Gather(s, p))
  {
    if |p| > 1 {
      var h := |p| / 2;
      GatherSort(c, cmp, s, p[..h]);
      GatherSort(c, cmp, s, p[h..]);
      GatherMerge(c, cmp, s, MSort(c, p[..h]), MSort(c, p[h..]));
      GatherHalves(s, p, h);
    }
  }

  ghost predicate Injective(p: seq<nat>) { forall i, j | 0 <= i < j < |p| :: p[i] != p[j] }

  lemma OccursTwice<T>(s: seq<T>, i: nat, j: nat)
    requires i < j < |s| && s[i] == s[j]
    ensures multiset(s)[s[i]] >= 2
  {
    assert s == s[..j] + [s[j]] + s[j + 1..];
    assert s[i] in multiset(s[..j]) by {
      assert s[..j][i] == s[i];
    }
  }

  lemma {:induction false} IotaOnce(n: nat, x: nat)
    ensures multiset(Iota(n))[x] <= 1 && (x in multiset(Iota(n)) <==> x < n)
  {
    if n == 0 {
      assert Iota(0) == [];
    } else {
      IotaOnce(n - 1, x);
      assert Iota(n) == Iota(n - 1) + [n - 1];
    }
  }

  lemma PermutationOfIota(p: seq<nat>, n: nat)
    requires multiset(p) == multiset(Iota(n))
    ensures |p| == n && Injective(p) && InRange(p, n)
  {
    assert |p| == |multiset(p)| == |multiset(Iota(n))| == n;
    forall i | 0 <= i < |p|
      ensures p[i] < n
    {
      assert p[i] in multiset(p);
      IotaOnce(n, p[i]);
    }
    forall i, j | 0 <= i < j < |p|
      ensures p[i] != p[j]
    {
      if p[i] == p[j] {
        OccursTwice(p, i, j);
        IotaOnce(n, p[i]);
      }
    }
  }

  /**
    The state while cycles are followed: `todo` are the positions not yet filled, with original
    element and pointer; all others hold what their pointer said and point to themselves.
   */
  ghost predicate Following<T>(a: seq<T>, tp: seq<nat>, was: seq<T>, p: seq<nat>, todo: set<nat>) {
    |a| == |tp| == |was| == |p| && InRange(p, |p|) &&
    (forall m | m in todo :: m < |p| && tp[m] == p[m] && p[m] != m && a[m] == was[m]) &&
    forall m | 0 <= m < |p| && m !in todo :: tp[m] == m && a[m] == was[p[m]]
  }

  /** Pointers of open positions lead to open positions, but for the given one. */
  ghost predicate Closed(p: seq<nat>, todo: set<nat>, but: nat) {
    forall m | m in todo && m < |p| :: p[m] in todo || p[m] == but
  }

  /** Filling position j with what its pointer says leaves the rest as it was. */
  lemma Fill<T>(a: seq<T>, tp: seq<nat>, was: seq<T>, p: seq<nat>, todo: set<nat>, j: nat, v: T)
    requires Following(a, tp, was, p, todo) && j in todo && v == was[p[j]]
    ensures Following(a[j := v], tp[j := j], was, p, todo - {j})
  {
  }

  /** No open position but j leads to the one after j. */
  lemma Leave(p: seq<nat>, todo: set<nat>, i: nat, j: nat)
    requires InRange(p, |p|) && Injective(p) && Closed(p, todo, i) && j in todo
    requires forall m | m in todo :: m < |p| && (j != i ==> p[m] != j)
    ensures Closed(p, todo - {j}, i) && forall m | m in todo - {j} :: p[m] != p[j]
  {
    forall m | m in todo - {j}
      ensures p[m] != p[j]
    {
      assert if m < j then p[m] != p[j] else p[j] != p[m];
    }
  }

  /** Position j gets what its pointer says and points to itself from now on. */
  method PutAt<T>(a: array<T>, tp: array<nat>, j: nat, v: T, ghost was: seq<T>, ghost p: seq<nat>, ghost left: set<nat>)
    requires a as object != tp as object
    requires Following(a[..], tp[..], was, p, left) && j in left && v == was[p[j]]
    modifies a, tp
    ensures Following(a[..], tp[..], was, p, left - {j})
  {
    Fill(a[..], tp[..], was, p, left, j, v);
    tp[j] := j;
    a[j] := v;
  }

  /** The inner loop: one cycle, starting at i. */
  method FollowCycle<T>(a: array<T>, tp: array<nat>, i: nat, ghost was: seq<T>, ghost p: seq<nat>, ghost todo: set<nat>)
      returns (ghost left: set<nat>)
    requires a as object != tp as object
    requires Following(a[..], tp[..], was, p, todo) && Injective(p) && i in todo && Closed(p, todo, i)
    modifies a, tp
    ensures Following(a[..], tp[..], was, p, left) && left <= todo && i !in left && Open(p, left, 0)
  {
    var kp := tp[i];
    var j := i;
    var saved := a[i];
    left := todo;
    while true
      invariant Following(a[..], tp[..], was, p, left) && left <= todo
      invariant j in left && j < a.Length && kp == p[j] && kp != i && kp < a.Length && (j == i || i !in left)
      invariant Closed(p, left, i)
      invariant j != i ==> forall m | m in left :: p[m] != j
      decreases |left|
    {
      assert p[j] in left;
      Leave(p, left, i, j);
      var k := kp;
      PutAt(a, tp, j, a[kp], was, p, left);
      left := left - {j};
      j := k;
      kp := tp[k];
      if kp == i {
        break;
      }
    }
    Leave(p, left, i, j);
    PutAt(a, tp, j, saved, was, p, left);
    left := left - {j};
  }

  /** All positions before i are filled. */
  ghost predicate Open(p: seq<nat>, todo: set<nat>, i: nat) {
    forall m | m in todo :: i <= m < |p| && p[m] in todo
  }

  lemma OpenNext(p: seq<nat>, todo: set<nat>, left: set<nat>, i: nat)
    requires Open(p, todo, i) && left <= todo && i !in left && Open(p, left, 0)
    ensures Open(p, left, i + 1)
  {
  }

  /** At first the misplaced positions are open: a pointer to a position in place is that position's own. */
  lemma Misplaced<T>(was: seq<T>, p: seq<nat>) returns (todo: set<nat>)
    requires |was| == |p| && InRange(p, |p|) && Injective(p)
    ensures Following(was, p, was, p, todo) && Open(p, todo, 0)
  {
    todo := set m: nat | m < |p| && p[m] != m;
    forall m | m in todo
      ensures p[m] in todo
    {
      var k := p[m];
      assert k < m || m < k;
    }
  }

  /** The outer loop: every element ends where its pointer in tp says. */
  method ApplyPointers<T>(a: array<T>, tp: array<nat>)
    requires a as object != tp as object && tp.Length == a.Length && InRange(tp[..], a.Length) && Injective(tp[..])
    modifies a, tp
    ensures a[..] == Gather(old(a[..]), old(tp[..]))
  {
    ghost var was, p := a[..], tp[..];
    ghost var todo := Misplaced(was, p);
    for i := 0 to a.Length
      invariant Following(a[..], tp[..], was, p, todo)
      invariant Open(p, todo, i)
    {
      if tp[i] == i {
        OpenNext(p, todo, todo, i);
      } else {
        assert i in todo && Closed(p, todo, i);
        ghost var before := todo;
        todo := FollowCycle(a, tp, i, was, p, todo);
        OpenNext(p, before, todo, i);
      }
    }
    Finished(a[..], tp[..], was, p, todo);
  }

  lemma Finished<T>(a: seq<T>, tp: seq<nat>, was: seq<T>, p: seq<nat>, todo: set<nat>)
    requires Following(a, tp, was, p, todo) && forall m | m in todo :: |p| <= m
    ensures a == Gather(was, p)
  {
  }

  const PTR_BYTES: nat := 8

  /** Size of the temporary area. */
  function TempSize(n: nat, s: nat): nat {
    if s > 32 then 2 * n * PTR_BYTES + s else n * s
  }

  /** The array is sorted, or left alone when the temporary area cannot be had. */
  method Msort<T>(cmp: Compare<T>, b: array<T>, s: nat, haveMemory: bool)
    modifies b
    ensures b[..] == if (if s > 32 then 16 * b.Length + s else s * b.Length) < 1024 || haveMemory
                     then MSort(cmp, old(b[..])) else old(b[..])
  {
    if TempSize(b.Length, s) >= 1024 && !haveMemory {
      return;
    }
    if s > 32 {
      SortIndirectly(cmp, b);
    } else {
      SortDirectly(cmp, b);
    }
  }

  method SortDirectly<T>(cmp: Compare<T>, b: array<T>)
    modifies b
    ensures b[..] == MSort(cmp, old(b[..]))
  {
    ghost var was := b[..];
    var n := b.Length;
    if n > 0 {
      var first := b[0];
      var t := new T[n](_ => first);
      assert b[..] == was;
      SpliceAll(was, MSort(cmp, was));
      MsortWithTmp(cmp, b, 0, n, t, was);
    }
  }

  method SortIndirectly<T>(cmp: Compare<T>, b: array<T>)
    modifies b
    ensures b[..] == MSort(cmp, old(b[..]))
  {
    var elements := b[..];
    var tp := Pointers(ByElement(cmp, elements), |elements|);
    IndirectOrder(cmp, elements, tp[..]);
    assert b[..] == elements;
    ApplyPointers(b, tp);
  }

  /** Pointers to all elements, sorted. */
  method Pointers(cmp: Compare<nat>, n: nat) returns (tp: array<nat>)
    ensures fresh(tp) && tp[..] == MSort(cmp, Iota(n))
  {
    tp := new nat[n];
    for t := 0 to n
      invariant forall i | 0 <= i < t :: tp[i] == i
    {
      tp[t] := t;
    }
    ghost var start := tp[..];
    assert start == Iota(n);
    var tmp := new nat[n];
    assert tp[..] == start;
    SpliceAll(start, MSort(cmp, start));
    MsortWithTmp(cmp, tp, 0, n, tmp, start);
  }

  lemma IndirectOrder<T>(cmp: Compare<T>, was: seq<T>, order: seq<nat>)
    requires order == MSort(ByElement(cmp, was), Iota(|was|))
    ensures |order| == |was| && InRange(order, |was|) && Injective(order)
    ensures Gather(was, order) == MSort(cmp, was)
  {
    Permutes(ByElement(cmp, was), Iota(|was|));
    PermutationOfIota(order, |was|);
    GatherSort(ByElement(cmp, was), cmp, was, Iota(|was|));
    assert Gather(was, Iota(|was|)) == was;
  }
}
