/** Comparing the path groups of two maps, whatever the order of groups and paths. */
module PgCompare {

  const BITS_PER_SLOT: nat := 64

  /** A set of small numbers, one bit each, in words of 64 bits. */
  class Bitfield {
    const len: nat
    var bits: seq<seq<bool>>

    ghost predicate Valid()
      reads this
    {
      len <= |bits| * BITS_PER_SLOT && forall w | 0 <= w < |bits| :: |bits[w]| == BITS_PER_SLOT
    }

    /** The numbers whose bit is set. */
    ghost predicate Has(bit: nat)
      reads this
      requires Valid()
    {
      bit < len && bits[bit / BITS_PER_SLOT][bit % BITS_PER_SLOT]
    }

    constructor (maxbit: nat)
      requires maxbit > 0
      ensures Valid() && len == maxbit && |bits| == (maxbit - 1) / BITS_PER_SLOT + 1 && forall b: nat :: !Has(b)
    {
      len := maxbit;
      var n := (maxbit - 1) / BITS_PER_SLOT + 1;
      bits := seq(n, _ => seq(BITS_PER_SLOT, _ => false));
    }

    /** is_bit_set_in_bitfield: out of range is not set. */
    method IsSet(bit: nat) returns (r: bool)
      requires Valid()
      ensures r == Has(bit)
    {
      if bit >= len { return false; }
      return bits[bit / BITS_PER_SLOT][bit % BITS_PER_SLOT];
    }

    /** set_bit_in_bitfield: out of range is ignored. */
    method Set(bit: nat)
      requires Valid()
      modifies this`bits
      ensures Valid() && forall b: nat :: Has(b) <==> old(Has(b)) || (b == bit && bit < len)
    {
      if bit >= len { return; }
      var w := bit / BITS_PER_SLOT;
      bits := bits[w := bits[w][bit % BITS_PER_SLOT := true]];
    }
  }

  /** alloc_bitfield: none of length 0, and none without memory. */
  method AllocBitfield(maxbit: nat, haveMemory: bool) returns (bf: Bitfield?)
    ensures bf == null <==> maxbit == 0 || !haveMemory
    ensures bf != null ==> fresh(bf) && bf.Valid() && bf.len == maxbit && forall b: nat :: !bf.Has(b)
    ensures bf != null ==> |bf.bits| == (maxbit - 1) / BITS_PER_SLOT + 1
  {
    if maxbit == 0 || !haveMemory { return null; }
    bf := new Bitfield(maxbit);
  }

  // ---------------------------------------------------------------- groups as sets

  /** Paths are compared by identity. */
  type Path = nat

  type Groups = seq<seq<Path>>

  ghost function SetOf(g: seq<Path>): set<Path> { set p | p in g }

  ghost function Sets(m: Groups): (r: seq<set<Path>>)
    ensures |r| == |m| && forall i | 0 <= i < |m| :: r[i] == SetOf(m[i])
  {
    seq(|m|, i requires 0 <= i < |m| => SetOf(m[i]))
  }

  /** The groups as sets of paths, in any order. */
  ghost function Shape(m: Groups): multiset<set<Path>> { multiset(Sets(m)) }

  ghost predicate NoRepeats(g: seq<Path>) { forall a, b | 0 <= a < b < |g| :: g[a] != g[b] }

  /** No path occurs twice in a map's groups. */
  ghost predicate UniquePaths(m: Groups) {
    (forall i | 0 <= i < |m| :: NoRepeats(m[i])) &&
    forall i, j | 0 <= i < j < |m| :: SetOf(m[i]) !! SetOf(m[j])
  }

  lemma {:induction false} SizeOfSet(g: seq<Path>)
    requires NoRepeats(g)
    ensures |SetOf(g)| == |g|
  {
    if g != [] {
      SizeOfSet(g[1..]);
      assert SetOf(g) == {g[0]} + SetOf(g[1..]);
    }
  }

  /** Equal length and contained means equal. */
  lemma ContainedIsEqual(g: seq<Path>, h: seq<Path>)
    requires NoRepeats(g) && NoRepeats(h) && |g| == |h| && forall i | 0 <= i < |g| :: g[i] in h
    ensures SetOf(g) == SetOf(h)
  {
    SizeOfSet(g);
    SizeOfSet(h);
    SubsetFull(SetOf(g), SetOf(h));
  }

  lemma SubsetFull(a: set<Path>, b: set<Path>)
    requires a <= b && |a| == |b|
    ensures a == b
  {
    assert |b| == |a| + |b - a|  by { assert b == a + (b - a); }
  }

  // ---------------------------------------------------------------- matching, element by element

  /** How often x occurs below n in c, not counting marked positions. */
  ghost function Open<T>(c: seq<T>, marked: set<nat>, n: nat, x: T): nat
    requires n <= |c|
  {
    if n == 0 then 0 else Open(c, marked, n - 1, x) + if n - 1 !in marked && c[n - 1] == x then 1 else 0
  }

  lemma {:induction false} NothingMarked<T>(c: seq<T>, n: nat, x: T)
    requires n <= |c|
    ensures Open(c, {}, n, x) == multiset(c[..n])[x]
  {
    if n > 0 {
      NothingMarked(c, n - 1, x);
      assert c[..n] == c[..n - 1] + [c[n - 1]];
    }
  }

  lemma {:induction false} Mark<T>(c: seq<T>, marked: set<nat>, marked': set<nat>, j: nat, n: nat, x: T)
    requires n <= |c| && j !in marked && marked' == marked + {j}
    ensures Open(c, marked, n, x) == Open(c, marked', n, x) + if j < n && c[j] == x then 1 else 0
  {
    if n > 0 {
      Mark(c, marked, marked', j, n - 1, x);
    }
  }

  lemma {:induction false} Unmarked<T>(c: seq<T>, marked: set<nat>, n: nat, x: T) returns (j: nat)
    requires n <= |c| && Open(c, marked, n, x) > 0
    ensures j < n && j !in marked && c[j] == x
  {
    if n - 1 !in marked && c[n - 1] == x {
      return n - 1;
    } else {
      j := Unmarked(c, marked, n - 1, x);
    }
  }

  /** The first i elements of m and what is not marked in c make up c. */
  ghost predicate Matched<T(!new)>(m: seq<T>, i: nat, c: seq<T>, marked: set<nat>) {
    i <= |m| && forall x :: multiset(m[..i])[x] + Open(c, marked, |c|, x) == multiset(c)[x]
  }

  lemma MatchNone<T(!new)>(m: seq<T>, c: seq<T>)
    ensures Matched(m, 0, c, {})
  {
    assert c[..|c|] == c && m[..0] == [];
    forall x
      ensures Open(c, {}, |c|, x) == multiset(c)[x]
    {
      NothingMarked(c, |c|, x);
    }
  }

  lemma MatchOne<T(!new)>(m: seq<T>, i: nat, c: seq<T>, marked: set<nat>, j: nat)
    requires Matched(m, i, c, marked) && i < |m| && j < |c| && j !in marked && m[i] == c[j]
    ensures Matched(m, i + 1, c, marked + {j})
  {
    assert m[..i + 1] == m[..i] + [m[i]];
    forall x
      ensures multiset(m[..i + 1])[x] + Open(c, marked + {j}, |c|, x) == multiset(c)[x]
    {
      assert multiset(m[..i])[x] + Open(c, marked, |c|, x) == multiset(c)[x];
      Mark(c, marked, marked + {j}, j, |c|, x);
    }
  }

  /** If both are the same up to order, the next element's partner is still unmarked. */
  lemma Partner<T(!new)>(m: seq<T>, i: nat, c: seq<T>, marked: set<nat>) returns (j: nat)
    requires Matched(m, i, c, marked) && i < |m| && multiset(m) == multiset(c)
    ensures j < |c| && j !in marked && c[j] == m[i]
  {
    var x := m[i];
    assert m == m[..i] + [x] + m[i + 1..];
    assert multiset(m)[x] > multiset(m[..i])[x];
    assert multiset(m[..i])[x] + Open(c, marked, |c|, x) == multiset(c)[x];
    j := Unmarked(c, marked, |c|, x);
  }

  lemma AllMatched<T(!new)>(m: seq<T>, c: seq<T>, marked: set<nat>)
    requires Matched(m, |m|, c, marked) && |m| == |c|
    ensures multiset(m) == multiset(c)
  {
    assert m[..|m|] == m;
    forall x
      ensures multiset(m)[x] <= multiset(c)[x]
    {
      assert multiset(m[..|m|])[x] + Open(c, marked, |c|, x) == multiset(c)[x];
    }
    var rest := multiset(c) - multiset(m);
    assert multiset(c) == multiset(m) + rest;
    assert |multiset(c)| == |multiset(m)| + |rest|;
  }

  // ---------------------------------------------------------------- the comparison

  /** pathcmp: how many paths of g are not in h. */
  method PathCmp(g: seq<Path>, h: seq<Path>) returns (diff: nat)
    ensures diff == 0 <==> forall i | 0 <= i < |g| :: g[i] in h
  {
    var pnum, found := 0, 0;
    for i := 0 to |g|
      invariant pnum == i && found <= i
      invariant found == i <==> forall k | 0 <= k < i :: g[k] in h
    {
      pnum := pnum + 1;
      var there := Contains(h, g[i]);
      if there {
        found := found + 1;
      }
    }
    return pnum - found;
  }

  method Contains(h: seq<Path>, p: Path) returns (r: bool)
    ensures r == (p in h)
  {
    for j := 0 to |h|
      invariant forall k | 0 <= k < j :: h[k] != p
    {
      if h[j] == p { return true; }
    }
    return false;
  }

  /** The first unmatched empty group of c from j on, or |c|. */
  function FirstEmpty(c: Groups, j: nat, marked: set<nat>): (k: nat)
    requires j <= |c|
    ensures j <= k <= |c| && (k < |c| ==> c[k] == [] && k !in marked)
    ensures forall n: nat | j <= n < k && n !in marked :: c[n] != []
    decreases |c| - j
  {
    if j == |c| || (j !in marked && c[j] == []) then j else FirstEmpty(c, j + 1, marked)
  }

  /** How the search for the partner of a group ends; Differs: a group with its first path is another one. */
  datatype Search = Differs | Search(found: bool, marked: set<nat>)

  predicate Within(g: seq<Path>, h: seq<Path>) { forall i | 0 <= i < |g| :: g[i] in h }

  /** A group that the scan would compare with g. */
  predicate Candidate(g: seq<Path>, c: Groups, j: nat, marked: set<nat>) {
    g != [] && j < |c| && j !in marked && |c[j]| == |g| && g[0] in c[j]
  }

  /** The scan over the groups of c from j on. */
  function Scan(g: seq<Path>, c: Groups, j: nat, marked: set<nat>, found: bool): Search
    requires j <= |c|
    decreases |c| - j
  {
    if j == |c| then Search(found, marked)
    else if !Candidate(g, c, j, marked) then Scan(g, c, j + 1, marked, found)
    else if !Within(g, c[j]) then Differs
    else Scan(g, c, j + 1, marked + {j}, true)
  }

  function Partnered(g: seq<Path>, c: Groups, marked: set<nat>): Search {
    if g != [] then Scan(g, c, 0, marked, false)
    else
      var j := FirstEmpty(c, 0, marked);
      if j < |c| then Search(true, marked + {j}) else Search(false, marked)
  }

  /** What pgcmp computes on maps with equally many groups. */
  predicate Same(m: Groups, i: nat, c: Groups, marked: set<nat>)
    requires i <= |m|
    decreases |m| - i
  {
    i == |m| ||
    var p := Partnered(m[i], c, marked);
    p.Search? && p.found && Same(m, i + 1, c, p.marked)
  }

  // ---------------------------------------------------------------- the methods

  ghost predicate Agrees(bf: Bitfield, marked: set<nat>)
    reads bf
  {
    bf.Valid() && forall b: nat :: bf.Has(b) <==> b in marked
  }

  method FindEmpty(c: Groups, bf: Bitfield, ghost marked: set<nat>) returns (j: nat)
    requires Agrees(bf, marked)
    ensures j == FirstEmpty(c, 0, marked)
  {
    j := 0;
    while j < |c|
      invariant j <= |c| && FirstEmpty(c, j, marked) == FirstEmpty(c, 0, marked)
    {
      var taken := bf.IsSet(j);
      if !taken && |c[j]| == 0 { return; }
      j := j + 1;
    }
  }

  /** Scanning c for the group that contains g's first path; it must be the same as g. */
  method FindGroup(g: seq<Path>, c: Groups, bf: Bitfield, ghost marked: set<nat>) returns (found: bool)
    requires g != [] && Agrees(bf, marked) && |c| <= bf.len
    modifies bf
    ensures var p := Scan(g, c, 0, marked, false);
            found == (p.Search? && p.found) && (found ==> Agrees(bf, p.marked))
  {
    found := false;
    ghost var now: set<nat> := marked;
    for j := 0 to |c|
      invariant Agrees(bf, now) && Scan(g, c, 0, marked, false) == Scan(g, c, j, now, found)
    {
      var taken := bf.IsSet(j);
      var there := false;
      if !taken && |c[j]| == |g| {
        there := Contains(c[j], g[0]);
      }
      if there {
        bf.Set(j);
        now := now + {j};
        var diff := PathCmp(g, c[j]);
        if diff != 0 { return false; }
        found := true;
      }
    }
  }

  /** The body of the loop over the groups of m. */
  method MatchGroup(g: seq<Path>, c: Groups, bf: Bitfield, ghost marked: set<nat>) returns (found: bool)
    requires Agrees(bf, marked) && |c| <= bf.len
    modifies bf
    ensures var p := Partnered(g, c, marked);
            found == (p.Search? && p.found) && (found ==> Agrees(bf, p.marked))
  {
    if |g| == 0 {
      var j := FindEmpty(c, bf, marked);
      found := j < |c|;
      if found { bf.Set(j); }
    } else {
      found := FindGroup(g, c, bf, marked);
    }
  }

  method CompareGroups(m: Groups, c: Groups, bf: Bitfield) returns (ret: int)
    requires |m| == |c| <= bf.len && Agrees(bf, {})
    modifies bf
    ensures ret == if Same(m, 0, c, {}) then 0 else 1
  {
    ghost var marked := {};
    for i := 0 to |m|
      invariant Agrees(bf, marked) && Same(m, 0, c, {}) == Same(m, i, c, marked)
    {
      var found := MatchGroup(m[i], c, bf, marked);
      if !found { return 1; }
      marked := Partnered(m[i], c, marked).marked;
    }
    return 0;
  }

  /**
    pgcmp: for maps in which no path occurs twice, 0 exactly for the same groups as sets; without
    memory for a large bitfield, never 0.
   */
  method PgCmp(m: Groups, c: Groups, haveMemory: bool) returns (ret: int)
    ensures ret == if |m| == |c| && (|c| <= 64 || haveMemory) && Same(m, 0, c, {}) then 0 else 1
    ensures UniquePaths(m) && UniquePaths(c) ==>
            (ret == 0 <==> Shape(m) == Shape(c) && (|c| <= 64 || haveMemory))
  {
    SameSize(m, c);
    if |m| != |c| { return 1; }
    if UniquePaths(m) && UniquePaths(c) { SameExactly(m, c); }
    var bf := new Bitfield(BITS_PER_SLOT);
    if |c| > BITS_PER_SLOT {
      var large := AllocBitfield(|c|, haveMemory);
      if large == null { return 1; }
      bf := large;
    }
    ret := CompareGroups(m, c, bf);
  }

  lemma SameSize(m: Groups, c: Groups)
    ensures Shape(m) == Shape(c) ==> |m| == |c|
  {
    assert |Shape(m)| == |m| && |Shape(c)| == |c|;
  }

  // ---------------------------------------------------------------- what it means without repeated paths

  /** A search whose result is the group of c that is the same as g, at `at`, or none. */
  ghost predicate Located(g: seq<Path>, c: Groups, n: nat, marked: set<nat>, found: bool, marked': set<nat>, at: nat) {
    n <= |c| &&
    if found then at < n && at !in marked && marked' == marked + {at} && SetOf(c[at]) == SetOf(g)
    else marked' == marked && forall k: nat | k < n && k !in marked :: SetOf(c[k]) != SetOf(g)
  }

  /** g's first path is in one group only. */
  lemma OnlyCandidate(g: seq<Path>, c: Groups, j: nat, at: nat, marked: set<nat>, found: bool, marked': set<nat>)
    requires UniquePaths(c) && Located(g, c, j, marked, found, marked', at) && Candidate(g, c, j, marked')
    ensures !found && Candidate(g, c, j, marked)
  {
    assert g[0] in SetOf(g) && g[0] in SetOf(c[j]);
  }

  lemma Different(g: seq<Path>, c: Groups, j: nat, marked: set<nat>)
    requires UniquePaths(c) && Candidate(g, c, j, marked) && exists i :: 0 <= i < |g| && g[i] !in c[j]
    ensures forall k: nat | k < |c| && k !in marked :: SetOf(c[k]) != SetOf(g)
  {
    var i :| 0 <= i < |g| && g[i] !in c[j];
    assert g[i] in SetOf(g) && g[i] !in SetOf(c[j]);
    assert g[0] in SetOf(g) && g[0] in SetOf(c[j]);
    forall k: nat | k < |c| && k !in marked
      ensures SetOf(c[k]) != SetOf(g)
    {
      assert k < j ==> SetOf(c[k]) !! SetOf(c[j]);
      assert j < k ==> SetOf(c[j]) !! SetOf(c[k]);
    }
  }

  lemma NotThisOne(g: seq<Path>, c: Groups, j: nat, marked: set<nat>)
    requires g != [] && NoRepeats(g) && UniquePaths(c) && j < |c| && !Candidate(g, c, j, marked)
    ensures j !in marked ==> SetOf(c[j]) != SetOf(g)
  {
    SizeOfSet(g);
    SizeOfSet(c[j]);
    assert g[0] in SetOf(g);
  }

  lemma {:induction false} ScanLocates(g: seq<Path>, c: Groups, j: nat, marked: set<nat>, now: set<nat>, found: bool,
                                       at: nat)
      returns (at': nat)
    requires g != [] && NoRepeats(g) && UniquePaths(c) && j <= |c| && Located(g, c, j, marked, found, now, at)
    ensures var p := Scan(g, c, j, now, found);
            if p.Search? && p.found then Located(g, c, |c|, marked, true, p.marked, at')
            else forall k: nat | k < |c| && k !in marked :: SetOf(c[k]) != SetOf(g)
    decreases |c| - j
  {
    at' := at;
    if j < |c| {
      if Candidate(g, c, j, now) {
        OnlyCandidate(g, c, j, at, marked, found, now);
        if Within(g, c[j]) {
          ContainedIsEqual(g, c[j]);
          at' := ScanLocates(g, c, j + 1, marked, now + {j}, true, j);
        } else {
          Different(g, c, j, marked);
        }
      } else {
        if !found {
          NotThisOne(g, c, j, marked);
        }
        at' := ScanLocates(g, c, j + 1, marked, now, found, at);
      }
    }
  }

  /** The search finds the unmarked group that is the same as g, or there is none. */
  lemma PartnerLocated(g: seq<Path>, c: Groups, marked: set<nat>) returns (at: nat)
    requires NoRepeats(g) && UniquePaths(c)
    ensures var p := Partnered(g, c, marked);
            if p.Search? && p.found then Located(g, c, |c|, marked, true, p.marked, at)
            else forall k: nat | k < |c| && k !in marked :: SetOf(c[k]) != SetOf(g)
  {
    if g == [] {
      EmptySet(g, c);
      at := FirstEmpty(c, 0, marked);
    } else {
      at := ScanLocates(g, c, 0, marked, marked, false, 0);
    }
  }

  lemma NoPartner(m: Groups, i: nat, c: Groups, marked: set<nat>)
    requires i < |m| && Matched(Sets(m), i, Sets(c), marked)
    requires forall k: nat | k < |c| && k !in marked :: SetOf(c[k]) != SetOf(m[i])
    ensures Shape(m) != Shape(c)
  {
    if Shape(m) == Shape(c) {
      var j := Partner(Sets(m), i, Sets(c), marked);
    }
  }

  lemma NextMatched(m: Groups, i: nat, c: Groups, marked: set<nat>, at: nat, marked': set<nat>)
    requires i < |m| && Matched(Sets(m), i, Sets(c), marked) && Located(m[i], c, |c|, marked, true, marked', at)
    ensures Matched(Sets(m), i + 1, Sets(c), marked')
  {
    MatchOne(Sets(m), i, Sets(c), marked, at);
  }

  lemma {:induction false} SameFrom(m: Groups, i: nat, c: Groups, marked: set<nat>)
    requires UniquePaths(m) && UniquePaths(c) && |m| == |c| && i <= |m| && Matched(Sets(m), i, Sets(c), marked)
    ensures Same(m, i, c, marked) <==> Shape(m) == Shape(c)
    decreases |m| - i
  {
    if i == |m| {
      AllMatched(Sets(m), Sets(c), marked);
    } else {
      var p := Partnered(m[i], c, marked);
      var at := PartnerLocated(m[i], c, marked);
      if p.Search? && p.found {
        NextMatched(m, i, c, marked, at, p.marked);
        SameFrom(m, i + 1, c, p.marked);
      } else {
        NoPartner(m, i, c, marked);
      }
    }
  }

  lemma SameExactly(m: Groups, c: Groups)
    requires UniquePaths(m) && UniquePaths(c) && |m| == |c|
    ensures Same(m, 0, c, {}) <==> Shape(m) == Shape(c)
  {
    MatchNone(Sets(m), Sets(c));
    SameFrom(m, 0, c, {});
  }

  lemma EmptySet(g: seq<Path>, c: Groups)
    requires g == []
    ensures forall k | 0 <= k < |c| :: SetOf(c[k]) == SetOf(g) <==> c[k] == []
  {
    forall k | 0 <= k < |c|
      ensures SetOf(c[k]) == SetOf(g) <==> c[k] == []
    {
      if c[k] != [] {
        assert c[k][0] in SetOf(c[k]);
      }
    }
  }

  /** Why paths must not repeat: pgcmp finds no difference between two maps whose groups differ. */
  method RepeatsDefeatPgCmp(p: Path, q: Path, haveMemory: bool) returns (ret: int)
    requires p != q
    ensures ret == 0 && Shape([[p, p]]) != Shape([[p, q]]) && !UniquePaths([[p, p]])
  {
    RepeatsDiffer(p, q);
    RepeatsSame(p, q);
    ret := PgCmp([[p, p]], [[p, q]], haveMemory);
  }

  lemma RepeatsSame(p: Path, q: Path)
    ensures Same([[p, p]], 0, [[p, q]], {})
  {
    var m, c: Groups := [[p, p]], [[p, q]];
    var g, h := m[0], c[0];
    assert g == [p, p] && h == [p, q] && h[0] == p;
    assert Candidate(g, c, 0, {}) && Within(g, h) && |c| == 1;
    var none: set<nat>, one: set<nat> := {}, {0};
    assert none + {0} == one;
    assert Scan(g, c, 1, one, true) == Search(true, one);
    assert Partnered(g, c, none) == Search(true, one);
    assert Same(m, 1, c, one);
  }

  lemma RepeatsDiffer(p: Path, q: Path)
    requires p != q
    ensures Shape([[p, p]]) != Shape([[p, q]]) && !UniquePaths([[p, p]])
  {
    var g, h := [p, p], [p, q];
    assert h[1] == q && q in SetOf(h) && q !in SetOf(g);
    assert Sets([g])[0] == SetOf(g) && Sets([h])[0] == SetOf(h);
    assert SetOf(h) in Shape([h]) && SetOf(h) !in Shape([g]);
    assert g[0] == g[1];
    assert !NoRepeats([g][0]);
  }
}
