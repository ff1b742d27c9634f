/**
  User-friendly names: bijective base-26 suffixes, the sorted bindings table, the search for the
  least free id, and the allocation of aliases.
 */
module DevNames {
  import opened Basics
  import opened CStrings

  const LAST_26 := INT_MAX / 26

  predicate IsLetter(c: char) { 'a' <= c <= 'z' }
  predicate IsBlank(c: char) { c == ' ' || c == '\t' }

  predicate Letters(s: string) { forall i | 0 <= i < |s| :: IsLetter(s[i]) }
  predicate BlankFree(s: string) { forall i | 0 <= i < |s| :: !IsBlank(s[i]) }

  function Letter(i: int): char
    requires 0 <= i < 26
  {
    'a' + i as char
  }

  /** The suffix that stands for `id`: a, ..., z, aa, ab, ... */
  function Name(id: nat): (s: string)
    ensures Letters(s)
    ensures s == "" <==> id == 0
  {
    if id == 0 then "" else Name((id - 1) / 26) + [Letter((id - 1) % 26)]
  }

  /** The number a suffix stands for. */
  function Value(s: string): (n: nat)
    requires Letters(s)
    ensures n == 0 <==> s == ""
  {
    if s == "" then 0 else Value(s[..|s| - 1]) * 26 + (s[|s| - 1] as int - 'a' as int) + 1
  }

  lemma {:induction false} ValueOfName(id: nat)
    ensures Value(Name(id)) == id
  {
    if id != 0 {
      ValueOfName((id - 1) / 26);
      var s := Name(id);
      assert s[..|s| - 1] == Name((id - 1) / 26);
    }
  }

  lemma {:induction false} NameOfValue(s: string)
    requires Letters(s)
    ensures Name(Value(s)) == s
  {
    if s != "" {
      var front := s[..|s| - 1];
      NameOfValue(front);
      var i := s[|s| - 1] as int - 'a' as int;
      assert (Value(s) - 1) / 26 == Value(front) && (Value(s) - 1) % 26 == i;
      assert s == front + [Letter(i)];
    }
  }

  /** The value of the smallest suffix of `k` letters. */
  function MinValue(k: nat): nat {
    if k == 0 then 0 else MinValue(k - 1) * 26 + 1
  }

  lemma {:induction false} ValueByLength(s: string)
    requires Letters(s)
    ensures MinValue(|s|) <= Value(s) < MinValue(|s| + 1)
  {
    if s != "" {
      ValueByLength(s[..|s| - 1]);
    }
  }

  lemma {:induction false} MinValueMonotone(j: nat, k: nat)
    requires j <= k
    ensures MinValue(j) <= MinValue(k)
    decreases k
  {
    if j < k {
      MinValueMonotone(j, k - 1);
    }
  }

  /** Every id that fits an int has at most seven letters. */
  lemma SevenLetters(id: nat)
    requires id <= INT_MAX
    ensures |Name(id)| <= 7
  {
    ValueOfName(id);
    ValueByLength(Name(id));
    assert MinValue(3) == 703;
    assert MinValue(6) == 12356631;
    assert MinValue(8) > INT_MAX;
    if |Name(id)| > 7 {
      MinValueMonotone(8, |Name(id)|);
    }
  }

  /** alias_compar on non-NULL aliases: by length, then alphabetically. */
  function AliasCompar(a: string, b: string): int {
    if |a| != |b| then |a| - |b| else Strcmp(a, b)
  }

  lemma {:induction false} CompareValues(s: string, t: string)
    requires Letters(s) && Letters(t) && |s| == |t|
    ensures Strcmp(s, t) < 0 <==> Value(s) < Value(t)
    ensures s == t <==> Value(s) == Value(t)
  {
    if s != "" {
      var n := |s| - 1;
      var s', t' := s[..n], t[..n];
      CompareValues(s', t');
      StrcmpZero(s', t');
      var i, j := s[n] as int - 'a' as int, t[n] as int - 'a' as int;
      assert Value(s) == Value(s') * 26 + i + 1 && Value(t) == Value(t') * 26 + j + 1;
      LastDigit(Value(s'), Value(t'), i, j);
      assert Strcmp(s, t) == if s' == t' then i - j else Strcmp(s', t') by {
        assert s == s' + [s[n]] && t == t' + [t[n]];
        StrcmpLast(s', t', s[n], t[n]);
      }
      assert s == t <==> s' == t' && s[n] == t[n] by {
        assert s == s' + [s[n]] && t == t' + [t[n]];
      }
    }
  }

  lemma LastDigit(v: int, w: int, i: int, j: int)
    requires 0 <= i < 26 && 0 <= j < 26
    ensures v * 26 + i + 1 < w * 26 + j + 1 <==> v < w || (v == w && i < j)
    ensures v * 26 + i + 1 == w * 26 + j + 1 <==> v == w && i == j
  {
  }

  /** Aliases of one prefix are ordered as their ids. */
  lemma OrderAgrees(prefix: string, s: string, t: string)
    requires Letters(s) && Letters(t)
    ensures AliasCompar(prefix + s, prefix + t) < 0 <==> Value(s) < Value(t)
  {
    if |s| == |t| {
      StrcmpPrefix(prefix, s, t);
      CompareValues(s, t);
    } else {
      ValueByLength(s);
      ValueByLength(t);
      MinValueMonotone(if |s| < |t| then |s| + 1 else |t| + 1, if |s| < |t| then |t| else |s|);
    }
  }

  lemma AliasComparOrder(a: string, b: string, c: string)
    ensures AliasCompar(a, b) == 0 <==> a == b
    ensures AliasCompar(a, b) < 0 <==> AliasCompar(b, a) > 0
    ensures AliasCompar(a, b) < 0 && AliasCompar(b, c) < 0 ==> AliasCompar(a, c) < 0
  {
    StrcmpZero(a, b);
    StrcmpAntisym(a, b);
    if AliasCompar(a, b) < 0 && AliasCompar(b, c) < 0 && |a| == |b| == |c| {
      StrcmpTrans(a, b, c);
    }
  }

  /** format_devname: fill an eight-byte buffer from its end; None for an id that is not positive. */
  method FormatDevname(id0: int) returns (ok: bool, name: string)
    requires id0 <= INT_MAX
    ensures ok <==> id0 > 0
    ensures ok ==> name == Name(id0) && 1 <= |name| <= 7
  {
    if id0 <= 0 {
      return false, "";
    }
    SevenLetters(id0);
    var devname := new char[8];
    var pos := 7;
    devname[7] := '\0';
    var id := id0;
    while id >= 1
      invariant 0 <= id <= id0 && 0 <= pos <= 7
      invariant |Name(id)| <= pos
      invariant Name(id0) == Name(id) + devname[pos..7]
    {
      id := id - 1;
      pos := pos - 1;
      devname[pos] := Letter(id % 26);
      assert devname[pos..7] == [Letter(id % 26)] + devname[pos + 1..7];
      id := id / 26;
    }
    ok, name := true, devname[pos..7];
  }

  /** The loop of scan_devname over what follows the prefix, with `n` accumulated so far. */
  function ScanSuffix(s: string, n: nat): int {
    if s == "" || IsBlank(s[0]) then n
    else if !IsLetter(s[0]) then -1
    else
      var i := s[0] as int - 'a' as int;
      if n > LAST_26 || (n == LAST_26 && i >= INT_MAX % 26) then -1
      else ScanSuffix(s[1..], n * 26 + i + 1)
  }

  function Scan(alias: string, prefix: string): int {
    if !(prefix <= alias) || |alias| == |prefix| || |alias| > |prefix| + 7 then -1
    else ScanSuffix(alias[|prefix|..], 0)
  }

  /** scan_devname */
  method ScanDevname(alias: string, prefix: string) returns (id: int)
    ensures id == Scan(alias, prefix)
  {
    if !(prefix <= alias) {
      return -1;
    }
    if |alias| == |prefix| {
      return -1;
    }
    if |alias| > |prefix| + 7 {
      return -1;
    }
    var c: nat, n: nat := |prefix|, 0;
    while c < |alias| && !IsBlank(alias[c])
      invariant |prefix| <= c <= |alias|
      invariant Scan(alias, prefix) == ScanSuffix(alias[c..], n)
    {
      if alias[c] < 'a' || alias[c] > 'z' {
        return -1;
      }
      var i := alias[c] as int - 'a' as int;
      if n > LAST_26 || (n == LAST_26 && i >= INT_MAX % 26) {
        return -1;
      }
      assert alias[c..][1..] == alias[c + 1..];
      n := n * 26 + i;
      n := n + 1;
      c := c + 1;
    }
    return n;
  }

  lemma MoveLetter(front: string, s: string, longer: string)
    requires s != "" && longer == front + [s[0]]
    ensures longer + s[1..] == front + s
  {
  }

  lemma LettersCons(s: string)
    requires s != ""
    ensures Letters(s) <==> IsLetter(s[0]) && Letters(s[1..])
  {
    if IsLetter(s[0]) && Letters(s[1..]) {
      assert forall i | 1 <= i < |s| :: s[i] == s[1..][i - 1];
    }
  }

  lemma ValueSnoc(front: string, c: char, longer: string)
    requires Letters(front) && IsLetter(c) && longer == front + [c]
    ensures Letters(longer) && Value(longer) == Value(front) * 26 + (c as int - 'a' as int) + 1
  {
    assert longer[..|longer| - 1] == front;
  }

  /** The overflow test of the loop is exact. */
  lemma OverflowTest(n: nat, i: nat)
    requires i < 26
    ensures n > LAST_26 || (n == LAST_26 && i >= INT_MAX % 26) <==> n * 26 + i + 1 > INT_MAX
  {
  }

  /** On a blank-free suffix the loop computes the value, or fails on other letters or overflow. */
  lemma {:induction false} ScanSuffixValue(front: string, s: string)
    requires Letters(front) && BlankFree(s) && Value(front) <= INT_MAX
    ensures ScanSuffix(s, Value(front)) ==
            if Letters(s) && Value(front + s) <= INT_MAX then Value(front + s) else -1
    decreases |s|
  {
    if s == "" {
      assert front + s == front;
    } else {
      LettersCons(s);
      if IsLetter(s[0]) {
        var longer := front + [s[0]];
        MoveLetter(front, s, longer);
        ValueSnoc(front, s[0], longer);
        OverflowTest(Value(front), s[0] as int - 'a' as int);
        if Value(longer) <= INT_MAX {
          ScanSuffixValue(longer, s[1..]);
        } else if Letters(s) {
          ValueGrows(longer, s[1..]);
        }
      }
    }
  }

  lemma {:induction false} ValueGrows(s: string, t: string)
    requires Letters(s) && Letters(t)
    ensures Value(s + t) >= Value(s)
    decreases |t|
  {
    if t == "" {
      assert s + t == s;
    } else {
      var n := |t| - 1;
      ValueGrows(s, t[..n]);
      assert (s + t)[..|s + t| - 1] == s + t[..n];
    }
  }

  /** format_devname and scan_devname are inverse on 1..INT_MAX, for blank-free suffixes. */
  lemma ScanInverse(alias: string, prefix: string, id: int)
    requires prefix <= alias ==> BlankFree(alias[|prefix|..])
    ensures 1 <= id <= INT_MAX && alias == prefix + Name(id) ==> Scan(alias, prefix) == id
    ensures Scan(alias, prefix) == id && id != -1 ==> 1 <= id <= INT_MAX && alias == prefix + Name(id)
  {
    if prefix <= alias {
      var s := alias[|prefix|..];
      assert alias == prefix + s;
      ScanSuffixValue("", s);
      assert "" + s == s;
      if 1 <= id <= INT_MAX && alias == prefix + Name(id) {
        assert s == Name(id);
        ValueOfName(id);
        SevenLetters(id);
      }
      if Scan(alias, prefix) == id && id != -1 {
        NameOfValue(s);
      }
    }
  }
}

/** get_free_id: one pass over the sorted bindings. */
module FreeId {
  import opened Basics
  import opened CStrings
  import opened DevNames

  const INT_MIN := -0x8000_0000

  datatype Binding = Binding(alias: string, wwid: string)

  /** Outcome of the search; NoneLeft and Unsorted are both reported as -1. */
  datatype Outcome = Id(id: int) | NoneLeft | Unsorted

  function ReturnCode(o: Outcome): int { if o.Id? then o.id else -1 }

  /** The first of id, id + 1, ... that is not taken, or `limit`. */
  function SkipTaken(taken: int -> bool, id: int, limit: int): (r: int)
    requires id <= limit
    ensures id <= r <= limit && (r < limit ==> !taken(r))
    ensures forall j | id <= j < r :: taken(j)
    decreases limit - id
  {
    if id == limit || !taken(id) then id else SkipTaken(taken, id + 1, limit)
  }

  /** The search on the scanned ids of the bindings, -1 standing for "other prefix". */
  function Walk(ids: seq<int>, taken: int -> bool, id: int): (o: Outcome)
    requires 1 <= id <= INT_MAX && forall i | 0 <= i < |ids| :: ids[i] <= INT_MAX
    ensures o.Id? ==> id <= o.id <= INT_MAX
    decreases |ids|
  {
    if ids == [] then
      var r := SkipTaken(taken, id, INT_MAX);
      if r < INT_MAX || !taken(INT_MAX) then Id(r) else NoneLeft
    else if ids[0] == -1 then Walk(ids[1..], taken, id)
    else if id > ids[0] then Unsorted
    else
      var r := SkipTaken(taken, id, ids[0]);
      if r < ids[0] then Id(r)
      else if r == INT_MAX then NoneLeft
      else Walk(ids[1..], taken, r + 1)
  }

  /** The real ids ascend strictly, from `low` on. */
  predicate Ascending(ids: seq<int>, low: int)
    decreases |ids|
  {
    ids == [] || if ids[0] == -1 then Ascending(ids[1..], low)
                 else low <= ids[0] && Ascending(ids[1..], ids[0] + 1)
  }

  /** The part of the bindings the search looks at: it stops behind INT_MAX. */
  function Seen(ids: seq<int>): (r: seq<int>)
    ensures forall i | 0 <= i < |r| :: r[i] in ids && (r[i] == INT_MAX ==> i == |r| - 1)
    decreases |ids|
  {
    if ids == [] then [] else if ids[0] == INT_MAX then [INT_MAX] else [ids[0]] + Seen(ids[1..])
  }

  predicate Free(ids: seq<int>, taken: int -> bool, j: int) {
    j !in ids && !taken(j)
  }

  /** `o` is the least free id from `low` to INT_MAX, or none is free. */
  ghost predicate IsLeastFree(ids: seq<int>, taken: int -> bool, low: int, o: Outcome) {
    match o
    case Id(r) => low <= r <= INT_MAX && Free(ids, taken, r) && forall j | low <= j < r :: !Free(ids, taken, j)
    case NoneLeft => forall j | low <= j <= INT_MAX :: !Free(ids, taken, j)
    case Unsorted => false
  }

  predicate Ints(ids: seq<int>) { forall i | 0 <= i < |ids| :: ids[i] <= INT_MAX }

  lemma {:induction false} NotBelow(ids: seq<int>, low: int, j: int)
    requires Ascending(ids, low) && 0 <= j < low
    ensures j !in ids
    decreases |ids|
  {
    if ids != [] {
      NotBelow(ids[1..], if ids[0] == -1 then low else ids[0] + 1, j);
      assert ids == [ids[0]] + ids[1..];
    }
  }

  lemma FreeCons(x: int, rest: seq<int>, taken: int -> bool, j: int)
    ensures Free([x] + rest, taken, j) <==> j != x && Free(rest, taken, j)
  {
  }

  /** On ascending ids the search finds the least free one. */
  lemma {:induction false} WalkFindsLeast(ids: seq<int>, taken: int -> bool, low: int)
    requires Ints(ids) && Ascending(ids, low) && 1 <= low <= INT_MAX
    ensures IsLeastFree(ids, taken, low, Walk(ids, taken, low))
    decreases |ids|
  {
    if ids != [] {
      var x, rest := ids[0], ids[1..];
      assert ids == [x] + rest;
      forall j
        ensures Free(ids, taken, j) <==> j != x && Free(rest, taken, j)
      {
        FreeCons(x, rest, taken, j);
      }
      if x == -1 {
        WalkFindsLeast(rest, taken, low);
      } else {
        forall j | low <= j < x
          ensures j !in rest
        {
          NotBelow(rest, x + 1, j);
        }
        var r := SkipTaken(taken, low, x);
        if r == x && r < INT_MAX {
          WalkFindsLeast(rest, taken, r + 1);
        }
      }
    }
  }

  lemma WalkCons(x: int, rest: seq<int>, taken: int -> bool, id: int)
    requires x <= INT_MAX && Ints(rest) && 1 <= id <= INT_MAX
    ensures Ints([x] + rest)
    ensures Walk([x] + rest, taken, id) ==
            if x == -1 then Walk(rest, taken, id)
            else if id > x then Unsorted
            else
              var r := SkipTaken(taken, id, x);
              if r < x then Id(r) else if r == INT_MAX then NoneLeft else Walk(rest, taken, r + 1)
  {
    assert ([x] + rest)[1..] == rest;
  }

  lemma SeenCons(x: int, rest: seq<int>)
    ensures Seen([x] + rest) == if x == INT_MAX then [INT_MAX] else [x] + Seen(rest)
  {
    assert ([x] + rest)[1..] == rest;
  }

  lemma SeenInts(ids: seq<int>)
    requires Ints(ids)
    ensures Ints(Seen(ids))
  {
  }

  lemma {:induction false} WalkStopsBehindMax(ids: seq<int>, taken: int -> bool, id: int)
    requires Ints(ids) && 1 <= id <= INT_MAX
    ensures Ints(Seen(ids)) && Walk(ids, taken, id) == Walk(Seen(ids), taken, id)
    decreases |ids|
  {
    SeenInts(ids);
    if ids != [] {
      var x, rest := ids[0], ids[1..];
      assert ids == [x] + rest;
      SeenCons(x, rest);
      if x == INT_MAX {
        WalkSame(x, rest, [], taken, id);
        assert [x] + [] == [INT_MAX];
      } else {
        WalkStopsBehindMax(rest, taken, id);
        if id <= x {
          WalkStopsBehindMax(rest, taken, x + 1);
        }
        WalkSame(x, rest, Seen(rest), taken, id);
      }
    }
  }

  /** What follows x matters only as far as the search gets there. */
  lemma WalkSame(x: int, a: seq<int>, b: seq<int>, taken: int -> bool, id: int)
    requires x <= INT_MAX && Ints(a) && Ints(b) && 1 <= id <= INT_MAX
    requires x == -1 ==> Walk(a, taken, id) == Walk(b, taken, id)
    requires id <= x < INT_MAX ==> Walk(a, taken, x + 1) == Walk(b, taken, x + 1)
    ensures Ints([x] + a) && Ints([x] + b) && Walk([x] + a, taken, id) == Walk([x] + b, taken, id)
  {
    WalkCons(x, a, taken, id);
    WalkCons(x, b, taken, id);
  }

  /** With everything in use the search reaches the first id out of order. */
  lemma {:induction false} WalkOnTaken(ids: seq<int>, taken: int -> bool, low: int)
    requires Ints(ids) && 1 <= low <= INT_MAX && !Ascending(ids, low) && forall j | 1 <= j :: taken(j)
    requires forall i | 0 <= i < |ids| && ids[i] == INT_MAX :: i == |ids| - 1
    ensures Walk(ids, taken, low) == Unsorted
    decreases |ids|
  {
    if ids[0] == -1 {
      WalkOnTaken(ids[1..], taken, low);
    } else if low <= ids[0] {
      var r := SkipTaken(taken, low, ids[0]);
      assert r == ids[0];
      if r < INT_MAX {
        WalkOnTaken(ids[1..], taken, r + 1);
      }
    }
  }

  // ------------------------------------------------------- from bindings to ids

  function Ids(bindings: seq<Binding>, prefix: string): (ids: seq<int>)
    ensures |ids| == |bindings|
    ensures forall i | 0 <= i < |ids| :: ids[i] == Scan(bindings[i].alias, prefix)
  {
    seq(|bindings|, i requires 0 <= i < |bindings| => Scan(bindings[i].alias, prefix))
  }

  lemma {:induction false} ScanSuffixRange(s: string, n: nat)
    requires n <= INT_MAX
    ensures -1 <= ScanSuffix(s, n) <= INT_MAX
    decreases |s|
  {
    if s != "" && IsLetter(s[0]) {
      var m := n * 26 + (s[0] as int - 'a' as int) + 1;
      if m <= INT_MAX {
        ScanSuffixRange(s[1..], m);
      }
    }
  }

  lemma IdsAreInts(bindings: seq<Binding>, prefix: string)
    ensures Ints(Ids(bindings, prefix))
  {
    forall i | 0 <= i < |bindings|
      ensures Scan(bindings[i].alias, prefix) <= INT_MAX
    {
      if prefix <= bindings[i].alias {
        ScanSuffixRange(bindings[i].alias[|prefix|..], 0);
      }
    }
  }

  predicate StrictlySorted(bindings: seq<Binding>) {
    forall i, j | 0 <= i < j < |bindings| :: AliasCompar(bindings[i].alias, bindings[j].alias) < 0
  }

  /** No alias that starts with the prefix has a blank behind it. */
  predicate BlankFreeFor(bindings: seq<Binding>, prefix: string) {
    forall i | 0 <= i < |bindings| && prefix <= bindings[i].alias :: BlankFree(bindings[i].alias[|prefix|..])
  }

  /** Strictly sorted blank-free bindings have ascending ids, so the search never calls them unsorted. */
  lemma {:induction false} SortedAscends(bindings: seq<Binding>, prefix: string, low: int)
    requires StrictlySorted(bindings) && BlankFreeFor(bindings, prefix)
    requires forall i | 0 <= i < |bindings| && Ids(bindings, prefix)[i] != -1 :: low <= Ids(bindings, prefix)[i]
    ensures Ascending(Ids(bindings, prefix), low)
    decreases |bindings|
  {
    var ids := Ids(bindings, prefix);
    if bindings != [] {
      var rest := bindings[1..];
      assert ids[1..] == Ids(rest, prefix);
      forall i | 0 <= i < |rest| && Ids(rest, prefix)[i] != -1 && ids[0] != -1
        ensures ids[0] < Ids(rest, prefix)[i]
      {
        ScanInverse(bindings[0].alias, prefix, ids[0]);
        ScanInverse(rest[i].alias, prefix, Ids(rest, prefix)[i]);
        OrderAgrees(prefix, Name(ids[0]), Name(Ids(rest, prefix)[i]));
        ValueOfName(ids[0]);
        ValueOfName(Ids(rest, prefix)[i]);
        assert rest[i] == bindings[i + 1];
      }
      SortedAscends(rest, prefix, if ids[0] == -1 then low else ids[0] + 1);
    }
  }

  lemma AscendingCons(x: int, rest: seq<int>, low: int)
    ensures Ascending([x] + rest, low) <==>
            if x == -1 then Ascending(rest, low) else low <= x && Ascending(rest, x + 1)
  {
    assert ([x] + rest)[1..] == rest;
  }

  /** The search looks at all ids that ascend. */
  lemma {:induction false} AscendingSeen(ids: seq<int>, low: int)
    requires Ascending(ids, low) && Ints(ids) && 1 <= low
    ensures Ascending(Seen(ids), low) && forall x | x in ids && x >= 1 :: x in Seen(ids)
    decreases |ids|
  {
    if ids != [] {
      var x, rest := ids[0], ids[1..];
      assert ids == [x] + rest;
      var next := if x == -1 then low else x + 1;
      AscendingSeen(rest, next);
      SeenCons(x, rest);
      AscendingCons(x, Seen(rest), low);
      AscendingCons(x, [], low);
      if x == INT_MAX {
        forall y | y in rest
          ensures y == -1
        {
          var i :| 0 <= i < |rest| && rest[i] == y;
          NoneAbove(rest, INT_MAX + 1, i);
        }
        assert [x] + [] == [INT_MAX];
      }
    }
  }

  lemma {:induction false} NoneAbove(ids: seq<int>, low: int, i: nat)
    requires Ascending(ids, low) && Ints(ids) && low > INT_MAX && i < |ids|
    ensures ids[i] == -1
    decreases |ids|
  {
    if i > 0 {
      NoneAbove(ids[1..], low, i - 1);
    }
  }

  // ------------------------------------------------------- when the search is right

  predicate BoundName(bindings: seq<Binding>, alias: string) {
    exists i | 0 <= i < |bindings| :: bindings[i].alias == alias
  }

  /** The name of id j is neither bound nor in use by another map. */
  predicate Unused(bindings: seq<Binding>, prefix: string, taken: string -> bool, j: nat) {
    !BoundName(bindings, prefix + Name(j)) && !taken(prefix + Name(j))
  }

  /** `o` is the least id from 1 to INT_MAX whose name is unused, or there is none. */
  ghost predicate IsLeastUnused(bindings: seq<Binding>, prefix: string, taken: string -> bool, o: Outcome) {
    match o
    case Id(r) =>
      1 <= r <= INT_MAX && Unused(bindings, prefix, taken, r) &&
      forall j: nat {:trigger Unused(bindings, prefix, taken, j)} | 1 <= j < r :: !Unused(bindings, prefix, taken, j)
    case NoneLeft =>
      forall j: nat {:trigger Unused(bindings, prefix, taken, j)} | 1 <= j <= INT_MAX ::
        !Unused(bindings, prefix, taken, j)
    case Unsorted => false
  }

  /** The ids that the search looks at ascend, and are exactly those whose names are bound. */
  ghost predicate Faithful(bindings: seq<Binding>, prefix: string) {
    var seen := Seen(Ids(bindings, prefix));
    Ascending(seen, 1) &&
    forall j: nat {:trigger Name(j)} | 1 <= j <= INT_MAX :: j in seen <==> BoundName(bindings, prefix + Name(j))
  }

  /** What the search finds, in terms of the ids it looks at. */
  lemma SearchOnSeen(bindings: seq<Binding>, prefix: string, taken: string -> bool)
    requires Ascending(Seen(Ids(bindings, prefix)), 1)
    ensures IsLeastFree(Seen(Ids(bindings, prefix)), TakenIds(prefix, taken), 1, Search(bindings, prefix, taken))
  {
    var ids := Ids(bindings, prefix);
    IdsAreInts(bindings, prefix);
    WalkStopsBehindMax(ids, TakenIds(prefix, taken), 1);
    WalkFindsLeast(Seen(ids), TakenIds(prefix, taken), 1);
  }

  lemma FaithfulIsRight(bindings: seq<Binding>, prefix: string, taken: string -> bool)
    requires Faithful(bindings, prefix)
    ensures IsLeastUnused(bindings, prefix, taken, Search(bindings, prefix, taken))
  {
    SearchOnSeen(bindings, prefix, taken);
    var seen, t := Seen(Ids(bindings, prefix)), TakenIds(prefix, taken);
    forall j: nat | 1 <= j <= INT_MAX
      ensures Free(seen, t, j) <==> Unused(bindings, prefix, taken, j)
    {
      assert j in seen <==> BoundName(bindings, prefix + Name(j));
    }
  }

  /** Everything but the name of id j is in use. */
  function AllBut(alias: string): string -> bool { (a: string) => a != alias }

  lemma OnlyOneFree(prefix: string, j: nat, k: nat)
    ensures TakenIds(prefix, AllBut(prefix + Name(j)))(k) <==> k != j
  {
    if prefix + Name(k) == prefix + Name(j) {
      assert Name(k) == (prefix + Name(k))[|prefix|..] == Name(j);
      ValueOfName(k);
      ValueOfName(j);
    }
  }

  /** An id that is seen but not bound is missed, one that is bound but not seen is given out again. */
  lemma WrongAbout(bindings: seq<Binding>, prefix: string, j: nat)
    requires Ascending(Seen(Ids(bindings, prefix)), 1) && 1 <= j <= INT_MAX
    requires (j in Seen(Ids(bindings, prefix))) != BoundName(bindings, prefix + Name(j))
    ensures var taken := AllBut(prefix + Name(j));
            !IsLeastUnused(bindings, prefix, taken, Search(bindings, prefix, taken))
  {
    var taken := AllBut(prefix + Name(j));
    SearchOnSeen(bindings, prefix, taken);
    var seen, t, o := Seen(Ids(bindings, prefix)), TakenIds(prefix, taken), Search(bindings, prefix, taken);
    OnlyOneFree(prefix, j, j);
    if o.Id? {
      OnlyOneFree(prefix, j, o.id);
      assert Free(seen, t, o.id);
    } else {
      assert !Free(seen, t, j);
      assert Unused(bindings, prefix, taken, j);
    }
  }

  lemma WrongIfUnordered(bindings: seq<Binding>, prefix: string)
    requires !Ascending(Seen(Ids(bindings, prefix)), 1)
    ensures Search(bindings, prefix, _ => true) == Unsorted
  {
    var ids := Ids(bindings, prefix);
    IdsAreInts(bindings, prefix);
    var t := TakenIds(prefix, _ => true);
    WalkStopsBehindMax(ids, t, 1);
    WalkOnTaken(Seen(ids), t, 1);
  }

  /**
    get_free_id returns the least id whose name is neither bound nor in use, whatever names other
    maps use, exactly if the ids it looks at ascend and are those of the bound names.
   */
  lemma {:induction false} SearchRightExactly(bindings: seq<Binding>, prefix: string)
    ensures Faithful(bindings, prefix) <==>
            forall taken {:trigger Search(bindings, prefix, taken)} ::
              IsLeastUnused(bindings, prefix, taken, Search(bindings, prefix, taken))
  {
    if Faithful(bindings, prefix) {
      forall taken: string -> bool
        ensures IsLeastUnused(bindings, prefix, taken, Search(bindings, prefix, taken))
      {
        FaithfulIsRight(bindings, prefix, taken);
      }
    } else if !Ascending(Seen(Ids(bindings, prefix)), 1) {
      WrongIfUnordered(bindings, prefix);
    } else {
      var j: nat :| 1 <= j <= INT_MAX && (j in Seen(Ids(bindings, prefix))) != BoundName(bindings, prefix + Name(j));
      WrongAbout(bindings, prefix, j);
    }
  }

  lemma ScannedIsBound(bindings: seq<Binding>, prefix: string, j: nat)
    requires BlankFreeFor(bindings, prefix) && 1 <= j <= INT_MAX
    ensures j in Ids(bindings, prefix) <==> BoundName(bindings, prefix + Name(j))
  {
    var ids := Ids(bindings, prefix);
    if j in ids {
      var i :| 0 <= i < |ids| && ids[i] == j;
      ScanInverse(bindings[i].alias, prefix, j);
    }
    if BoundName(bindings, prefix + Name(j)) {
      var i :| 0 <= i < |bindings| && bindings[i].alias == prefix + Name(j);
      ScanInverse(bindings[i].alias, prefix, j);
      assert ids[i] == j;
    }
  }

  /** Strictly sorted bindings without blanks behind their names meet the condition. */
  lemma SortedIsFaithful(bindings: seq<Binding>, prefix: string)
    requires StrictlySorted(bindings) && BlankFreeFor(bindings, prefix)
    ensures Faithful(bindings, prefix)
  {
    var ids := Ids(bindings, prefix);
    IdsAreInts(bindings, prefix);
    forall i | 0 <= i < |bindings| && ids[i] != -1
      ensures 1 <= ids[i]
    {
      ScanInverse(bindings[i].alias, prefix, ids[i]);
    }
    SortedAscends(bindings, prefix, 1);
    AscendingSeen(ids, 1);
    forall j: nat | 1 <= j <= INT_MAX
      ensures j in Seen(ids) <==> BoundName(bindings, prefix + Name(j))
    {
      ScannedIsBound(bindings, prefix, j);
    }
  }

  // ------------------------------------------------------- blanks behind names

  lemma ScanBehind(p: string, s: string)
    requires 1 <= |s| <= 7
    ensures Scan(p + s, p) == ScanSuffix(s, 0)
  {
    assert (p + s)[|p|..] == s;
  }

  lemma OneLetter(c: char, rest: string)
    requires IsLetter(c) && (rest == "" || IsBlank(rest[0]))
    ensures ScanSuffix([c] + rest, 0) == c as int - 'a' as int + 1
  {
    assert ([c] + rest)[1..] == rest;
  }

  /** A name with a blank behind it scans as if the rest were not there. */
  lemma ScansAs(p: string, c: char, rest: string)
    requires IsLetter(c) && |rest| <= 6 && (rest == "" || IsBlank(rest[0]))
    ensures Scan(p + ([c] + rest), p) == c as int - 'a' as int + 1
  {
    ScanBehind(p, [c] + rest);
    OneLetter(c, rest);
  }

  function Walk3(x: int, y: int, z: int): seq<int> { [x] + ([y] + [z]) }

  /** Such an alias can make a strictly sorted table look unsorted ... */
  lemma BlankLooksUnsorted(p: string, w: string)
    ensures var table := [Binding(p + "a", w), Binding(p + "b", w), Binding(p + "a x", w)];
            StrictlySorted(table) && Search(table, p, _ => false) == Unsorted
  {
    var table := [Binding(p + "a", w), Binding(p + "b", w), Binding(p + "a x", w)];
    StrcmpPrefix(p, "a", "b");
    ScansAs(p, 'a', "");
    ScansAs(p, 'b', "");
    ScansAs(p, 'a', " x");
    assert ['a'] + "" == "a" && ['b'] + "" == "b" && ['a'] + " x" == "a x";
    var ids := Ids(table, p);
    assert ids == Walk3(1, 2, 1);
    WalkOneTwoOne(TakenIds(p, _ => false));
  }

  lemma WalkOneTwoOne(taken: int -> bool)
    requires !taken(1) && !taken(2) && !taken(3)
    ensures Walk(Walk3(1, 2, 1), taken, 1) == Unsorted
  {
    var ids := Walk3(1, 2, 1);
    assert ids[1..] == [2] + [1] && ([2] + [1])[1..] == [1];
    assert Walk([1], taken, 3) == Unsorted;
    assert Walk([2] + [1], taken, 2) == Unsorted;
  }

  /** ... or hide an id that nobody uses. */
  lemma BlankHidesId(p: string, w: string, blank: char, rest: string)
    requires (blank == ' ' || blank == '\t') && |rest| <= 5
    ensures var table := [Binding(p + (['a'] + ([blank] + rest)), w)];
            StrictlySorted(table) && Search(table, p, _ => false) == Id(2) && Unused(table, p, _ => false, 1)
  {
    var table := [Binding(p + (['a'] + ([blank] + rest)), w)];
    ScansAs(p, 'a', [blank] + rest);
    var ids := Ids(table, p);
    assert ids == [1] && ids[1..] == [];
    WalkOne(TakenIds(p, _ => false));
    assert Name(1) == Name(0) + ['a'];
    assert |p + Name(1)| == |p| + 1 && |p + (['a'] + ([blank] + rest))| >= |p| + 2;
  }

  lemma WalkOne(taken: int -> bool)
    requires !taken(1) && !taken(2)
    ensures Walk([1], taken, 1) == Id(2)
  {
    var ids: seq<int> := [1];
    assert ids[1..] == [];
    assert Walk(ids[1..], taken, 2) == Id(2);
  }

  /** Which ids are in use by other maps, given who uses which alias. */
  function TakenIds(prefix: string, taken: string -> bool): int -> bool {
    j => j >= 0 && taken(prefix + Name(j))
  }

  function Search(bindings: seq<Binding>, prefix: string, taken: string -> bool): (o: Outcome)
    ensures o.Id? ==> 1 <= o.id <= INT_MAX
  {
    IdsAreInts(bindings, prefix);
    Walk(Ids(bindings, prefix), TakenIds(prefix, taken), 1)
  }

  /** The loops that step over ids in use. */
  method SkipLoop(prefix: string, taken: string -> bool, start: int, limit: int) returns (id: int)
    requires 1 <= start <= limit <= INT_MAX
    ensures id == SkipTaken(TakenIds(prefix, taken), start, limit)
  {
    id := start;
    while id < limit && taken(prefix + Name(id))
      invariant start <= id <= limit
      invariant SkipTaken(TakenIds(prefix, taken), id, limit) == SkipTaken(TakenIds(prefix, taken), start, limit)
    {
      id := id + 1;
    }
  }

  /** One pass of the loop: an answer, or the id to go on with; id wraps to INT_MIN behind INT_MAX. */
  method PassBinding(curr: int, prefix: string, taken: string -> bool, id: int, ghost rest: seq<int>)
      returns (answer: Option<int>, next: int)
    requires curr <= INT_MAX && Ints(rest) && 1 <= id <= INT_MAX
    ensures Ints([curr] + rest)
    ensures var o := Walk([curr] + rest, TakenIds(prefix, taken), id);
            if answer.Some? then answer.value == ReturnCode(o)
            else 1 <= next <= INT_MAX && Walk(rest, TakenIds(prefix, taken), next) == o
  {
    WalkCons(curr, rest, TakenIds(prefix, taken), id);
    if curr == -1 {
      return None, id;
    }
    if id > curr {
      return Some(-1), id;
    }
    next := SkipLoop(prefix, taken, id, curr);
    if next < curr {
      return Some(next), next;
    }
    next := if next == INT_MAX then INT_MIN else next + 1;
    answer := if next <= 0 then Some(-1) else None;
  }

  /** The loop behind the last binding. */
  method PassRest(prefix: string, taken: string -> bool, start: int) returns (r: int)
    requires 1 <= start <= INT_MAX
    ensures r == ReturnCode(Walk([], TakenIds(prefix, taken), start))
  {
    r := SkipLoop(prefix, taken, start, INT_MAX);
    if r == INT_MAX && taken(prefix + Name(r)) {
      r := INT_MIN;
    }
    if r <= 0 {
      r := -1;
    }
  }

  lemma DropFirst(ids: seq<int>, i: nat)
    requires i < |ids| && Ints(ids)
    ensures ids[i..] == [ids[i]] + ids[i + 1..] && Ints(ids[i + 1..])
  {
  }

  /** get_free_id; `taken` answers for an alias whether another map uses it. */
  method GetFreeId(bindings: seq<Binding>, prefix: string, taken: string -> bool) returns (r: int)
    ensures var o := Search(bindings, prefix, taken); r == if o.Id? then o.id else -1
  {
    ghost var ids, o := Ids(bindings, prefix), Search(bindings, prefix, taken);
    IdsAreInts(bindings, prefix);
    ghost var rest := ids;
    var id, i := 1, 0;
    assert ids[0..] == ids;
    while i < |bindings|
      invariant 1 <= id <= INT_MAX && 0 <= i <= |bindings|
      invariant rest == ids[i..] && Ints(rest) && Walk(rest, TakenIds(prefix, taken), id) == o
    {
      var curr := ScanDevname(bindings[i].alias, prefix);
      DropFirst(ids, i);
      rest := ids[i + 1..];
      var answer;
      answer, id := PassBinding(curr, prefix, taken, id, rest);
      if answer.Some? {
        return answer.value;
      }
      i := i + 1;
    }
    assert rest == [];
    r := PassRest(prefix, taken, id);
  }
}

/** The bindings table and get_user_friendly_alias, between two readings of the bindings file. */
module Bindings {
  import opened Basics
  import opened CStrings
  import opened DevNames
  import opened FreeId

  const WWID_SIZE := 128

  datatype AddResult = Exists | ConflictingWwid | Added | Failed

  predicate BoundWwid(table: seq<Binding>, wwid: string) {
    exists i | 0 <= i < |table| :: table[i].wwid == wwid
  }

  /** None of the first n bindings has an alias that agrees with this one as far as names are compared. */
  ghost predicate NoAlias(table: seq<Binding>, n: nat, alias: string)
    requires n <= |table|
  {
    forall j | 0 <= j < n :: !SameFirst(table[j].alias, alias, WWID_SIZE)
  }

  ghost predicate NoWwid(table: seq<Binding>, n: nat, wwid: string)
    requires n <= |table|
  {
    forall j | 0 <= j < n :: !SameFirst(table[j].wwid, wwid, WWID_SIZE)
  }

  predicate OneAliasPerWwid(table: seq<Binding>) {
    forall i, j | 0 <= i < j < |table| :: table[i].wwid != table[j].wwid
  }

  function Inserted(table: seq<Binding>, i: nat, b: Binding): seq<Binding>
    requires i <= |table|
  {
    table[..i] + [b] + table[i..]
  }

  function Removed(table: seq<Binding>, i: nat): seq<Binding>
    requires i < |table|
  {
    table[..i] + table[i + 1..]
  }

  /** `table` is `before`, possibly with the one binding `b` added. */
  ghost predicate Extends(before: seq<Binding>, table: seq<Binding>, b: Binding) {
    table == before || exists i | 0 <= i <= |before| :: table == Inserted(before, i, b)
  }

  lemma InsertSorted(table: seq<Binding>, i: nat, b: Binding)
    requires StrictlySorted(table) && i <= |table|
    requires i > 0 ==> AliasCompar(table[i - 1].alias, b.alias) < 0
    requires i < |table| ==> AliasCompar(b.alias, table[i].alias) < 0
    ensures StrictlySorted(Inserted(table, i, b))
  {
    var r := Inserted(table, i, b);
    forall j | 0 <= j < i
      ensures AliasCompar(table[j].alias, b.alias) < 0
    {
      if j < i - 1 {
        AliasComparOrder(table[j].alias, table[i - 1].alias, b.alias);
      }
    }
    forall j | i <= j < |table|
      ensures AliasCompar(b.alias, table[j].alias) < 0
    {
      if i < j {
        AliasComparOrder(b.alias, table[i].alias, table[j].alias);
      }
    }
  }

  /** The only binding of its WWID is the one that was inserted; removing it restores the table. */
  lemma InsertedFirst(table: seq<Binding>, at: nat, b: Binding)
    requires at <= |table| && !BoundWwid(table, b.wwid) && |b.wwid| < WWID_SIZE
    ensures var r := Inserted(table, at, b);
            NoWwid(r, at, b.wwid) && SameFirst(r[at].wwid, b.wwid, WWID_SIZE) && Removed(r, at) == table &&
            forall i | 0 <= i < |r| && SameFirst(r[i].wwid, b.wwid, WWID_SIZE) :: i == at
  {
    var r := Inserted(table, at, b);
    forall i | 0 <= i < |r| && i != at
      ensures r[i].wwid != b.wwid
    {
      assert r[i] == table[if i < at then i else i - 1];
    }
  }

  class Table {
    var bindings: seq<Binding>

    ghost predicate Valid()
      reads this
    {
      StrictlySorted(bindings)
    }

    constructor ()
      ensures Valid() && bindings == []
    {
      bindings := [];
    }

    /** get_binding_for_alias */
    method ForAlias(alias: string) returns (i: int)
      ensures -1 <= i < |bindings|
      ensures i >= 0 ==> SameFirst(bindings[i].alias, alias, 128)
      ensures NoAlias(bindings, if i < 0 then |bindings| else i, alias)
    {
      for k := 0 to |bindings|
        invariant NoAlias(bindings, k, alias)
      {
        if SameFirst(bindings[k].alias, alias, WWID_SIZE) {
          return k;
        }
      }
      return -1;
    }

    /** get_binding_for_wwid */
    method ForWwid(wwid: string) returns (i: int)
      ensures -1 <= i < |bindings|
      ensures i >= 0 ==> SameFirst(bindings[i].wwid, wwid, 128)
      ensures NoWwid(bindings, if i < 0 then |bindings| else i, wwid)
    {
      for k := 0 to |bindings|
        invariant NoWwid(bindings, k, wwid)
      {
        if SameFirst(bindings[k].wwid, wwid, WWID_SIZE) {
          return k;
        }
      }
      return -1;
    }

    /** add_binding: search backwards for the place that keeps the table sorted. */
    method Add(alias: string, wwid: string, haveMemory: bool) returns (r: AddResult, ghost at: nat)
      requires Valid()
      modifies this
      ensures Valid()
      ensures r == Added <==> !BoundName(old(bindings), alias) && haveMemory
      ensures r == Failed <==> !BoundName(old(bindings), alias) && !haveMemory
      ensures r == Exists <==> Binding(alias, wwid) in old(bindings)
      ensures r != Added ==> bindings == old(bindings)
      ensures r == Added ==> at <= |old(bindings)| && bindings == Inserted(old(bindings), at, Binding(alias, wwid))
    {
      var i := |bindings| - 1;
      while i >= 0 && AliasCompar(bindings[i].alias, alias) > 0
        invariant -1 <= i < |bindings|
        invariant forall j | i < j < |bindings| :: AliasCompar(bindings[j].alias, alias) > 0
      {
        i := i - 1;
      }
      at := 0;
      forall j | 0 <= j < |bindings|
        ensures bindings[j].alias == alias <==> j == i && AliasCompar(bindings[j].alias, alias) == 0
      {
        AliasComparOrder(bindings[j].alias, alias, alias);
        if 0 <= j < i {
          AliasComparOrder(bindings[j].alias, bindings[i].alias, alias);
          AliasComparOrder(bindings[i].alias, alias, alias);
        }
      }
      if i >= 0 && AliasCompar(bindings[i].alias, alias) == 0 {
        return if bindings[i].wwid != wwid then ConflictingWwid else Exists, at;
      }
      i := i + 1;
      if !haveMemory {
        return Failed, at;
      }
      at := i;
      if i < |bindings| {
        AliasComparOrder(alias, bindings[i].alias, alias);
      }
      InsertSorted(bindings, i, Binding(alias, wwid));
      bindings := Inserted(bindings, i, Binding(alias, wwid));
      return Added, at;
    }

    /** delete_binding: remove the first binding of this WWID, if there is one. */
    method Delete(wwid: string) returns (i: int)
      modifies this
      ensures i < |old(bindings)| && (i < 0 ==> bindings == old(bindings))
      ensures i >= 0 ==> bindings == Removed(old(bindings), i) && SameFirst(old(bindings)[i].wwid, wwid, 128)
      ensures NoWwid(old(bindings), if i < 0 then |old(bindings)| else i, wwid)
    {
      i := ForWwid(wwid);
      if i >= 0 {
        bindings := bindings[..i] + bindings[i + 1..];
      }
    }

    /** allocate_binding: add, write the file, take the binding back if that fails. */
    method Allocate(wwid: string, id: int, prefix: string, haveMemory: bool, written: bool)
        returns (alias: Option<string>)
      requires Valid() && |wwid| < 128 && !BoundWwid(bindings, wwid) && id <= INT_MAX
      modifies this
      ensures Valid()
      ensures alias.None? ==> bindings == old(bindings)
      ensures alias.Some? ==> id > 0 && alias.value == prefix + Name(id)
      ensures alias.Some? ==> exists at | 0 <= at <= |old(bindings)| ::
                bindings == Inserted(old(bindings), at, Binding(alias.value, wwid))
      ensures alias.Some? <==> id > 0 && haveMemory && written && !BoundName(old(bindings), prefix + Name(id))
    {
      var ok, name := FormatDevname(id);
      if !ok {
        return None;
      }
      var r;
      ghost var at;
      r, at := Add(prefix + name, wwid, haveMemory);
      if r != Added {
        return None;
      }
      if !written {
        InsertedFirst(old(bindings), at, Binding(prefix + name, wwid));
        var i := Delete(wwid);
        return None;
      }
      return Some(prefix + name);
    }

    /** The first half of get_user_friendly_alias: a binding that is there, or the id of the old alias. */
    method Lookup(wwid: string, aliasOld: string, prefix: string, taken: string -> bool)
        returns (done: bool, alias: Option<string>, id: int)
      requires Valid() && |wwid| < 128 && |aliasOld| < 128
      ensures done <==> BoundWwid(bindings, wwid)
      ensures aliasOld != "" && Binding(aliasOld, wwid) in bindings ==> alias == Some(aliasOld)
      ensures !(aliasOld != "" && Binding(aliasOld, wwid) in bindings) ==>
                forall i | 0 <= i < |bindings| && IsFirst(bindings, i, wwid) ::
                  alias == if taken(bindings[i].alias) then None else Some(bindings[i].alias)
      ensures done && alias.Some? ==> Binding(alias.value, wwid) in bindings
      ensures !done ==> id == if aliasOld == "" || BoundName(bindings, aliasOld) then 0 else Scan(aliasOld, prefix)
    {
      id, done, alias := 0, true, None;
      if aliasOld != "" {
        var i := ForAlias(aliasOld);
        OneBinding(bindings, i, aliasOld, wwid);
        if i >= 0 {
          if bindings[i].wwid == wwid {
            return done, Some(aliasOld), id;
          }
        } else {
          id := ScanDevname(aliasOld, prefix);
        }
      }
      var k := ForWwid(wwid);
      OnlyFirst(bindings, k, wwid);
      if k >= 0 {
        return done, if !taken(bindings[k].alias) then Some(bindings[k].alias) else None, id;
      }
      done := false;
    }

    /**
      get_user_friendly_alias: `taken` tells which aliases other maps use, `haveMemory` and
      `written` whether memory and the bindings file could be obtained and written.
     */
    method GetAlias(wwid: string, aliasOld: string, prefix: string, readOnly: bool,
                    taken: string -> bool, haveMemory: bool, written: bool)
        returns (alias: Option<string>)
      requires Valid() && |wwid| < 128 && |aliasOld| < 128
      modifies this
      ensures Valid()
      // nothing is lost, a failure changes nothing, a result is bound to the requested WWID
      ensures alias.None? ==> bindings == old(bindings)
      ensures alias.Some? ==> Binding(alias.value, wwid) in bindings
      ensures alias.Some? ==> Extends(old(bindings), bindings, Binding(alias.value, wwid))
      ensures BoundWwid(old(bindings), wwid) || readOnly ==> bindings == old(bindings)
      ensures OneAliasPerWwid(old(bindings)) ==> OneAliasPerWwid(bindings)
      // the old alias if it is bound to the WWID, else the first alias of the WWID unless it is in use
      ensures aliasOld != "" && Binding(aliasOld, wwid) in old(bindings) ==> alias == Some(aliasOld)
      ensures !(aliasOld != "" && Binding(aliasOld, wwid) in old(bindings)) ==>
                forall i | 0 <= i < |old(bindings)| && IsFirst(old(bindings), i, wwid) ::
                  alias == if taken(old(bindings)[i].alias) then None else Some(old(bindings)[i].alias)
      // a new binding needs memory, the file, and the right to write it
      ensures !BoundWwid(old(bindings), wwid) && (readOnly || !haveMemory || !written) ==> alias == None
      // an unbound old alias that scans gives the name of its id
      ensures !BoundWwid(old(bindings), wwid) && aliasOld != "" && !BoundName(old(bindings), aliasOld)
              && Scan(aliasOld, prefix) > 0 && !readOnly && haveMemory && written ==>
                var name := prefix + Name(Scan(aliasOld, prefix));
                alias == if BoundName(old(bindings), name) then None else Some(name)
      // so it is kept verbatim
      ensures Keepable(old(bindings), wwid, aliasOld, prefix) && !readOnly && haveMemory && written ==>
                alias == Some(aliasOld)
      // without one, the least unused name is, given bindings that the search is right for
      ensures !BoundWwid(old(bindings), wwid)
              && (aliasOld == "" || BoundName(old(bindings), aliasOld) || Scan(aliasOld, prefix) <= 0)
              && Faithful(old(bindings), prefix) && !readOnly && haveMemory && written ==>
                var o := Search(old(bindings), prefix, taken);
                IsLeastUnused(old(bindings), prefix, taken, o) &&
                alias == if o.Id? then Some(prefix + Name(o.id)) else None
    {
      var done, id;
      done, alias, id := Lookup(wwid, aliasOld, prefix, taken);
      if done {
        return;
      }
      alias := None;
      if id > 0 && prefix <= aliasOld && BlankFree(aliasOld[|prefix|..]) {
        ScanInverse(aliasOld, prefix, id);
      }
      IdRange(aliasOld, prefix);
      if id <= 0 {
        id := GetFreeId(bindings, prefix, taken);
        LeastName(bindings, prefix, taken);
        if id <= 0 {
          return None;
        }
      }
      if readOnly {
        return None;
      }
      alias := Allocate(wwid, id, prefix, haveMemory, written);
      if alias.Some? {
        InsertUnique(old(bindings), bindings, Binding(alias.value, wwid));
      }
    }
  }

  lemma LeastName(table: seq<Binding>, prefix: string, taken: string -> bool)
    ensures Faithful(table, prefix) ==> IsLeastUnused(table, prefix, taken, Search(table, prefix, taken))
  {
    if Faithful(table, prefix) {
      FaithfulIsRight(table, prefix, taken);
    }
  }

  lemma InsertUnique(before: seq<Binding>, table: seq<Binding>, b: Binding)
    requires !BoundWwid(before, b.wwid) && exists at | 0 <= at <= |before| :: table == Inserted(before, at, b)
    ensures OneAliasPerWwid(before) ==> OneAliasPerWwid(table)
  {
  }

  /** The binding of an alias that was looked for is the only one. */
  lemma OneBinding(table: seq<Binding>, i: int, alias: string, wwid: string)
    requires StrictlySorted(table) && |alias| < WWID_SIZE && -1 <= i < |table|
    requires i >= 0 ==> SameFirst(table[i].alias, alias, WWID_SIZE)
    requires NoAlias(table, if i < 0 then |table| else i, alias)
    ensures BoundName(table, alias) <==> i >= 0
    ensures Binding(alias, wwid) in table <==> i >= 0 && table[i].wwid == wwid
    ensures i >= 0 ==> table[i].alias == alias
  {
    if Binding(alias, wwid) in table {
      var j :| 0 <= j < |table| && table[j] == Binding(alias, wwid);
      if 0 <= i < j {
        AliasComparOrder(table[i].alias, table[j].alias, alias);
      }
    }
  }

  lemma OnlyFirst(table: seq<Binding>, k: int, wwid: string)
    requires |wwid| < WWID_SIZE && -1 <= k < |table|
    requires k >= 0 ==> SameFirst(table[k].wwid, wwid, WWID_SIZE)
    requires NoWwid(table, if k < 0 then |table| else k, wwid)
    ensures BoundWwid(table, wwid) <==> k >= 0
    ensures k >= 0 ==> IsFirst(table, k, wwid)
    ensures forall i | 0 <= i < |table| && IsFirst(table, i, wwid) :: i == k
  {
  }

  /** The first binding of the WWID. */
  predicate IsFirst(table: seq<Binding>, i: nat, wwid: string)
    requires i < |table|
  {
    table[i].wwid == wwid && forall j | 0 <= j < i :: table[j].wwid != wwid
  }

  /** The old alias and the WWID are unbound and the alias is a well-formed name of this prefix. */
  predicate Keepable(table: seq<Binding>, wwid: string, aliasOld: string, prefix: string) {
    && !BoundWwid(table, wwid) && !BoundName(table, aliasOld)
    && prefix <= aliasOld && BlankFree(aliasOld[|prefix|..]) && Scan(aliasOld, prefix) > 0
  }

  lemma IdRange(alias: string, prefix: string)
    ensures Scan(alias, prefix) <= INT_MAX
  {
    if prefix <= alias {
      ScanSuffixRange(alias[|prefix|..], 0);
    }
  }

  // ---------------------------------------------------------------- runs

  datatype Request = Request(wwid: string, aliasOld: string, prefix: string, readOnly: bool,
                             taken: string -> bool, haveMemory: bool, written: bool)

  lemma ExtendsKeeps(before: seq<Binding>, table: seq<Binding>, b: Binding, x: Binding)
    requires Extends(before, table, b) && x in before
    ensures x in table
  {
    if table != before {
      var i :| 0 <= i <= |before| && table == Inserted(before, i, b);
      assert before == before[..i] + before[i..];
    }
  }

  /** Every alias handed out is bound to the WWID it was handed out for. */
  ghost predicate Bound(bindings: seq<Binding>, requests: seq<Request>, answers: seq<Option<string>>)
    requires |answers| <= |requests|
  {
    forall k | 0 <= k < |answers| && answers[k].Some? ::
      Binding(answers[k].value, requests[k].wwid) in bindings
  }

  ghost predicate AllIn(b0: seq<Binding>, b: seq<Binding>) { forall x | x in b0 :: x in b }

  lemma BoundKept(start: seq<Binding>, before: seq<Binding>, after: seq<Binding>, requests: seq<Request>,
                  answers: seq<Option<string>>, a: Option<string>)
    requires |answers| < |requests| && AllIn(start, before) && Bound(before, requests, answers)
    requires a.None? ==> after == before
    requires a.Some? ==> Binding(a.value, requests[|answers|].wwid) in after
    requires a.Some? ==> Extends(before, after, Binding(a.value, requests[|answers|].wwid))
    ensures AllIn(start, after) && Bound(after, requests, answers + [a])
  {
    forall x | x in before
      ensures x in after
    {
      if a.Some? {
        ExtendsKeeps(before, after, Binding(a.value, requests[|answers|].wwid), x);
      }
    }
  }

  /**
    Over any sequence of requests the table stays strictly sorted, no binding disappears or
    changes, and every alias handed out stays bound to the WWID it was handed out for.
   */
  method Serve(table: Table, requests: seq<Request>) returns (answers: seq<Option<string>>)
    requires table.Valid()
    requires forall r | r in requests :: |r.wwid| < 128 && |r.aliasOld| < 128
    modifies table
    ensures table.Valid() && |answers| == |requests|
    ensures forall x | x in old(table.bindings) :: x in table.bindings
    ensures forall k | 0 <= k < |answers| && answers[k].Some? ::
              Binding(answers[k].value, requests[k].wwid) in table.bindings
  {
    answers := [];
    for n := 0 to |requests|
      invariant table.Valid() && |answers| == n
      invariant AllIn(old(table.bindings), table.bindings) && Bound(table.bindings, requests, answers)
    {
      var r := requests[n];
      ghost var before := table.bindings;
      assert r in requests;
      var a := table.GetAlias(r.wwid, r.aliasOld, r.prefix, r.readOnly, r.taken, r.haveMemory, r.written);
      BoundKept(old(table.bindings), before, table.bindings, requests, answers, a);
      answers := answers + [a];
    }
  }
}
