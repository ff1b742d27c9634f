/**
  Count-prefixed option strings such as "1 queue_if_no_path": what the configuration reader accepts,
  and adding a feature.
 */
module Options {
  import opened Basics
  import opened Words

  /** A word of a count-prefixed option: no white space at its end. */
  ghost predicate Clean(ws: seq<string>) { forall i | 0 <= i < |ws| :: IsWord(ws[i]) && Chop(ws[i]) == ws[i] }

  /** The word at idx counts the words after it. */
  ghost predicate Counted(ws: seq<string>, idx: nat) {
    idx < |ws| && Atoi(ws[idx]) == |ws| - 1 - idx && Clean(ws)
  }

  /** buff with more text after a blank */
  function Append(buff: string, more: string): string { buff + (" " + more) }

  lemma SplitOne(w: string)
    requires IsWord(w)
    ensures Split(w) == [w]
  {
    SplitWord(w, "");
    assert w + "" == w;
  }

  lemma AppendWords(buff: string, more: string)
    ensures Split(Append(buff, more)) == Split(buff) + Split(more)
  {
    SplitConcat(buff, more);
  }

  // ---------------------------------------------------------------- what the configuration reader accepts

  const LONG_MAX: int := 0x7fff_ffff_ffff_ffff

  /** White space that separates words for set_arg_str; only the blank separates them for the parser. */
  predicate IsSeparator(ch: char) { IsSpace(ch) && ch != '\n' }

  /** strspn(s + p, spaces) and strcspn(s + p, spaces), as positions */
  function SeparatorEnd(s: string, p: nat): (q: nat)
    requires p <= |s|
    ensures p <= q <= |s| && (q < |s| ==> !IsSeparator(s[q]))
    decreases |s| - p
  {
    if p < |s| && IsSeparator(s[p]) then SeparatorEnd(s, p + 1) else p
  }

  function ArgEnd(s: string, p: nat): (q: nat)
    requires p <= |s|
    ensures p <= q <= |s| && (q < |s| ==> IsSeparator(s[q])) && (p < |s| && !IsSeparator(s[p]) ==> p < q)
    decreases |s| - p
  {
    if p < |s| && !IsSeparator(s[p]) then ArgEnd(s, p + 1) else p
  }

  function SpaceEnd(s: string, p: nat): (q: nat)
    requires p <= |s|
    ensures p <= q <= |s| && (q < |s| ==> !IsSpace(s[q])) && forall k | p <= k < q :: IsSpace(s[k])
    decreases |s| - p
  {
    if p < |s| && IsSpace(s[p]) then SpaceEnd(s, p + 1) else p
  }

  function DigitEnd(s: string, p: nat): (q: nat)
    requires p <= |s|
    ensures p <= q <= |s| && forall k | p <= k < q :: IsDigit(s[k])
    decreases |s| - p
  {
    if p < |s| && IsDigit(s[p]) then DigitEnd(s, p + 1) else p
  }

  /** Where strtol stops; p if there is no number. */
  function NumberEnd(s: string, p: nat): (e: nat)
    requires p <= |s|
    ensures p <= e <= |s|
  {
    var q := SpaceEnd(s, p);
    var d := if q < |s| && (s[q] == '-' || s[q] == '+') then q + 1 else q;
    if DigitEnd(s, d) == d then p else DigitEnd(s, d)
  }

  /** The argument count at p; None if it is no number, out of range, or followed by something else. */
  function CountAt(s: string, p: nat): Option<int>
    requires p <= |s|
  {
    var e, n := NumberEnd(s, p), Atoi(s[p..]);
    if e == p || (e < |s| && !IsSpace(s[e])) || !(-LONG_MAX - 1 <= n <= LONG_MAX) then None else Some(n)
  }

  /** The loop of set_arg_str: index of the last word, and the count, which is -1 if there is none. */
  function ArgScan(s: string, p: nat, idx: int, countIdx: nat, count: int): (int, int)
    requires p <= |s|
    decreases |s| - p
  {
    var q := SeparatorEnd(s, p);
    if q == |s| then (idx, count)
    else if idx + 1 != countIdx then ArgScan(s, ArgEnd(s, q), idx + 1, countIdx, count)
    else if CountAt(s, q).None? then (idx + 1, -1)
    else ArgScan(s, ArgEnd(s, q), idx + 1, countIdx, CountAt(s, q).value)
  }

  predicate Accepted(s: string, countIdx: nat) {
    var (idx, count) := ArgScan(s, 0, -1, countIdx, -1);
    count >= 0 && count == idx - countIdx
  }

  /** set_arg_str: does it take the value? */
  method SetArgStr(s: CString, countIdx: nat) returns (accepted: bool)
    ensures accepted == Accepted(s, countIdx)
  {
    var p, idx, count := 0, -1, -1;
    while At(s, p) != NUL
      invariant p <= |s| && ArgScan(s, p, idx, countIdx, count) == ArgScan(s, 0, -1, countIdx, -1)
      decreases |s| - p
    {
      p := SeparatorEnd(s, p);
      if At(s, p) == NUL { break; }
      idx := idx + 1;
      if idx == countIdx {
        var n := CountAt(s, p);
        if n.None? { return false; }
        count := n.value;
      }
      p := ArgEnd(s, p);
    }
    accepted := count >= 0 && count == idx - countIdx;
  }

  ghost predicate BlankOnly(s: string) { forall i | 0 <= i < |s| && IsSpace(s[i]) :: s[i] == ' ' }

  /** In a text whose only white space is blanks the words are those of the parser. */
  lemma {:induction false} SeparatorsAreBlanks(s: string, p: nat)
    requires p <= |s| && BlankOnly(s)
    ensures SeparatorEnd(s, p) == p + BlankLen(s[p..])
    decreases |s| - p
  {
    if p < |s| && IsSeparator(s[p]) {
      SeparatorsAreBlanks(s, p + 1);
      assert s[p..][1..] == s[p + 1..];
    }
  }

  lemma {:induction false} ArgsAreWords(s: string, p: nat)
    requires p <= |s| && BlankOnly(s)
    ensures ArgEnd(s, p) == p + WordLen(s[p..])
    decreases |s| - p
  {
    if p < |s| && !IsSeparator(s[p]) {
      ArgsAreWords(s, p + 1);
      assert s[p..][1..] == s[p + 1..];
    }
  }

  lemma {:induction false} ValueStops(w: string, r: string, acc: nat)
    requires r == [] || !IsDigit(r[0])
    ensures Value(w + r, acc) == Value(w, acc)
    decreases |w|
  {
    if w == [] {
      assert w + r == r;
    } else {
      assert (w + r)[1..] == w[1..] + r;
      if IsDigit(w[0]) {
        ValueStops(w[1..], r, 10 * acc + (w[0] as int - '0' as int));
      }
    }
  }

  /** What follows a word does not change its value. */
  lemma AtoiOfWord(w: string, r: string)
    requires w != [] && !IsSpace(w[0]) && (r == [] || IsSpace(r[0]))
    ensures Atoi(w + r) == Atoi(w)
  {
    var t := w + r;
    assert SpaceLen(t) == 0 && SpaceLen(w) == 0 && t[0..] == t && w[0..] == w;
    if w[0] == '-' || w[0] == '+' {
      assert t[1..] == w[1..] + r;
      ValueStops(w[1..], r, 0);
    } else {
      ValueStops(w, r, 0);
    }
  }

  /** The first word behind position p, between q and e, and what follows it. */
  lemma ReadAtPosition(s: string, p: nat, q: nat, e: nat, t: string, u: string, w: string, r: string)
    requires p <= q < e <= |s| && t == s[p..] && u == s[q..] && w == s[q..e] && r == s[e..]
    requires BlankLen(t) == q - p && WordLen(u) == e - q
    ensures Split(t) == [w] + Split(r)
  {
    Pieces(s, p, q, e, t, u, w, r);
    FirstWord(t, q - p, e - q, u, w, r);
  }

  lemma Pieces<T>(s: seq<T>, p: nat, q: nat, e: nat, t: seq<T>, u: seq<T>, w: seq<T>, r: seq<T>)
    requires p <= q < e <= |s| && t == s[p..] && u == s[q..] && w == s[q..e] && r == s[e..]
    ensures u == t[q - p..] && w == u[..e - q] && r == u[e - q..]
  {
  }

  lemma ValueAtPosition(s: string, q: nat, e: nat)
    requires q < e <= |s| && !IsSpace(s[q]) && (e < |s| ==> IsSpace(s[e]))
    ensures Atoi(s[q..]) == Atoi(s[q..e])
  {
    var w, r := s[q..e], s[e..];
    assert s[q..] == w + r;
    AtoiOfWord(w, r);
  }

  lemma WordAtPosition(s: string, p: nat, q: nat, e: nat)
    requires p <= |s| && BlankOnly(s) && q == SeparatorEnd(s, p) < |s| && e == ArgEnd(s, q)
    ensures q < e && Split(s[p..]) == [s[q..e]] + Split(s[e..]) && Atoi(s[q..]) == Atoi(s[q..e])
  {
    SeparatorsAreBlanks(s, p);
    ArgsAreWords(s, q);
    ReadAtPosition(s, p, q, e, s[p..], s[q..], s[q..e], s[e..]);
    ValueAtPosition(s, q, e);
  }

  /** A decimal number, perhaps with a sign. */
  predicate Numeral(w: string) {
    var d := if w != "" && (w[0] == '-' || w[0] == '+') then 1 else 0;
    d < |w| && forall k | d <= k < |w| :: '0' <= w[k] <= '9'
  }

  lemma {:induction false} DigitsThrough(s: string, p: nat, e: nat)
    requires p <= e <= |s| && (forall k | p <= k < e :: IsDigit(s[k])) && (e == |s| || !IsDigit(s[e]))
    ensures DigitEnd(s, p) == e
    decreases e - p
  {
    if p < e {
      DigitsThrough(s, p + 1, e);
    }
  }

  lemma NumberHere(f: string, q: nat, n: nat, w: string, d: nat, x: nat)
    requires q < n <= |f| && w == f[q..n] && d == (if f[q] == '-' || f[q] == '+' then q + 1 else q)
    requires x == DigitEnd(f, d) && (n == |f| || IsSpace(f[n])) && forall k | q <= k < n :: !IsSpace(f[k])
    ensures d < x && (x == |f| || IsSpace(f[x])) <==> Numeral(w)
  {
    assert w[0] == f[q];
    if Numeral(w) {
      DigitsOf(f, q, n, w, d);
      DigitsThrough(f, d, n);
    } else if d < x && (x == |f| || IsSpace(f[x])) {
      NumeralOf(f, q, n, w, d, x);
    }
  }

  lemma DigitsOf(f: string, q: nat, n: nat, w: string, d: nat)
    requires q <= d <= n <= |f| && w == f[q..n] && forall k | d - q <= k < |w| :: '0' <= w[k] <= '9'
    ensures forall k | d <= k < n :: IsDigit(f[k])
  {
    forall k | d <= k < n
      ensures IsDigit(f[k])
    {
      assert w[k - q] == f[k];
    }
  }

  lemma NumeralOf(f: string, q: nat, n: nat, w: string, d: nat, x: nat)
    requires q < n <= |f| && w == f[q..n]
    requires d == if f[q] == '-' || f[q] == '+' then q + 1 else q
    requires d < x == DigitEnd(f, d) && (x == |f| || IsSpace(f[x])) && (n == |f| || IsSpace(f[n]))
    requires forall k | q <= k < n :: !IsSpace(f[k])
    ensures Numeral(w)
  {
    assert x == n;
    assert forall k | 0 <= k < |w| :: w[k] == f[q + k];
  }

  lemma FirstWordEnd(f: string, q: nat, n: nat)
    requires BlankOnly(f) && q < |f| && n == ArgEnd(f, q)
    ensures n == |f| || IsSpace(f[n])
    ensures forall k | q <= k < n :: !IsSpace(f[k])
  {
    NoSeparatorInArg(f, q);
  }

  lemma {:induction false} NoSeparatorInArg(s: string, p: nat)
    requires p <= |s|
    ensures forall k | p <= k < ArgEnd(s, p) :: !IsSeparator(s[k])
    decreases |s| - p
  {
    if p < |s| && !IsSeparator(s[p]) {
      NoSeparatorInArg(s, p + 1);
    }
  }

  /** The argument count that a word stands for. */
  ghost function WordCount(w: string): Option<int> {
    if Numeral(w) && -LONG_MAX - 1 <= Atoi(w) <= LONG_MAX then Some(Atoi(w)) else None
  }

  lemma CountOfWord(s: string, p: nat, q: nat, e: nat)
    requires p <= |s| && BlankOnly(s) && q == SeparatorEnd(s, p) < |s| && e == ArgEnd(s, q)
    ensures q < e && CountAt(s, q) == WordCount(s[q..e])
  {
    FirstWordEnd(s, q, e);
    ValueAtPosition(s, q, e);
    NumberOfWord(s, q, e, s[q..e]);
  }

  lemma NumberOfWord(s: string, q: nat, e: nat, w: string)
    requires q < e <= |s| && w == s[q..e] && (e == |s| || IsSpace(s[e])) && forall k | q <= k < e :: !IsSpace(s[k])
    ensures Numeral(w) <==> NumberEnd(s, q) != q && (NumberEnd(s, q) == |s| || IsSpace(s[NumberEnd(s, q)]))
  {
    var d := if s[q] == '-' || s[q] == '+' then q + 1 else q;
    NumberHere(s, q, e, w, d, DigitEnd(s, d));
    assert SpaceEnd(s, q) == q;
  }

  /** The scan of set_arg_str as one over words. */
  ghost function WordScan(ws: seq<string>, idx: int, countIdx: nat, count: int): (int, int) {
    if ws == [] then (idx, count)
    else if idx + 1 != countIdx then WordScan(ws[1..], idx + 1, countIdx, count)
    else if WordCount(ws[0]).None? then (idx + 1, -1)
    else WordScan(ws[1..], idx + 1, countIdx, WordCount(ws[0]).value)
  }

  lemma {:induction false} ScanCounts(s: string, p: nat, idx: int, countIdx: nat, count: int)
    requires p <= |s| && BlankOnly(s)
    ensures ArgScan(s, p, idx, countIdx, count) == WordScan(Split(s[p..]), idx, countIdx, count)
    decreases |s| - p
  {
    var q := SeparatorEnd(s, p);
    if q == |s| {
      NothingAhead(s, p);
    } else {
      var e := ArgEnd(s, q);
      WordAtPosition(s, p, q, e);
      CountOfWord(s, p, q, e);
      var c := CountAt(s, q);
      ArgScanAt(s, p, q, e, c, idx, countIdx, count);
      ScanCounts(s, e, idx + 1, countIdx, if idx + 1 == countIdx && c.Some? then c.value else count);
      ScanStep(s[q..e], Split(s[e..]), c, idx, countIdx, count);
    }
  }

  lemma ScanStep(w: string, ws: seq<string>, c: Option<int>, idx: int, countIdx: nat, count: int)
    requires c == WordCount(w)
    ensures WordScan([w] + ws, idx, countIdx, count) ==
            if idx + 1 != countIdx then WordScan(ws, idx + 1, countIdx, count)
            else if c.None? then (idx + 1, -1)
            else WordScan(ws, idx + 1, countIdx, c.value)
  {
    assert ([w] + ws)[1..] == ws;
  }

  lemma {:induction false} WordScanIs(ws: seq<string>, idx: int, countIdx: nat, count: int)
    ensures WordScan(ws, idx, countIdx, count) ==
            if idx < countIdx <= idx + |ws| then
              var n := WordCount(ws[countIdx - idx - 1]);
              if n.None? then (countIdx as int, -1) else (idx + |ws|, n.value)
            else (idx + |ws|, count)
    decreases |ws|
  {
    if ws != [] {
      WordScanIs(ws[1..], idx + 1, countIdx, count);
      if WordCount(ws[0]).Some? {
        WordScanIs(ws[1..], idx + 1, countIdx, WordCount(ws[0]).value);
      }
    }
  }

  lemma NothingAhead(s: string, p: nat)
    requires p <= |s| && BlankOnly(s) && SeparatorEnd(s, p) == |s|
    ensures Split(s[p..]) == []
  {
    SeparatorsAreBlanks(s, p);
    SplitSkips(s[p..]);
    assert s[p..][BlankLen(s[p..])..] == [];
  }

  lemma AcceptedBlankOnly(s: string, countIdx: nat)
    requires BlankOnly(s)
    ensures var ws := Split(s);
            Accepted(s, countIdx) <==>
              countIdx < |ws| && Numeral(ws[countIdx]) && Atoi(ws[countIdx]) == |ws| - 1 - countIdx <= LONG_MAX
  {
    ScanCounts(s, 0, -1, countIdx, -1);
    WordScanIs(Split(s), -1, countIdx, -1);
    assert s[0..] == s;
  }

  /** The same text with blanks for all white space. */
  function Blanked(s: string): (t: string)
    ensures |t| == |s|
    ensures forall i | 0 <= i < |s| ::
              t[i] == if s[i] in "\t\n\r" || s[i] == 11 as char || s[i] == 12 as char then ' ' else s[i]
  {
    seq(|s|, i requires 0 <= i < |s| => if IsSpace(s[i]) then ' ' else s[i])
  }

  lemma BlankedBlankOnly(s: string)
    ensures BlankOnly(Blanked(s))
    ensures forall i | 0 <= i < |s| :: IsSpace(Blanked(s)[i]) <==> IsSpace(s[i])
    ensures forall i | 0 <= i < |s| && !IsSpace(s[i]) :: Blanked(s)[i] == s[i]
    ensures BlankOnly(s) ==> Blanked(s) == s
  {
  }

  /** Both texts have white space at the same places. */
  ghost predicate Alike(s: string, t: string) {
    |s| == |t| && forall i | 0 <= i < |s| :: (IsSpace(s[i]) <==> IsSpace(t[i])) && (!IsSpace(s[i]) ==> t[i] == s[i])
  }

  lemma {:induction false} SpaceEndAlike(s: string, t: string, p: nat)
    requires Alike(s, t) && p <= |s|
    ensures SpaceEnd(s, p) == SpaceEnd(t, p)
    decreases |s| - p
  {
    if p < |s| && IsSpace(s[p]) {
      SpaceEndAlike(s, t, p + 1);
    }
  }

  lemma {:induction false} DigitEndAlike(s: string, t: string, p: nat)
    requires Alike(s, t) && p <= |s|
    ensures DigitEnd(s, p) == DigitEnd(t, p)
    decreases |s| - p
  {
    if p < |s| && IsDigit(s[p]) {
      DigitEndAlike(s, t, p + 1);
    }
  }

  lemma NumberEndAlike(s: string, t: string, p: nat)
    requires Alike(s, t) && p <= |s|
    ensures NumberEnd(s, p) == NumberEnd(t, p)
  {
    SpaceEndAlike(s, t, p);
    var q := SpaceEnd(s, p);
    DigitEndAlike(s, t, if q < |s| && (s[q] == '-' || s[q] == '+') then q + 1 else q);
  }

  lemma {:induction false} ValueAlike(s: string, t: string, acc: nat)
    requires Alike(s, t)
    ensures Value(s, acc) == Value(t, acc)
    decreases |s|
  {
    if s != [] && IsDigit(s[0]) {
      ValueAlike(s[1..], t[1..], 10 * acc + (s[0] as int - '0' as int));
    }
  }

  lemma {:induction false} SpaceLenAlike(s: string, t: string)
    requires Alike(s, t)
    ensures SpaceLen(s) == SpaceLen(t)
    decreases |s|
  {
    if s != [] && IsSpace(s[0]) {
      SpaceLenAlike(s[1..], t[1..]);
    }
  }

  lemma {:induction false} SpaceLenStops(s: string)
    ensures SpaceLen(s) < |s| ==> !IsSpace(s[SpaceLen(s)])
    decreases |s|
  {
    if s != [] && IsSpace(s[0]) {
      SpaceLenStops(s[1..]);
    }
  }

  lemma AtoiAlike(s: string, t: string)
    requires Alike(s, t)
    ensures Atoi(s) == Atoi(t)
  {
    SpaceLenAlike(s, t);
    SpaceLenStops(s);
    var u, v := s[SpaceLen(s)..], t[SpaceLen(t)..];
    assert Alike(u, v);
    ValueAlike(u, v, 0);
    if u != [] {
      ValueAlike(u[1..], v[1..], 0);
    }
  }

  lemma CountAtAlike(s: string, t: string, p: nat)
    requires Alike(s, t) && p <= |s|
    ensures CountAt(s, p) == CountAt(t, p)
  {
    NumberEndAlike(s, t, p);
    assert Alike(s[p..], t[p..]);
    AtoiAlike(s[p..], t[p..]);
  }

  lemma {:induction false} EndsAlike(s: string, t: string, p: nat)
    requires Alike(s, t) && '\n' !in s && '\n' !in t && p <= |s|
    ensures SeparatorEnd(s, p) == SeparatorEnd(t, p) && ArgEnd(s, p) == ArgEnd(t, p)
    decreases |s| - p
  {
    if p < |s| {
      EndsAlike(s, t, p + 1);
    }
  }

  /** One turn of the loop: the next word is between q and e, and c the count it stands for. */
  lemma ArgScanAt(s: string, p: nat, q: nat, e: nat, c: Option<int>, idx: int, countIdx: nat, count: int)
    requires p <= |s| && q == SeparatorEnd(s, p) < |s| && e == ArgEnd(s, q) && c == CountAt(s, q)
    ensures ArgScan(s, p, idx, countIdx, count) ==
            if idx + 1 != countIdx then ArgScan(s, e, idx + 1, countIdx, count)
            else if c.None? then (idx + 1, -1)
            else ArgScan(s, e, idx + 1, countIdx, c.value)
  {
  }

  lemma {:induction false} ScanAlike(s: string, t: string, p: nat, idx: int, countIdx: nat, count: int)
    requires Alike(s, t) && '\n' !in s && '\n' !in t && p <= |s|
    ensures ArgScan(s, p, idx, countIdx, count) == ArgScan(t, p, idx, countIdx, count)
    decreases |s| - p
  {
    EndsAlike(s, t, p);
    var q := SeparatorEnd(s, p);
    if q < |s| {
      EndsAlike(s, t, q);
      CountAtAlike(s, t, q);
      var e, c := ArgEnd(s, q), CountAt(s, q);
      ArgScanAt(s, p, q, e, c, idx, countIdx, count);
      ArgScanAt(t, p, q, e, c, idx, countIdx, count);
      ScanAlike(s, t, e, idx + 1, countIdx, if idx + 1 == countIdx && c.Some? then c.value else count);
    }
  }

  /** Options without a line break are accepted exactly if a number in range counts the words behind it. */
  lemma AcceptedExactly(s: string, countIdx: nat)
    requires '\n' !in s
    ensures var ws := Split(Blanked(s));
            Accepted(s, countIdx) <==>
              countIdx < |ws| && Numeral(ws[countIdx]) && Atoi(ws[countIdx]) == |ws| - 1 - countIdx &&
              Atoi(ws[countIdx]) <= 0x7fff_ffff_ffff_ffff
  {
    BlankedBlankOnly(s);
    ScanAlike(s, Blanked(s), 0, -1, countIdx, -1);
    AcceptedBlankOnly(Blanked(s), countIdx);
  }

  /** A line break does not separate words. */
  lemma LineBreakIsInsideWord(a: string, b: string)
    requires a != "" && b != "" && (forall ch | ch in a + b :: !IsSpace(ch))
    ensures Accepted("1 " + (a + ("\n" + b)), 0)
  {
    var w := a + ("\n" + b);
    var s := "1 " + w;
    assert s[0] == '1' && s[1] == ' ' && s[2..] == w;
    assert forall k | 2 <= k < |s| :: !IsSeparator(s[k]) by {
      forall k | 2 <= k < |s|
        ensures !IsSeparator(s[k])
      {
        assert s[k] == w[k - 2];
        assert w[k - 2] == '\n' || w[k - 2] in a + b;
      }
    }
    ArgThrough(s, 2, |s|);
    assert DigitEnd(s, 0) == 1 && NumberEnd(s, 0) == 1;
    assert Atoi(s) == 1 by {
      assert Value(s, 0) == Value(s[1..], 1) == 1;
    }
    assert s[0..] == s;
    assert ArgScan(s, 2, 0, 0, 1) == (1, 1) by {
      assert SeparatorEnd(s, 2) == 2 && ArgScan(s, |s|, 1, 0, 1) == (1, 1);
    }
    assert ArgEnd(s, 0) == 1 && SeparatorEnd(s, 1) == 2;
  }

  /** So they are well formed for the parser. */
  lemma AcceptedIsCounted(s: string, countIdx: nat)
    requires Accepted(s, countIdx) && BlankOnly(s)
    ensures Counted(Split(s), countIdx)
  {
    AcceptedBlankOnly(s, countIdx);
    BlanksOnly(s, Split(s));
  }

  lemma BlanksOnly(s: string, ws: seq<string>)
    requires ws == Split(s) && BlankOnly(s)
    ensures Clean(ws)
  {
    SplitGivesWords(s);
    forall i | 0 <= i < |ws|
      ensures IsWord(ws[i]) && Chop(ws[i]) == ws[i]
    {
      WordsFrom(s, i);
      LastNotSpace(s, ws[i]);
    }
  }

  lemma LastNotSpace(s: string, w: string)
    requires IsWord(w) && BlankOnly(s) && forall ch | ch in w :: ch in s
    ensures Chop(w) == w
  {
    assert w[|w| - 1] in w;
  }

  lemma {:induction false} WordsFrom(s: string, i: nat)
    requires i < |Split(s)|
    ensures forall ch | ch in Split(s)[i] :: ch in s
    decreases |s|
  {
    if s[0] == ' ' {
      WordsFrom(s[1..], i);
    } else if i > 0 {
      WordsFrom(s[WordLen(s)..], i - 1);
    }
  }

  // ---------------------------------------------------------------- adding a feature

  /** The feature occurs between white space. */
  predicate Present(f: string, feat: string) { exists i | 0 < i < |f| :: OccursAt(f, feat, i) }

  predicate OccursAt(f: string, feat: string, i: nat)
    requires 0 < i
  {
    i + |feat| <= |f| && f[i..i + |feat|] == feat && IsSpace(f[i - 1]) && (i + |feat| == |f| || IsSpace(f[i + |feat|]))
  }

  lemma ItoaTidy(n: int)
    ensures NUL !in Itoa(n) && IsWord(Itoa(n)) && forall ch | ch in Itoa(n) :: !IsSpace(ch)
  {
    AtoiItoa(n);
    ValueDecimal(if n < 0 then -n else n);
  }

  /** add_feature for a single word; unchanged if the feature is there or the string has no count. */
  function AddFeature(f: CString, feat: CString): (r: CString) {
    if Present(f, feat) || !Numbered(f) then f else Added(f, NumberEnd(f, 0), Atoi(f[SpaceEnd(f, 0)..]) + 1, feat)
  }

  /** A number and then white space, or nothing, at the front. */
  predicate Numbered(f: string) {
    var e := NumberEnd(f, 0);
    e != 0 && (e == |f| || IsSpace(f[e]))
  }

  /** The feature behind the string, whose number at the front becomes n. */
  function Added(f: CString, e: nat, n: int, feat: CString): CString
    requires e <= |f|
  {
    ItoaTidy(n);
    Append(Itoa(n) + f[e..], feat)
  }

  lemma {:induction false} ArgThrough(s: string, q: nat, e: nat)
    requires q <= e <= |s| && forall k | q <= k < e :: !IsSeparator(s[k])
    ensures ArgEnd(s, q) == ArgEnd(s, e)
    decreases e - q
  {
    if q < e {
      ArgThrough(s, q + 1, e);
    }
  }

  lemma {:induction false} BlanksAreSpaces(s: string, p: nat)
    requires p <= |s| && BlankOnly(s)
    ensures SeparatorEnd(s, p) == SpaceEnd(s, p)
    decreases |s| - p
  {
    if p < |s| && IsSpace(s[p]) {
      BlanksAreSpaces(s, p + 1);
    }
  }

  /** The number that add_feature finds is the first word. */
  lemma CountIsFirstWord(f: string, q: nat, e: nat)
    requires BlankOnly(f) && q == SpaceEnd(f, 0) && e == NumberEnd(f, 0) && e > 0 && (e < |f| ==> IsSpace(f[e]))
    ensures q < e && Split(f) == [f[q..e]] + Split(f[e..]) && Atoi(f[q..]) == Atoi(f[q..e])
  {
    BlanksAreSpaces(f, 0);
    ArgThrough(f, q, e);
    assert ArgEnd(f, e) == e;
    assert f[0..] == f;
    WordAtPosition(f, 0, q, e);
  }

  /** An accepted string stays one: the count goes up with the words. */
  lemma AddFeatureCounts(f: CString, feat: CString)
    requires BlankOnly(f) && Counted(Split(f), 0) && feat != "" && forall ch | ch in feat :: !IsSpace(ch)
    ensures var r := AddFeature(f, feat);
            BlankOnly(r) && Counted(Split(r), 0) &&
            (r == f || Split(r) == [Itoa(|Split(f)|)] + Split(f)[1..] + [feat])
  {
    var r, q, e := AddFeature(f, feat), SpaceEnd(f, 0), NumberEnd(f, 0);
    if r != f {
      CountIsFirstWord(f, q, e);
      var n := Atoi(f[q..]) + 1;
      FeatureAppended(f, q, e, n, feat);
    }
  }

  lemma FeatureAppended(f: string, q: nat, e: nat, n: int, feat: string)
    requires BlankOnly(f) && q < e <= |f| && (e < |f| ==> IsSpace(f[e])) && Split(f) == [f[q..e]] + Split(f[e..])
    requires n == |Split(f)| && feat != "" && forall ch | ch in feat :: !IsSpace(ch)
    ensures var r := Append(Itoa(n) + f[e..], feat);
            BlankOnly(r) && Split(r) == [Itoa(n)] + Split(f)[1..] + [feat] && Counted(Split(r), 0)
  {
    var tail := f[e..];
    var g := Itoa(n) + tail;
    var r := Append(g, feat);
    ItoaTidy(n);
    AtoiItoa(n);
    SplitWord(Itoa(n), tail);
    AppendWords(g, feat);
    SplitOne(feat);
    assert Split(f)[1..] == Split(tail);
    AppendBlankOnly(Itoa(n), tail, feat);
    BlanksOnly(r, Split(r));
  }

  lemma AppendBlankOnly(w: string, tail: string, feat: string)
    requires BlankOnly(tail) && (forall ch | ch in w :: !IsSpace(ch)) && forall ch | ch in feat :: !IsSpace(ch)
    ensures BlankOnly(Append(w + tail, feat))
  {
  }

  // ---------------------------------------------------------------- exactly which features are added

  ghost predicate Plain(feat: string) { feat != "" && forall ch | ch in feat :: !IsSpace(ch) }

  /** w stands at i between blanks. */
  ghost predicate StandsAt(s: string, w: string, i: nat) {
    w != "" && i + |w| <= |s| && s[i..i + |w|] == w && s[i] != ' ' && (i + |w| == |s| || s[i + |w|] == ' ') &&
    (i == 0 || s[i - 1] == ' ')
  }

  /** A word of s: where it stands. */
  lemma {:induction false} WordOccurs(s: string, k: nat) returns (i: nat)
    requires k < |Split(s)|
    ensures StandsAt(s, Split(s)[k], i) && (k > 0 ==> i > 0)
    decreases |s|
  {
    if s[0] == ' ' {
      i := WordOccurs(s[1..], k);
      Shifted(s, 1, i, Split(s)[k]);
      i := i + 1;
    } else if k == 0 {
      i := 0;
    } else {
      var n := WordLen(s);
      i := WordOccurs(s[n..], k - 1);
      Shifted(s, n, i, Split(s)[k]);
      i := i + n;
    }
  }

  /** A word of the rest of s, seen from the start of s. */
  lemma Shifted(s: string, n: nat, i: nat, w: string)
    requires 0 < n <= |s| && StandsAt(s[n..], w, i) && (s[n - 1] == ' ' || (n < |s| && s[n] == ' '))
    ensures StandsAt(s, w, n + i)
  {
    assert s[n..][i] == s[n + i] && s[n..][i..i + |w|] == s[n + i..n + i + |w|];
    if i > 0 {
      assert s[n..][i - 1] == s[n + i - 1];
    }
  }

  lemma OccurrenceIsWord(f: string, feat: string, i: nat)
    requires BlankOnly(f) && Plain(feat) && 0 < i && OccursAt(f, feat, i)
    ensures feat in Split(f)
  {
    var a, b, r := f[..i - 1], f[i..], f[i + |feat|..];
    assert f == a + (" " + b) && b == feat + r;
    assert ' ' !in feat;
    SplitConcat(a, b);
    SplitWord(feat, r);
    assert Split(b)[0] == feat;
  }

  /** Whether a feature is present is a matter of the words behind the count. */
  lemma PresentExactly(f: string, feat: string)
    requires BlankOnly(f) && Plain(feat) && Split(f) != [] && Split(f)[0] != feat
    ensures Present(f, feat) <==> feat in Split(f)[1..]
  {
    var ws := Split(f);
    HeadTail(ws);
    if Present(f, feat) {
      var i :| 0 < i < |f| && OccursAt(f, feat, i);
      OccurrenceIsWord(f, feat, i);
    }
    if feat in ws[1..] {
      var k :| 0 <= k < |ws[1..]| && ws[1..][k] == feat;
      var i := WordOccurs(f, k + 1);
      assert OccursAt(f, feat, i);
    }
  }

  lemma HeadTail<T>(s: seq<T>)
    requires s != []
    ensures s == [s[0]] + s[1..]
  {
  }

  /** The string starts with a number exactly if its first word is one. */
  lemma NumberExactly(f: string, q: nat, n: nat)
    requires BlankOnly(f) && q == SpaceEnd(f, 0) < |f| && n == ArgEnd(f, q)
    ensures q < n && Split(f) != [] && Split(f)[0] == f[q..n]
    ensures Numbered(f) <==> Numeral(f[q..n])
  {
    BlanksAreSpaces(f, 0);
    assert f[0..] == f;
    WordAtPosition(f, 0, q, n);
    FirstWordEnd(f, q, n);
    var d := if f[q] == '-' || f[q] == '+' then q + 1 else q;
    NumberHere(f, q, n, f[q..n], d, DigitEnd(f, d));
  }

  /** The words after adding a feature: nothing changes exactly if it is there, or no number comes first. */
  lemma AddFeatureExactly(f: CString, feat: CString)
    requires Counted(Split(Blanked(f)), 0) && Plain(feat) && !Numeral(feat)
    ensures var ws := Split(Blanked(f)); var r := AddFeature(f, feat);
            if !Numeral(ws[0]) || feat in ws[1..] then r == f
            else Split(Blanked(r)) == [Itoa(|ws|)] + ws[1..] + [feat]
  {
    BlankedBlankOnly(f);
    AddFeatureBlankOnly(Blanked(f), feat);
    AddFeatureAlike(f, Blanked(f), feat);
    var ws := Split(Blanked(f));
    if Numeral(ws[0]) && feat !in ws[1..] {
      assert |[Itoa(|ws|)] + ws[1..] + [feat]| != |ws|;
    }
  }

  lemma PresentAlike(f: string, g: string, feat: string)
    requires Alike(f, g) && Plain(feat) && Present(f, feat)
    ensures Present(g, feat)
  {
    var i :| 0 < i < |f| && OccursAt(f, feat, i);
    forall k | 0 <= k < |feat|
      ensures g[i..i + |feat|][k] == feat[k]
    {
      assert f[i..i + |feat|][k] == f[i + k] && feat[k] in feat;
    }
    assert OccursAt(g, feat, i);
  }

  lemma AppendedIsPresent(buff: string, feat: string)
    requires feat != ""
    ensures Present(Append(buff, feat), feat)
  {
    var r, i := Append(buff, feat), |buff| + 1;
    assert r[i - 1] == ' ' && r[i..i + |feat|] == feat;
    assert OccursAt(r, feat, i);
  }

  /** What is added is there afterwards, so the string has changed. */
  lemma AddedIsNew(f: CString, feat: CString)
    requires Plain(feat)
    ensures AddFeature(f, feat) == f <==> Present(f, feat) || !Numbered(f)
  {
    if !Present(f, feat) && Numbered(f) {
      var n, e := Atoi(f[SpaceEnd(f, 0)..]) + 1, NumberEnd(f, 0);
      AppendedIsPresent(Itoa(n) + f[e..], feat);
      assert AddFeature(f, feat) == Added(f, e, n, feat);
    }
  }

  lemma AddedIs(f: CString, feat: CString, q: nat, e: nat, n: int)
    requires !Present(f, feat) && Numbered(f) && q == SpaceEnd(f, 0) && e == NumberEnd(f, 0) && n == Atoi(f[q..])
    ensures AddFeature(f, feat) == Added(f, e, n + 1, feat)
  {
  }

  /** White space of any kind makes no difference to adding a feature. */
  lemma AddFeatureAlike(f: CString, g: CString, feat: CString)
    requires Plain(feat) && g == Blanked(f)
    ensures Blanked(AddFeature(f, feat)) == AddFeature(g, feat)
    ensures AddFeature(f, feat) == f <==> AddFeature(g, feat) == g
  {
    BlankedBlankOnly(f);
    if Present(f, feat) {
      PresentAlike(f, g, feat);
    } else if Present(g, feat) {
      PresentAlike(g, f, feat);
    }
    SpaceEndAlike(f, g, 0);
    NumberEndAlike(f, g, 0);
    AddedIsNew(f, feat);
    AddedIsNew(g, feat);
    if Numbered(f) && !Present(f, feat) {
      AddedAlike(f, g, feat, SpaceEnd(f, 0), NumberEnd(f, 0));
    }
  }

  lemma AddedAlike(f: CString, g: CString, feat: CString, q: nat, e: nat)
    requires Plain(feat) && g == Blanked(f) && Alike(f, g) && q == SpaceEnd(f, 0) == SpaceEnd(g, 0)
    requires e == NumberEnd(f, 0) == NumberEnd(g, 0)
    requires !Present(f, feat) && Numbered(f) && !Present(g, feat) && Numbered(g)
    ensures Blanked(AddFeature(f, feat)) == AddFeature(g, feat)
  {
    assert Alike(f[q..], g[q..]);
    AtoiAlike(f[q..], g[q..]);
    var n := Atoi(f[q..]);
    AddedIs(f, feat, q, e, n);
    AddedIs(g, feat, q, e, n);
    ItoaTidy(n + 1);
    BlankedParts(Itoa(n + 1), f, e, feat);
  }

  lemma BlankedParts(n: string, f: string, e: nat, feat: string)
    requires e <= |f| && Plain(feat) && forall ch | ch in n :: !IsSpace(ch)
    ensures Blanked(Append(n + f[e..], feat)) == Append(n + Blanked(f)[e..], feat)
  {
    var r := Append(n + f[e..], feat);
    forall i | 0 <= i < |r|
      ensures Blanked(r)[i] == Append(n + Blanked(f)[e..], feat)[i]
    {
      if i < |n| {
        assert r[i] == n[i] && n[i] in n;
      } else if i > |n| + |f| - e {
        assert r[i] == feat[i - (|n| + |f| - e + 1)] && r[i] in feat;
      }
    }
  }

  lemma AddFeatureBlankOnly(f: CString, feat: CString)
    requires BlankOnly(f) && Counted(Split(f), 0) && Plain(feat) && !Numeral(feat)
    ensures var ws := Split(f); var r := AddFeature(f, feat);
            if !Numeral(ws[0]) || feat in ws[1..] then r == f
            else Split(r) == [Itoa(|ws|)] + ws[1..] + [feat]
  {
    var q := SpaceEnd(f, 0);
    SomethingBehind(f, q);
    NumberExactly(f, q, ArgEnd(f, q));
    if Numeral(Split(f)[0]) {
      PresentExactly(f, feat);
      if !Present(f, feat) {
        Lengthened(f, feat);
      }
    } else {
      NotNumbered(f, feat);
    }
  }

  lemma NotNumbered(f: CString, feat: CString)
    requires !Numbered(f)
    ensures AddFeature(f, feat) == f
  {
  }

  lemma SomethingBehind(f: string, q: nat)
    requires BlankOnly(f) && Split(f) != [] && q == SpaceEnd(f, 0)
    ensures q < |f|
  {
    BlanksAreSpaces(f, 0);
    assert f[0..] == f;
    if q == |f| {
      NothingAhead(f, 0);
    }
  }

  /** An added feature shows. */
  lemma Lengthened(f: CString, feat: CString)
    requires BlankOnly(f) && Counted(Split(f), 0) && Plain(feat) && !Present(f, feat)
    requires Numbered(f)
    ensures Split(AddFeature(f, feat)) == [Itoa(|Split(f)|)] + Split(f)[1..] + [feat]
  {
    AddFeatureCounts(f, feat);
    AddedIsNew(f, feat);
  }

  const QUEUE: CString := "queue_if_no_path"
  const RETAIN: CString := "retain_attached_hw_handler"

  lemma FeaturesArePlain()
    ensures Plain(QUEUE) && Plain(RETAIN) && !Numeral(QUEUE) && !Numeral(RETAIN)
  {
    assert QUEUE[0] == 'q' && RETAIN[0] == 'r';
  }

  const NO_PATH_RETRY_UNDEF: int := 0
  const NO_PATH_RETRY_FAIL: int := -1
  const NO_PATH_RETRY_QUEUE: int := -2

  const KERNEL_4_3: nat := 0x40300

  /** What decides about features: what to do without paths, whether that is over, and the hardware handler. */
  datatype Settings =
    Settings(noPathRetry: int, inRecovery: bool, retryTick: int, activePaths: nat, retain: bool, kernel: nat)

  /** The switch at the start of assemble_map. */
  predicate Queues(c: Settings) {
    if c.noPathRetry == NO_PATH_RETRY_UNDEF || c.noPathRetry == NO_PATH_RETRY_FAIL then false
    else if c.noPathRetry == NO_PATH_RETRY_QUEUE then true
    else !(c.inRecovery && c.retryTick == 0 && c.activePaths == 0)
  }

  predicate Retains(c: Settings) { c.retain && c.kernel < KERNEL_4_3 }

  function AddIf(wanted: bool, f: CString, feat: CString): CString { if wanted then AddFeature(f, feat) else f }

  /** The features at the time of printing. */
  function WithFeatures(f: CString, c: Settings): CString { AddIf(Retains(c), AddIf(Queues(c), f, QUEUE), RETAIN) }

  /** A string that the reader accepts, with blanks only. */
  ghost predicate Good(f: string) { BlankOnly(f) && Counted(Split(f), 0) }

  lemma AddIfGood(wanted: bool, f: CString, feat: CString)
    requires Good(f) && Plain(feat)
    ensures Good(AddIf(wanted, f, feat))
  {
    AddFeatureCounts(f, feat);
  }

  lemma WithFeaturesGood(f: CString, c: Settings)
    requires Good(f)
    ensures Good(WithFeatures(f, c))
  {
    FeaturesArePlain();
    AddIfGood(Queues(c), f, QUEUE);
    AddIfGood(Retains(c), AddIf(Queues(c), f, QUEUE), RETAIN);
  }

  /** Words that start with a count, with one more if it is wanted and missing. */
  ghost function WithWord(ws: seq<string>, wanted: bool, w: string): seq<string>
    requires ws != []
  {
    if wanted && Numeral(ws[0]) && w !in ws[1..] then [Itoa(|ws|)] + ws[1..] + [w] else ws
  }

  /** The features a map is to have, as words, from what no_path_retry and the other settings say. */
  ghost function WantedFeatures(ws: seq<string>, c: Settings): seq<string>
    requires ws != []
  {
    WithWord(WithWord(ws, c.noPathRetry == -2 || (c.noPathRetry != 0 && c.noPathRetry != -1 &&
                                                  (!c.inRecovery || c.retryTick != 0 || c.activePaths > 0)),
                      "queue_if_no_path"),
             c.retain && c.kernel < 4 * 65536 + 3 * 256, "retain_attached_hw_handler")
  }

  lemma AddIfWords(wanted: bool, f: CString, feat: CString)
    requires Good(f) && Plain(feat) && !Numeral(feat)
    ensures Good(AddIf(wanted, f, feat)) && Split(AddIf(wanted, f, feat)) == WithWord(Split(f), wanted, feat)
  {
    AddIfGood(wanted, f, feat);
    AddFeatureBlankOnly(f, feat);
  }

  lemma FeaturesExactly(f: CString, c: Settings)
    requires Good(f)
    ensures Split(WithFeatures(f, c)) == WantedFeatures(Split(f), c)
  {
    FeaturesArePlain();
    AddIfWords(Queues(c), f, QUEUE);
    AddIfWords(Retains(c), AddIf(Queues(c), f, QUEUE), RETAIN);
  }

  /** For a string with a number in front: which features there are, and that nothing else changes. */
  lemma FeaturesMean(ws: seq<string>, c: Settings)
    requires ws != [] && Numeral(ws[0])
    ensures var out := WantedFeatures(ws, c);
            var queue := c.noPathRetry == -2 || (c.noPathRetry != 0 && c.noPathRetry != -1 &&
                                                 !(c.inRecovery && c.retryTick == 0 && c.activePaths == 0));
            out != [] && ws[1..] <= out[1..] &&
            ("queue_if_no_path" in out[1..] <==> "queue_if_no_path" in ws[1..] || queue) &&
            ("retain_attached_hw_handler" in out[1..] <==>
             "retain_attached_hw_handler" in ws[1..] || (c.retain && c.kernel < 0x40300)) &&
            forall w | w in out[1..] :: w in ws[1..] || w == "queue_if_no_path" || w == "retain_attached_hw_handler"
  {
    var queue := c.noPathRetry == -2 || (c.noPathRetry != 0 && c.noPathRetry != -1 &&
                                         (!c.inRecovery || c.retryTick != 0 || c.activePaths > 0));
    FeaturesArePlain();
    var one := WithWord(ws, queue, "queue_if_no_path");
    WithWordMeans(ws, queue, "queue_if_no_path");
    WithWordMeans(one, c.retain && c.kernel < 0x40300, "retain_attached_hw_handler");
  }

  lemma WithWordMeans(ws: seq<string>, wanted: bool, w: string)
    requires ws != [] && Numeral(ws[0])
    ensures var out := WithWord(ws, wanted, w);
            out != [] && Numeral(out[0]) && ws[1..] <= out[1..] && (w in out[1..] <==> w in ws[1..] || wanted) &&
            forall x | x in out[1..] && x != w :: x in ws[1..]
  {
    ItoaNumeral(|ws|);
    var out := [Itoa(|ws|)] + ws[1..] + [w];
    assert out[1..] == ws[1..] + [w];
  }

  lemma ItoaNumeral(n: nat)
    ensures Numeral(Itoa(n))
  {
    ValueDecimal(n);
  }
}
