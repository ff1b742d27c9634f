/** Words of a text separated by blanks, and decimal numbers. */
module Words {
  import opened Basics

  /** strchop: trailing white space of any kind is removed. */
  function Chop(s: string): string {
    if s != [] && IsSpace(s[|s| - 1]) then Chop(s[..|s| - 1]) else s
  }

  function BlankLen(s: string): (n: nat)
    ensures n <= |s| && (n < |s| ==> s[n] != ' ')
  {
    if s == [] || s[0] != ' ' then 0 else 1 + BlankLen(s[1..])
  }

  function WordLen(s: string): (n: nat)
    ensures n <= |s| && (n < |s| ==> s[n] == ' ') && (s != [] && s[0] != ' ' ==> n > 0)
  {
    if s == [] || s[0] == ' ' then 0 else 1 + WordLen(s[1..])
  }

  /** The words between blanks. */
  function Split(s: string): seq<string> {
    if s == [] then []
    else if s[0] == ' ' then Split(s[1..])
    else [s[..WordLen(s)]] + Split(s[WordLen(s)..])
  }

  ghost predicate IsWord(w: string) { w != [] && ' ' !in w }

  lemma {:induction false} WordLenOf(w: string, rest: string)
    requires ' ' !in w && (rest == [] || rest[0] == ' ')
    ensures WordLen(w + rest) == |w| && (w + rest)[..|w|] == w && (w + rest)[|w|..] == rest
  {
    if w == [] {
      assert w + rest == rest;
    } else {
      WordLenOf(w[1..], rest);
      assert (w + rest)[1..] == w[1..] + rest;
      assert w[0] in w;
    }
  }

  lemma {:induction false} WordLenBlankFree(s: string)
    ensures ' ' !in s[..WordLen(s)]
  {
    if s != [] && s[0] != ' ' {
      WordLenBlankFree(s[1..]);
      assert s[..WordLen(s)] == [s[0]] + s[1..][..WordLen(s[1..])];
    }
  }

  lemma SplitWord(w: string, rest: string)
    requires IsWord(w) && (rest == [] || rest[0] == ' ')
    ensures Split(w + rest) == [w] + Split(rest)
  {
    WordLenOf(w, rest);
    assert (w + rest)[0] == w[0] && w[0] in w;
  }

  /** A blank separates the words on its two sides. */
  lemma {:induction false} SplitConcat(a: string, b: string)
    ensures Split(a + (" " + b)) == Split(a) + Split(b)
    decreases |a|
  {
    var t := " " + b;
    if a == [] {
      assert a + t == t && t[1..] == b;
    } else if a[0] == ' ' {
      SplitConcat(a[1..], b);
      assert (a + t)[1..] == a[1..] + t;
    } else {
      var n := WordLen(a);
      var w, r := a[..n], a[n..];
      WordLenBlankFree(a);
      SplitConcat(r, b);
      assert a == w + r;
      WordInFront(w, r, t, b);
    }
  }

  lemma WordInFront(w: string, r: string, t: string, b: string)
    requires IsWord(w) && (r == [] || r[0] == ' ') && t != [] && t[0] == ' ' && Split(r + t) == Split(r) + Split(b)
    ensures Split(w + r + t) == Split(w + r) + Split(b)
  {
    SeqAssoc(w, r, t);
    SplitWord(w, r);
    SplitWord(w, r + t);
    SeqAssoc([w], Split(r), Split(b));
  }

  /** Leading blanks make no difference. */
  lemma {:induction false} SplitSkips(s: string)
    ensures Split(s) == Split(s[BlankLen(s)..])
  {
    if s != [] && s[0] == ' ' {
      SplitSkips(s[1..]);
      assert s[1..][BlankLen(s[1..])..] == s[BlankLen(s)..];
    }
  }

  lemma {:induction false} SplitGivesWords(s: string)
    ensures forall i | 0 <= i < |Split(s)| :: IsWord(Split(s)[i])
    decreases |s|
  {
    if s != [] {
      if s[0] == ' ' {
        SplitGivesWords(s[1..]);
      } else {
        WordLenBlankFree(s);
        SplitGivesWords(s[WordLen(s)..]);
      }
    }
  }

  // ---------------------------------------------------------------- reading words one by one

  /**
    Where a reader is: the words ahead, and whether a blank follows the last of them.  At a last word
    with nothing behind it `get_word` returns 0, so that the reader stays and finds it again.
   */
  datatype Cursor = Cursor(words: seq<string>, trailing: bool) {
    function Word(): Option<string> { if words == [] then None else Some(Chop(words[0])) }

    /** After reading a word. */
    function Next(): Cursor {
      if words == [] || (|words| == 1 && !trailing) then this else Cursor(words[1..], trailing)
    }

    /** After passing a word without reading it. */
    function Skip(): Cursor { if words == [] then this else Cursor(words[1..], trailing) }
  }

  ghost function CursorAt(s: string): Cursor { Cursor(Split(s), s != [] && s[|s| - 1] == ' ') }

  ghost predicate Points(s: string, p: nat, c: Cursor) {
    p <= |s| && Split(s[p..]) == c.words && (c.words != [] ==> c.trailing == (s[|s| - 1] == ' '))
  }

  /** What is left after the first word is empty exactly if the text ends with it, or only blanks follow. */
  lemma {:induction false} LastWord(s: string)
    requires s != [] && s[|s| - 1] != ' '
    ensures Split(s) != []
    decreases |s|
  {
    if s[0] == ' ' {
      LastWord(s[1..]);
    }
  }

  /** A text that is a word and a rest ends with the word, or has another word unless it ends in a blank. */
  lemma EndOf(w: string, r: string, u: string)
    requires IsWord(w) && u == w + r
    ensures r == [] ==> u[|u| - 1] != ' '
    ensures r != [] && u[|u| - 1] != ' ' ==> Split(r) != []
  {
    if r == [] {
      assert w[|w| - 1] in w && u == w;
    } else if u[|u| - 1] != ' ' {
      assert r[|r| - 1] == u[|u| - 1];
      LastWord(r);
    }
  }

  lemma SplitAt(u: string, n: nat, w: string, r: string)
    requires n == WordLen(u) && n > 0 && w == u[..n] && r == u[n..]
    ensures u == w + r && IsWord(w) && Split(u) == [w] + Split(r)
  {
    WordLenBlankFree(u);
    assert u == w + r;
    SplitWord(w, r);
  }

  lemma LastChar(t: string, b: nat)
    requires b < |t|
    ensures t[b..][|t| - b - 1] == t[|t| - 1]
  {
  }

  /** The first word of t, n characters after b blanks. */
  lemma FirstWord(t: string, b: nat, n: nat, u: string, w: string, r: string)
    requires b == BlankLen(t) && u == t[b..] && n == WordLen(u) && w == u[..n] && r == u[n..]
    ensures n == 0 ==> Split(t) == []
    ensures n > 0 ==> Split(t) == [w] + Split(r) && |t| > 0 && IsWord(w)
    ensures n > 0 && r == [] ==> t[|t| - 1] != ' '
    ensures n > 0 && r != [] && t[|t| - 1] != ' ' ==> Split(r) != []
  {
    SplitSkips(t);
    if n > 0 {
      SplitAt(u, n, w, r);
      EndOf(w, r, u);
      LastChar(t, b);
    }
  }

  lemma Suffixes(s: string, p: nat, b: nat, n: nat)
    requires p + b + n <= |s|
    ensures s[p..][b..] == s[p + b..] && s[p..][b..][n..] == s[p + b + n..] && s[p..][b..][..n] == s[p + b..p + b + n]
    ensures p < |s| ==> s[p..][|s| - p - 1] == s[|s| - 1]
  {
  }

  lemma CursorAfter(c: Cursor, w: string, rest: seq<string>, atEnd: bool)
    requires c.words == [w] + rest && if atEnd then rest == [] && !c.trailing else c.trailing || rest != []
    ensures c.Skip() == Cursor(rest, c.trailing) && c.Next() == if atEnd then c else c.Skip()
  {
    assert c.words[1..] == rest;
  }

  /** The word at the start of t and what comes after it. */
  lemma ReadParts(t: string, b: nat, n: nat, u: string, w: string, r: string, c: Cursor)
    requires b == BlankLen(t) && u == t[b..] && n == WordLen(u) && w == u[..n] && r == u[n..]
    requires c.words == Split(t) && (c.words != [] ==> t != [] && c.trailing == (t[|t| - 1] == ' '))
    ensures n == 0 ==> c.words == []
    ensures n > 0 ==> c.words != [] && c.words[0] == w && c.Skip() == Cursor(Split(r), c.trailing)
    ensures n > 0 ==> c.Next() == if r == [] then c else c.Skip()
  {
    FirstWord(t, b, n, u, w, r);
    if n > 0 {
      CursorAfter(c, w, Split(r), r == []);
    }
  }

  lemma NonemptyAhead(s: string, p: nat)
    requires p <= |s| && Split(s[p..]) != []
    ensures p < |s| && s[p..][|s| - p - 1] == s[|s| - 1]
  {
    assert p < |s|;
    LastChar(s, p);
  }

  lemma ReadAt(s: string, p: nat, c: Cursor, b: nat, n: nat, t: string, u: string, w: string, r: string)
    requires Points(s, p, c) && t == s[p..] && b == BlankLen(t) && u == t[b..] && n == WordLen(u) && w == u[..n] &&
             r == u[n..]
    ensures n == 0 ==> c.words == []
    ensures n > 0 ==> c.words != [] && c.words[0] == w && c.Skip() == Cursor(Split(r), c.trailing)
    ensures n > 0 ==> c.Next() == if r == [] then c else c.Skip()
  {
    if Split(t) != [] {
      NonemptyAhead(s, p);
    }
    ReadParts(t, b, n, u, w, r, c);
  }

  lemma ReadHere(s: string, p: nat, c: Cursor, b: nat, n: nat)
    requires Points(s, p, c) && b == BlankLen(s[p..]) && n == WordLen(s[p + b..])
    ensures n == 0 ==> c.words == [] && c.Next() == c
    ensures n > 0 ==> c.words != [] && c.words[0] == s[p + b..p + b + n] && Points(s, p + b + n, c.Skip())
    ensures n > 0 ==> c.Next() == if p + b + n == |s| then c else c.Skip()
  {
    Suffixes(s, p, b, n);
    ReadAt(s, p, c, b, n, s[p..], s[p + b..], s[p + b..p + b + n], s[p + b + n..]);
  }

  /** get_word */
  method GetWord(text: CString, p: nat, ghost c: Cursor) returns (word: Option<string>, advance: nat)
    requires Points(text, p, c)
    ensures word == c.Word() && p + advance <= |text| && Points(text, p + advance, c.Next())
  {
    var skip, len := ScanWord(text, p, c);
    if len == 0 { return None, 0; }
    var from := p + skip;
    var atEnd := At(text, from + len) == NUL;
    word, advance := Some(Chop(text[from..from + len])), if atEnd then 0 else skip + len;
    assert atEnd <==> from + len == |text|;
  }

  /** get_word without a place for the word */
  method PassWord(text: CString, p: nat, ghost c: Cursor) returns (advance: nat)
    requires Points(text, p, c)
    ensures p + advance <= |text| && Points(text, p + advance, c.Skip())
  {
    var skip, len := ScanWord(text, p, c);
    if len == 0 { return 0; }
    return skip + len;
  }

  /** The two scanning loops, and what they find in terms of words. */
  method ScanWord(text: CString, p: nat, ghost c: Cursor) returns (skip: nat, len: nat)
    requires Points(text, p, c)
    ensures p + skip + len <= |text| && (len == 0 ==> c.words == [] && c.Next() == c)
    ensures len > 0 ==> c.words != [] && c.words[0] == text[p + skip..p + skip + len]
    ensures len > 0 ==> Points(text, p + skip + len, c.Skip())
    ensures len > 0 ==> c.Next() == if p + skip + len == |text| then c else c.Skip()
  {
    skip := ScanBlanks(text, p);
    len := ScanLetters(text, p + skip);
    ReadHere(text, p, c, skip, len);
  }

  method ScanBlanks(text: CString, p: nat) returns (skip: nat)
    requires p <= |text|
    ensures skip == BlankLen(text[p..])
  {
    skip := 0;
    while At(text, p + skip) == ' '
      invariant p + skip <= |text| && skip + BlankLen(text[p + skip..]) == BlankLen(text[p..])
      decreases |text| - p - skip
    {
      assert text[p + skip..][1..] == text[p + (skip + 1)..];
      skip := skip + 1;
    }
  }

  method ScanLetters(text: CString, p: nat) returns (len: nat)
    requires p <= |text|
    ensures len == WordLen(text[p..])
  {
    len := 0;
    while At(text, p + len) != ' ' && At(text, p + len) != NUL
      invariant p + len <= |text| && len + WordLen(text[p + len..]) == WordLen(text[p..])
      decreases |text| - p - len
    {
      assert text[p + len..][1..] == text[p + (len + 1)..];
      len := len + 1;
    }
  }

  // ---------------------------------------------------------------- numbers

  predicate IsDigit(c: char) { '0' <= c <= '9' }

  function DigitOf(d: nat): (c: char)
    requires d < 10
    ensures IsDigit(c) && (c as int) - ('0' as int) == d
  {
    (d + '0' as int) as char
  }

  function Decimal(n: nat): (s: string)
    ensures s != []
  {
    if n < 10 then [DigitOf(n)] else Decimal(n / 10) + [DigitOf(n % 10)]
  }

  /** %d */
  function Itoa(n: int): (s: string)
    ensures s != []
  {
    if n < 0 then "-" + Decimal(-n) else Decimal(n)
  }

  /** Value of the leading digits, after acc. */
  function Value(s: string, acc: nat): nat {
    if s == [] || !IsDigit(s[0]) then acc else Value(s[1..], 10 * acc + (s[0] as int - '0' as int))
  }

  function SpaceLen(s: string): (n: nat)
    ensures n <= |s|
  {
    if s == [] || !IsSpace(s[0]) then 0 else 1 + SpaceLen(s[1..])
  }

  /** atoi: white space, a sign, digits; 0 without digits. */
  function Atoi(s: string): int {
    var t := s[SpaceLen(s)..];
    if t != [] && t[0] == '-' then 0 - Value(t[1..], 0)
    else if t != [] && t[0] == '+' then Value(t[1..], 0)
    else Value(t, 0)
  }

  ghost predicate AllDigits(s: string) { forall i | 0 <= i < |s| :: IsDigit(s[i]) }

  lemma {:induction false} ValueConcat(a: string, b: string, acc: nat)
    requires AllDigits(a)
    ensures Value(a + b, acc) == Value(b, Value(a, acc))
    decreases |a|
  {
    if a == [] {
      assert a + b == b;
    } else {
      ValueConcat(a[1..], b, 10 * acc + (a[0] as int - '0' as int));
      assert (a + b)[1..] == a[1..] + b;
    }
  }

  lemma {:induction false} ValueDecimal(n: nat)
    ensures AllDigits(Decimal(n)) && Value(Decimal(n), 0) == n
  {
    if n >= 10 {
      ValueDecimal(n / 10);
      var d := [DigitOf(n % 10)];
      ValueConcat(Decimal(n / 10), d, 0);
      assert d[1..] == [];
      assert Value(d, n / 10) == Value([], 10 * (n / 10) + n % 10);
    } else {
      assert Decimal(n)[1..] == [];
    }
  }

  /** Numbers are decimal. */
  lemma AtoiDigits(w: string, d: char)
    requires (forall i | 0 <= i < |w| :: '0' <= w[i] <= '9') && '0' <= d <= '9'
    ensures Atoi(w + [d]) == 10 * Atoi(w) + (d as int - '0' as int) && Atoi("-" + w) == -Atoi(w)
  {
    var s, m := w + [d], "-" + w;
    ValueConcat(w, [d], 0);
    assert [d][1..] == [];
    assert SpaceLen(s) == 0 && s[0..] == s && SpaceLen(w) == 0 && w[0..] == w;
    assert SpaceLen(m) == 0 && m[0..] == m && m[1..] == w;
    assert s[0] == if w == [] then d else w[0];
  }

  /** Printed numbers read back. */
  lemma AtoiItoa(n: int)
    ensures Atoi(Itoa(n)) == n && IsWord(Itoa(n)) && Chop(Itoa(n)) == Itoa(n)
  {
    var s := Itoa(n);
    var d := Decimal(if n < 0 then -n else n);
    ValueDecimal(if n < 0 then -n else n);
    assert SpaceLen(s) == 0 && s[0..] == s;
    assert s[|s| - 1] == d[|d| - 1];
    if n < 0 {
      assert s[1..] == d;
    }
  }
}
