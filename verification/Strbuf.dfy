/** Growing string buffers and the quoting printer. */
module Strbuf {
  import opened Basics

  const UINT_RANGE: nat := 0x1_0000_0000
  const SIZE_MAX: nat := 0xffff_ffff_ffff_ffff
  const BUF_CHUNK: nat := 64

  const ENOMEM: int := 12
  const EINVAL: int := 22
  const ERANGE: int := 34
  const EOVERFLOW: int := 75

  function DoubleChar(c: char): string { if c == '"' then "\"\"" else [c] }

  /** Every quote written twice. */
  function Double(s: string): string {
    if s == [] then [] else DoubleChar(s[0]) + Double(s[1..])
  }

  function Quote(s: string): string { "\"" + Double(s) + "\"" }

  function Quotes(s: string): (n: nat)
    ensures n <= |s|
  {
    if s == [] then 0 else (if s[0] == '"' then 1 else 0) + Quotes(s[1..])
  }

  lemma {:induction false} DoubleLength(s: string)
    ensures |Double(s)| == |s| + Quotes(s)
  {
    if s != [] {
      DoubleLength(s[1..]);
    }
  }

  lemma {:induction false} DoubleConcat(a: string, b: string)
    ensures Double(a + b) == Double(a) + Double(b) && Quotes(a + b) == Quotes(a) + Quotes(b)
  {
    if a == [] {
      assert a + b == b;
    } else {
      DoubleConcat(a[1..], b);
      assert (a + b)[1..] == a[1..] + b;
      SeqAssoc(DoubleChar(a[0]), Double(a[1..]), Double(b));
    }
  }

  lemma {:induction false} DoublePlain(s: string)
    requires '"' !in s
    ensures Double(s) == s && Quotes(s) == 0
  {
    if s != [] {
      DoublePlain(s[1..]);
    }
  }

  /** strchr(s + from, '"'), as an index; |s| if there is none */
  function NextQuote(s: string, from: nat): (i: nat)
    requires from <= |s|
    ensures from <= i <= |s| && '"' !in s[from..i] && (i < |s| ==> s[i] == '"')
    decreases |s| - from
  {
    if from == |s| || s[from] == '"' then from else
      var i := NextQuote(s, from + 1);
      assert s[from..i] == [s[from]] + s[from + 1..i];
      i
  }

  /** Up to and including the next quote. */
  lemma ThroughQuote(s: string, from: nat)
    requires from <= |s|
    ensures var i := NextQuote(s, from);
            if i == |s| then Quotes(s[from..]) == 0 && Double(s) == Double(s[..from]) + s[from..]
            else Quotes(s[from..]) == 1 + Quotes(s[i + 1..]) &&
                 Double(s[..i + 1]) == Double(s[..from]) + s[from..i + 1] + "\""
  {
    var i := NextQuote(s, from);
    if i == |s| {
      NoneLeft(s, from);
    } else {
      ThroughQuoteAt(s, from, i);
    }
  }

  lemma JoinPlain(a: string, r: string)
    requires '"' !in r
    ensures Double(a + r) == Double(a) + r && Quotes(r) == 0
  {
    DoublePlain(r);
    DoubleConcat(a, r);
  }

  lemma Cut(s: string, from: nat)
    requires from <= |s|
    ensures s == s[..from] + s[from..] && s[from..|s|] == s[from..]
  {
  }

  lemma NoneLeft(s: string, from: nat)
    requires from <= |s| && '"' !in s[from..|s|]
    ensures Quotes(s[from..]) == 0 && Double(s) == Double(s[..from]) + s[from..]
  {
    Cut(s, from);
    JoinPlain(s[..from], s[from..]);
  }

  lemma OneQuote(a: string, b: string, c: string)
    requires '"' !in b
    ensures Quotes(b + ("\"" + c)) == 1 + Quotes(c)
    ensures Double(a + (b + "\"")) == Double(a) + (b + "\"") + "\""
  {
    DoublePlain(b);
    DoubleConcat(b, "\"" + c);
    assert ("\"" + c)[1..] == c;
    DoubleConcat(a, b + "\"");
    DoubleConcat(b, "\"");
    assert Double("\"") == "\"\"";
    assert "\"\"" == "\"" + "\"";
    SeqAssoc(b, "\"", "\"");
    SeqAssoc(Double(a), b + "\"", "\"");
  }

  lemma ThroughQuoteAt(s: string, from: nat, i: nat)
    requires from <= i < |s| && '"' !in s[from..i] && s[i] == '"'
    ensures Quotes(s[from..]) == 1 + Quotes(s[i + 1..])
    ensures Double(s[..i + 1]) == Double(s[..from]) + s[from..i + 1] + "\""
  {
    OneQuote(s[..from], s[from..i], s[i + 1..]);
    assert s[from..] == s[from..i] + ("\"" + s[i + 1..]);
    assert s[from..i + 1] == s[from..i] + "\"";
    assert s[..i + 1] == s[..from] + (s[from..i] + "\"");
  }

  class Strbuf {
    var buf: string
    var offs: nat

    /** strbuf_is_sane, and the contents end in a NUL */
    ghost predicate Valid()
      reads this
    {
      |buf| <= SIZE_MAX && if |buf| == 0 then offs == 0 else offs < |buf| && buf[offs] == NUL
    }

    function Contents(): string
      reads this
      requires Valid()
    {
      buf[..offs]
    }

    constructor ()
      ensures Valid() && buf == "" && Contents() == ""
    {
      buf, offs := "", 0;
    }

    /** Room for addsz more characters and a NUL, or an error and no change. */
    method Expand(addsz: int, haveMemory: bool) returns (ret: int)
      requires Valid() && addsz <= INT_MAX
      modifies this
      ensures Valid() && Contents() == old(Contents()) && offs == old(offs)
      ensures ret == 0 ==> addsz >= 0 && (|old(buf)| - offs > addsz || haveMemory)
      ensures addsz >= 0 && (|old(buf)| - offs > addsz || (|old(buf)| + addsz < SIZE_MAX && haveMemory)) ==> ret == 0
      ensures ret == 0 ==> |buf| - offs >= addsz + 1 && |buf| <= |old(buf)| + addsz + BUF_CHUNK
      ensures ret != 0 ==> buf == old(buf) && (ret == -EINVAL || ret == -EOVERFLOW || ret == -ENOMEM)
      ensures ret == -EINVAL <==> addsz < 0
      ensures ret == -EOVERFLOW ==> |buf| + addsz >= SIZE_MAX
      ensures ret == -ENOMEM ==> !haveMemory
      ensures addsz >= 0 && |old(buf)| - offs > addsz ==> buf == old(buf)
    {
      if addsz < 0 {
        return -EINVAL;
      }
      if |buf| - offs >= addsz + 1 {
        return 0;
      }
      var add := ((addsz - (|buf| - offs)) / BUF_CHUNK + 1) * BUF_CHUNK;
      if |buf| >= SIZE_MAX - add {
        add := SIZE_MAX - |buf|;
        if add < addsz + 1 {
          return -EOVERFLOW;
        }
      }
      if !haveMemory {
        return -ENOMEM;
      }
      var garbage: string := *;
      var junk := seq(add, i requires 0 <= i < add => if i < |garbage| then garbage[i] else 'x');
      ghost var before := Contents();
      buf := buf + junk;
      buf := buf[offs := NUL];
      assert Contents() == before;
      return 0;
    }

    /** memcpy to position at */
    method Write(at: nat, s: string)
      requires at + |s| <= |buf|
      modifies this`buf
      ensures buf == old(buf[..at]) + s + old(buf[at + |s|..])
    {
      for i := 0 to |s|
        invariant buf == old(buf[..at]) + s[..i] + old(buf[at + i..])
      {
        buf := buf[at + i := s[i]];
        assert s[..i + 1] == s[..i] + [s[i]];
      }
      assert s[..|s|] == s;
    }

    /** append_strbuf_str */
    method AppendStr(str: Option<CString>, haveMemory: bool) returns (ret: int)
      requires Valid()
      modifies this
      ensures Valid()
      ensures ret >= 0 ==> str.Some? && ret == |str.value| && Contents() == old(Contents()) + str.value
      ensures ret < 0 ==> Contents() == old(Contents())
      ensures str.None? ==> ret == -EINVAL
      ensures str.Some? && |str.value| > INT_MAX ==> ret == -ERANGE
      ensures str.Some? && |old(buf)| + |str.value| < 0xffff_ffff_ffff_ffff && haveMemory && |str.value| <= INT_MAX ==>
                ret >= 0
      ensures ret >= 0 ==> |buf| <= |old(buf)| + |str.value| + BUF_CHUNK
    {
      if str.None? {
        return -EINVAL;
      }
      var s := str.value;
      if |s| > INT_MAX {
        return -ERANGE;
      }
      ret := Expand(|s|, haveMemory);
      if ret < 0 {
        return;
      }
      ghost var before := Contents();
      Write(offs, s);
      assert buf[..offs] == before;
      offs := offs + |s|;
      buf := buf[offs := NUL];
      assert Contents() == before + s;
      ret := |s|;
    }

    /** Counting quotes with strchr; the counter is 32 bits wide. */
    method CountQuotes(ptr: CString) returns (n: nat)
      ensures n == Quotes(ptr) % UINT_RANGE
    {
      n := 0;
      assert ptr[0..] == ptr;
      QuotesFrom(ptr, 0);
      var p := NextQuote(ptr, 0);
      ghost var total: nat, left: nat := 0, Quotes(ptr);
      while p < |ptr|
        invariant p <= |ptr| && (p < |ptr| ==> ptr[p] == '"')
        invariant left == Quotes(ptr[p..]) && total + left == Quotes(ptr) && n == total % UINT_RANGE
        decreases |ptr| - p
      {
        NextCount(ptr, p, total);
        n := (n + 1) % UINT_RANGE;
        total, left := total + 1, left - 1;
        p := NextQuote(ptr, p + 1);
      }
      assert ptr[p..] == "";
    }

    /** append_strbuf_quoted */
    method AppendQuoted(ptr: Option<CString>, haveMemory: bool) returns (ret: int)
      requires Valid()
      modifies this
      ensures Valid()
      ensures ret >= 0 ==> ptr.Some? && ret == |Quote(ptr.value)| && Contents() == old(Contents()) + Quote(ptr.value)
      ensures ret < 0 ==> Contents() == old(Contents())
      ensures ptr.None? ==> ret == -EINVAL
      ensures ptr.Some? && |old(buf)| + |Quote(ptr.value)| < 0xffff_ffff_ffff_ffff && haveMemory &&
              |Quote(ptr.value)| <= INT_MAX ==>
                ret >= 0
    {
      if ptr.None? {
        return -EINVAL;
      }
      var s := ptr.value;
      DoubleLength(s);
      var nQuotes := CountQuotes(s);
      var qlen := |s| + 2 + nQuotes;
      if qlen > INT_MAX {
        return -ERANGE;
      }
      assert qlen == |Quote(s)|;
      ret := Expand(qlen, haveMemory);
      if ret < 0 {
        return;
      }
      ret := CopyQuoted(s, nQuotes, qlen);
    }

    method CopyQuoted(s: CString, nQuotes: nat, qlen: nat) returns (ret: int)
      requires Valid() && qlen == |Quote(s)| && nQuotes == Quotes(s) && offs + qlen < |buf|
      modifies this
      ensures Valid() && ret == qlen && Contents() == old(Contents()) + Quote(s)
    {
      ghost var head := Contents();
      DoubleLength(s);
      var quoted := offs;
      buf := buf[quoted := '"'];
      quoted := quoted + 1;
      var q := CopyDoubled(s, nQuotes, quoted, qlen, head + "\"");
      Write(q, "\"");
      q := q + 1;
      assert buf[..q] == head + "\"" + Double(s) + "\"";
      buf := buf[q := NUL];
      ret := q - offs;
      offs := offs + ret;
      assert head + "\"" + Double(s) + "\"" == head + Quote(s);
      assert Contents() == buf[..q];
    }

    /** memccpy(q, p, '"', ..) stopping at quote k, and the second quote */
    method CopyPiece(s: CString, p: nat, k: nat, q: nat) returns (q1: nat)
      requires p <= k < |s| && q + (k + 1 - p) < |buf|
      modifies this`buf
      ensures |buf| == |old(buf)| && q1 == q + (k + 1 - p) + 1 && buf[..q1] == old(buf[..q]) + s[p..k + 1] + "\""
    {
      Write(q, s[p..k + 1]);
      q1 := q + (k + 1 - p);
      buf := buf[q1 := '"'];
      q1 := q1 + 1;
    }

    /** The copying loop: memccpy through the next quote, then one quote more. */
    method CopyDoubled(s: CString, nQuotes: nat, quoted: nat, qlen: nat, ghost head: string) returns (q: nat)
      requires nQuotes == Quotes(s) && qlen == |Double(s)| + 2 && quoted + qlen <= |buf| + 1 &&
               quoted + qlen - 2 < |buf|
      requires quoted == |head| && buf[..quoted] == head
      modifies this`buf
      ensures |buf| == |old(buf)| && q == quoted + |Double(s)| && buf[..q] == head + Double(s)
    {
      var p: nat, i: nat := 0, 0;
      q := quoted;
      ghost var out := "";
      assert s[..0] == "" && s[0..] == s;
      while i < nQuotes
        invariant |buf| == |old(buf)| && i <= nQuotes && p <= |s|
        invariant out == Double(s[..p]) && q == quoted + |out| <= quoted + |Double(s)| && buf[..q] == head + out
        invariant Quotes(s[p..]) == nQuotes - i
      {
        var k := NextQuote(s, p);
        NextPiece(s, p, head);
        q := CopyPiece(s, p, k, q);
        p := k + 1;
        i := i + 1;
        out := Double(s[..p]);
      }
      LastPiece(s, p);
      assert qlen - 2 - (q - quoted) == |s| - p;
      q := CopyRest(s, p, q);
      SeqAssoc(head, out, s[p..]);
    }

    method CopyRest(s: CString, p: nat, q: nat) returns (q1: nat)
      requires p <= |s| && q + (|s| - p) <= |buf|
      modifies this`buf
      ensures |buf| == |old(buf)| && q1 == q + (|s| - p) && buf[..q1] == old(buf[..q]) + s[p..]
    {
      Write(q, s[p..]);
      q1 := q + (|s| - p);
    }
  }

  lemma NextCount(s: string, p: nat, total: nat)
    requires p < |s| && s[p] == '"'
    ensures (total % UINT_RANGE + 1) % UINT_RANGE == (total + 1) % UINT_RANGE
    ensures Quotes(s[p..]) == 1 + Quotes(s[NextQuote(s, p + 1)..])
  {
    assert s[p..][1..] == s[p + 1..];
    QuotesFrom(s, p + 1);
  }

  lemma QuotesFrom(s: string, from: nat)
    requires from <= |s|
    ensures Quotes(s[from..]) == Quotes(s[NextQuote(s, from)..])
  {
    var i := NextQuote(s, from);
    assert s[from..] == s[from..i] + s[i..];
    DoubleConcat(s[from..i], s[i..]);
    DoublePlain(s[from..i]);
  }

  /** The piece through the next quote, with that quote doubled, continues the output and fits. */
  lemma NextPiece(s: string, p: nat, head: string)
    requires p <= |s| && Quotes(s[p..]) > 0
    ensures var k := NextQuote(s, p);
            k < |s| && Quotes(s[k + 1..]) == Quotes(s[p..]) - 1 &&
            head + Double(s[..p]) + s[p..k + 1] + "\"" == head + Double(s[..k + 1]) &&
            |Double(s[..k + 1])| == |Double(s[..p])| + (k + 1 - p) + 1 <= |Double(s)|
  {
    var k := NextQuote(s, p);
    ThroughQuote(s, p);
    LengthBelow(s, k + 1);
    assert head + (Double(s[..p]) + s[p..k + 1] + "\"") == head + Double(s[..p]) + s[p..k + 1] + "\"";
  }

  lemma LengthBelow(s: string, p: nat)
    requires p <= |s|
    ensures |Double(s[..p])| <= |Double(s)|
  {
    assert s == s[..p] + s[p..];
    DoubleConcat(s[..p], s[p..]);
  }

  lemma {:induction false} NoQuotes(s: string)
    requires Quotes(s) == 0
    ensures '"' !in s
  {
    if s != [] {
      NoQuotes(s[1..]);
    }
  }

  lemma LastPiece(s: string, p: nat)
    requires p <= |s| && Quotes(s[p..]) == 0
    ensures Double(s) == Double(s[..p]) + s[p..]
  {
    Cut(s, p);
    NoQuotes(s[p..]);
    JoinPlain(s[..p], s[p..]);
  }
}
