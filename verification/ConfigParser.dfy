/** The configuration line tokenizer, and reading a value back from its tokens. */
module ConfigParser {
  import opened Basics
  import opened Strbuf

  /** A token is a NUL-free text or the quote marker, whose first byte is NUL. */
  type Token = string

  const MARKER: Token := [NUL, '"', NUL]

  predicate IsAscii(c: char) { c < 128 as char }

  predicate IsSkipped(c: char) { IsSpace(c) || !IsAscii(c) }

  predicate IsComment(c: char) { c == '!' || c == '#' }

  predicate IsBrace(c: char) { c == '{' || c == '}' }

  predicate IsWordChar(c: char) { !IsSkipped(c) && !IsComment(c) && !IsBrace(c) && c != '"' }

  /** is_quote; a text's first byte is not NUL, so nothing is read past its end. */
  predicate IsQuote(t: Token)
    requires t != []
  {
    t[0] == MARKER[0] && (|t| > 1 && t[1] == MARKER[1]) && (|t| > 2 && t[2] == MARKER[2])
  }

  // ---------------------------------------------------------------- what the tokens of a line are

  function BlankLen(s: string): (n: nat)
    ensures n <= |s|
  {
    if s == [] || !IsSkipped(s[0]) then 0 else 1 + BlankLen(s[1..])
  }

  function WordLen(s: string): (n: nat)
    ensures n <= |s|
  {
    if s == [] || !IsWordChar(s[0]) then 0 else 1 + WordLen(s[1..])
  }

  /** Length of the quoted text: up to a quote that is not doubled. */
  function StringLen(s: string): (n: nat)
    ensures n <= |s|
  {
    if s == [] then 0
    else if s[0] != '"' then 1 + StringLen(s[1..])
    else if |s| > 1 && s[1] == '"' then 2 + StringLen(s[2..])
    else 0
  }

  /** Every doubled quote is one quote. */
  function Undouble(s: string): string {
    if |s| < 2 then s
    else if s[0] == '"' && s[1] == '"' then "\"" + Undouble(s[2..])
    else [s[0]] + Undouble(s[1..])
  }

  /** A quote that opens or closes a string. */
  predicate IsDelimiter(s: string, inString: bool) {
    s != [] && s[0] == '"' && !(inString && |s| > 1 && s[1] == '"')
  }

  function Start(s: string, inString: bool): string { if inString then s else s[BlankLen(s)..] }

  /** The tokens of the rest of a line; inString tells whether a string is open. */
  function Tokens(rest: string, inString: bool): seq<Token>
    decreases |rest|, 1
  {
    TokensAt(Start(rest, inString), inString)
  }

  function TokensAt(s: string, inString: bool): seq<Token>
    decreases |s|, 0
  {
    if s == [] || (!inString && IsComment(s[0])) then []
    else if IsDelimiter(s, inString) then [MARKER] + Tokens(s[1..], !inString)
    else if inString then
      (if StringLen(s) == 0 then [] else [Undouble(s[..StringLen(s)])] + Tokens(s[StringLen(s)..], true))
    else if IsBrace(s[0]) then [[s[0]]] + Tokens(s[1..], false)
    else if WordLen(s) == 0 then []
    else [s[..WordLen(s)]] + Tokens(s[WordLen(s)..], false)
  }

  lemma Progress(s: string, inString: bool)
    requires s != [] && !IsDelimiter(s, inString)
    requires !inString ==> !IsSkipped(s[0]) && !IsBrace(s[0]) && !IsComment(s[0])
    ensures inString ==> StringLen(s) > 0
    ensures !inString ==> WordLen(s) > 0
  {
  }

  lemma {:induction false} BlankLenStops(s: string)
    ensures BlankLen(s) < |s| ==> !IsSkipped(s[BlankLen(s)])
  {
    if s != [] && IsSkipped(s[0]) {
      BlankLenStops(s[1..]);
    }
  }

  // ---------------------------------------------------------------- the tokenizer

  /** A loop that moves the cursor over white space. */
  method SkipBlanks(line: CString, from: nat) returns (cp: nat)
    requires from <= |line|
    ensures cp == from + BlankLen(line[from..])
  {
    cp := from;
    while IsSkipped(At(line, cp)) && At(line, cp) != NUL
      invariant from <= cp <= |line| && cp + BlankLen(line[cp..]) == from + BlankLen(line[from..])
      decreases |line| - cp
    {
      assert line[cp..][1..] == line[cp + 1..];
      cp := cp + 1;
    }
  }

  method SkipWord(line: CString, from: nat) returns (cp: nat)
    requires from <= |line|
    ensures cp == from + WordLen(line[from..])
  {
    cp := from;
    while IsWordChar(At(line, cp)) && At(line, cp) != NUL
      invariant from <= cp <= |line| && cp + WordLen(line[cp..]) == from + WordLen(line[from..])
      decreases |line| - cp
    {
      assert line[cp..][1..] == line[cp + 1..];
      cp := cp + 1;
    }
  }

  ghost predicate NoQuoteIn(s: string, from: nat, to: nat)
    requires from <= to <= |s|
  {
    forall k | from <= k < to :: s[k] != '"'
  }

  /** Where the quoted text that is being scanned at cp ends. */
  function StringEnd(line: string, cp: nat): (e: nat)
    requires cp <= |line|
    ensures cp <= e <= |line|
    decreases |line| - cp
  {
    if cp == |line| then cp
    else if line[cp] != '"' then StringEnd(line, cp + 1)
    else if cp + 1 < |line| && line[cp + 1] == '"' then StringEnd(line, cp + 2)
    else cp
  }

  lemma {:induction false} StringEndIs(line: string, cp: nat)
    requires cp <= |line|
    ensures StringEnd(line, cp) == cp + StringLen(line[cp..])
    decreases |line| - cp
  {
    if cp < |line| {
      StringAt(line, cp);
      if line[cp] != '"' {
        StringEndIs(line, cp + 1);
      } else if cp + 1 < |line| && line[cp + 1] == '"' {
        StringEndIs(line, cp + 2);
      }
    }
  }

  lemma StringAt(line: string, cp: nat)
    requires cp < |line|
    ensures StringLen(line[cp..]) ==
            if line[cp] != '"' then 1 + StringLen(line[cp + 1..])
            else if cp + 1 < |line| && line[cp + 1] == '"' then 2 + StringLen(line[cp + 2..])
            else 0
  {
    var s := line[cp..];
    assert s[1..] == line[cp + 1..];
    if cp + 1 < |line| {
      assert s[2..] == line[cp + 2..];
    }
  }

  /** The `move_on` loop inside a string. */
  method SkipString(line: CString, from: nat) returns (cp: nat, twoQuotes: bool)
    requires from <= |line|
    ensures cp == StringEnd(line, from)
    ensures !twoQuotes ==> NoQuoteIn(line, from, cp)
  {
    cp, twoQuotes := from, false;
    while true
      invariant from <= cp <= |line| && StringEnd(line, cp) == StringEnd(line, from)
      invariant !twoQuotes ==> NoQuoteIn(line, from, cp)
      decreases |line| - cp
    {
      cp := SkipPlain(line, cp, from);
      if At(line, cp) == '"' && At(line, cp + 1) == '"' {
        twoQuotes := true;
        cp := cp + 2;
      } else {
        break;
      }
    }
  }

  method SkipPlain(line: CString, at: nat, ghost from: nat) returns (cp: nat)
    requires from <= at <= |line|
    ensures at <= cp <= |line| && StringEnd(line, cp) == StringEnd(line, at)
    ensures At(line, cp) == NUL || At(line, cp) == '"'
    ensures NoQuoteIn(line, from, at) ==> NoQuoteIn(line, from, cp)
  {
    cp := at;
    while At(line, cp) != NUL && At(line, cp) != '"'
      invariant at <= cp <= |line| && StringEnd(line, cp) == StringEnd(line, at)
      invariant NoQuoteIn(line, from, at) ==> NoQuoteIn(line, from, cp)
      decreases |line| - cp
    {
      cp := cp + 1;
    }
  }

  /** strstr(t, "\"\"") as an index, |t| if there is none */
  function FindPair(t: string): (i: nat)
    ensures i <= |t|
  {
    if |t| < 2 then |t|
    else if t[0] == '"' && t[1] == '"' then 0
    else 1 + FindPair(t[1..])
  }

  lemma UndoubleCons(x: char, r: string)
    requires !(x == '"' && r != [] && r[0] == '"')
    ensures Undouble([x] + r) == [x] + Undouble(r)
  {
    if r == [] {
      assert [x] + r == [x];
    } else {
      assert ([x] + r)[1..] == r;
    }
  }

  lemma FindPairCons(x: char, r: string)
    requires !(x == '"' && r != [] && r[0] == '"')
    ensures FindPair([x] + r) == 1 + FindPair(r)
  {
    if r != [] {
      assert ([x] + r)[1..] == r;
    }
  }

  lemma ConsSlices(x: char, r: string, j: nat)
    requires j + 1 < |r|
    ensures ([x] + r)[..j + 1] == [x] + r[..j] && ([x] + r)[j + 3..] == r[j + 2..]
  {
  }

  lemma {:induction false} UndoubleFirst(t: string)
    ensures var i := FindPair(t);
            if i == |t| then Undouble(t) == t
            else i + 1 < |t| && t[i] == '"' && t[i + 1] == '"' && Undouble(t) == t[..i] + ("\"" + Undouble(t[i + 2..]))
  {
    if |t| >= 2 && !(t[0] == '"' && t[1] == '"') {
      var x, r := t[0], t[1..];
      assert t == [x] + r;
      UndoubleFirst(r);
      UndoubleCons(x, r);
      FindPairCons(x, r);
      var j := FindPair(r);
      if j < |r| {
        ConsSlices(x, r, j);
        SeqAssoc([x], r[..j], "\"" + Undouble(r[j + 2..]));
      }
    }
  }

  /** Cutting one of the two quotes at position i of r, when r follows a. */
  lemma CutQuote(a: string, r: string, i: nat)
    requires i + 1 < |r| && r[i] == '"'
    ensures (a + r)[..|a| + i + 1] + (a + r)[|a| + i + 2..] == (a + r[..i] + "\"") + r[i + 2..]
  {
  }

  /** One replacement: what is final grows, what is still to be searched follows the kept quote. */
  lemma ReplaceStep(a: string, r: string, a': string, r': string)
    requires FindPair(r) + 1 < |r| && a' == a + r[..FindPair(r)] + "\"" && r' == r[FindPair(r) + 2..]
    ensures var i := FindPair(r);
            (a + r)[..|a| + i + 1] + (a + r)[|a| + i + 2..] == a' + r' && |a'| == |a| + i + 1 &&
            a + Undouble(r) == a' + Undouble(r')
  {
    UndoubleFirst(r);
    CutQuote(a, r, FindPair(r));
    PartsJoin(a, r[..FindPair(r)], Undouble(r'));
  }

  lemma Behind(a: string, r: string)
    ensures (a + r)[|a|..] == r
  {
  }

  /** The replacement loop: `a` is final, `r` still to be searched. */
  method ReplacePairs(text: string) returns (token: string)
    ensures token == Undouble(text)
  {
    token := text;
    ghost var a, r := "", text;
    var qq := FindPair(token);
    while qq < |token|
      invariant token == a + r && qq == |a| + FindPair(r)
      invariant Undouble(text) == a + Undouble(r)
      decreases |token|
    {
      UndoubleFirst(r);
      ghost var i := FindPair(r);
      ghost var a', r' := a + r[..i] + "\"", r[i + 2..];
      ReplaceStep(a, r, a', r');
      token := token[..qq + 1] + token[qq + 2..];
      Behind(a', r');
      a, r := a', r';
      qq := qq + 1 + FindPair(token[qq + 1..]);
    }
    UndoubleFirst(r);
  }

  lemma PartsJoin(a: string, b: string, c: string)
    ensures a + (b + ("\"" + c)) == (a + b + "\"") + c
  {
  }

  lemma {:induction false} UndoublePlain(s: string)
    requires '"' !in s
    ensures Undouble(s) == s
  {
    if |s| >= 2 {
      UndoublePlain(s[1..]);
    }
  }

  /** One token starting at cp. */
  method NextToken(line: CString, cp: nat, inString: bool) returns (token: Token, next: nat, inside: bool)
    requires cp < |line| && (!inString ==> !IsSkipped(line[cp]) && !IsComment(line[cp]))
    ensures cp < next <= |line|
    ensures Tokens(line[cp..], inString) == [token] + Tokens(line[next..], inside)
  {
    next, inside := cp, inString;
    if At(line, cp) == '"' && !(inString && At(line, cp + 1) == '"') {
      next := cp + 1;
      token := MARKER;
      inside := !inString;
      DelimiterAt(line, cp, inString);
    } else if !inString && (At(line, cp) == '{' || At(line, cp) == '}') {
      token := [line[cp]];
      next := cp + 1;
      BraceAt(line, cp);
    } else if inString {
      var twoQuotes;
      next, twoQuotes := SkipString(line, cp);
      token := line[cp..next];
      StringTokenAt(line, cp, next);
      if twoQuotes {
        token := ReplacePairs(token);
      } else {
        UndoublePlain(token);
      }
    } else {
      next := SkipWord(line, cp);
      token := line[cp..next];
      WordAt(line, cp, next);
    }
  }

  lemma DelimiterAt(line: string, cp: nat, inString: bool)
    requires cp < |line| && line[cp] == '"' && !(inString && cp + 1 < |line| && line[cp + 1] == '"')
    ensures Tokens(line[cp..], inString) == [MARKER] + Tokens(line[cp + 1..], !inString)
  {
    var s := line[cp..];
    assert s[1..] == line[cp + 1..];
    FirstDelimiter(s, inString);
  }

  lemma FirstDelimiter(s: string, inString: bool)
    requires IsDelimiter(s, inString)
    ensures Tokens(s, inString) == [MARKER] + Tokens(s[1..], !inString)
  {
    StartsHere(s, inString);
  }

  lemma StartsHere(s: string, inString: bool)
    requires s != [] && !IsSkipped(s[0])
    ensures Start(s, inString) == s
  {
    assert s[0..] == s;
  }

  lemma BraceAt(line: string, cp: nat)
    requires cp < |line| && IsBrace(line[cp])
    ensures Tokens(line[cp..], false) == [[line[cp]]] + Tokens(line[cp + 1..], false)
  {
    var s := line[cp..];
    assert s[1..] == line[cp + 1..];
    assert Start(s, false) == s && !IsDelimiter(s, false);
  }

  lemma StringTokenAt(line: string, cp: nat, next: nat)
    requires cp < |line| && next == StringEnd(line, cp)
    requires !(line[cp] == '"' && !(cp + 1 < |line| && line[cp + 1] == '"'))
    ensures cp < next && Tokens(line[cp..], true) == [Undouble(line[cp..next])] + Tokens(line[next..], true)
  {
    var s := line[cp..];
    StringEndIs(line, cp);
    Progress(s, true);
    assert s[..next - cp] == line[cp..next] && s[next - cp..] == line[next..];
    assert Start(s, true) == s && !IsDelimiter(s, true);
  }

  lemma WordAt(line: string, cp: nat, next: nat)
    requires cp < |line| && next == cp + WordLen(line[cp..])
    requires !IsSkipped(line[cp]) && !IsComment(line[cp]) && !IsBrace(line[cp]) && line[cp] != '"'
    ensures cp < next && Tokens(line[cp..], false) == [line[cp..next]] + Tokens(line[next..], false)
  {
    var s := line[cp..];
    Progress(s, false);
    assert s[..next - cp] == line[cp..next] && s[next - cp..] == line[next..];
    assert Start(s, false) == s && !IsDelimiter(s, false);
  }

  /** What follows a token: blanks outside a string, then the end or the next token. */
  method ToNext(line: CString, from: nat, inString: bool) returns (cp: nat, more: bool)
    requires from <= |line|
    ensures from <= cp <= |line| && Tokens(line[from..], inString) == Tokens(line[cp..], inString)
    ensures more ==> cp < |line| && (!inString ==> !IsSkipped(line[cp]) && !IsComment(line[cp]))
    ensures !more ==> Tokens(line[cp..], inString) == []
  {
    cp := from;
    if !inString {
      cp := SkipBlanks(line, from);
      BlankLenStops(line[from..]);
      SkipKeepsTokens(line, from, cp);
    }
    more := !(At(line, cp) == NUL || (!inString && IsComment(At(line, cp))));
    if !more {
      NoTokens(line[cp..], inString);
    }
  }

  lemma NoTokens(s: string, inString: bool)
    requires s == [] || (!inString && IsComment(s[0]))
    ensures Tokens(s, inString) == []
  {
  }

  /** The main loop of alloc_strvec. */
  method Collect(line: CString, from: nat) returns (v: seq<Token>)
    requires from < |line| && !IsSkipped(line[from]) && !IsComment(line[from])
    ensures v == Tokens(line[from..], false)
  {
    v := [];
    var inString, more, cp := false, true, from;
    while more
      invariant cp <= |line| && (more ==> cp < |line| && (!inString ==> !IsSkipped(line[cp]) && !IsComment(line[cp])))
      invariant !more ==> Tokens(line[cp..], inString) == []
      invariant v + Tokens(line[cp..], inString) == Tokens(line[from..], false)
      decreases |line| - cp, more
    {
      var token;
      ghost var before := v;
      token, cp, inString := NextToken(line, cp, inString);
      v := v + [token];
      MoveOne(before, token, Tokens(line[cp..], inString));
      cp, more := ToNext(line, cp, inString);
    }
  }

  lemma MoveOne<T>(a: seq<T>, x: T, b: seq<T>)
    ensures a + ([x] + b) == a + [x] + b
  {
  }

  /** alloc_strvec; None for a line that is blank or a comment */
  method AllocStrvec(line: CString) returns (strvec: Option<seq<Token>>)
    ensures strvec == Strvec(line)
  {
    var cp := SkipBlanks(line, 0);
    assert line[0..] == line;
    if At(line, cp) == NUL || IsComment(At(line, cp)) {
      return None;
    }
    BlankLenStops(line);
    SkipKeepsTokens(line, 0, cp);
    var v := Collect(line, cp);
    return Some(v);
  }

  function Strvec(line: string): Option<seq<Token>> {
    var s := line[BlankLen(line)..];
    if s == [] || IsComment(s[0]) then None else Some(Tokens(line, false))
  }

  lemma SkipKeepsTokens(line: string, at: nat, cp: nat)
    requires at <= |line| && cp == at + BlankLen(line[at..])
    ensures Tokens(line[at..], false) == Tokens(line[cp..], false)
  {
    var s := line[at..];
    assert s[BlankLen(s)..] == line[cp..];
    BlankLenStops(s);
    assert Start(line[cp..], false) == line[cp..];
  }

  // ---------------------------------------------------------------- the shape of token lists

  lemma {:induction false} UndoubleText(s: string)
    requires s != [] && NUL !in s
    ensures Undouble(s) != [] && NUL !in Undouble(s)
  {
    if |s| > 2 && s[0] == '"' && s[1] == '"' {
      UndoubleText(s[2..]);
    } else if |s| >= 2 && !(s[0] == '"' && s[1] == '"') {
      UndoubleText(s[1..]);
    }
  }

  predicate IsToken(t: Token) { t == MARKER || (t != [] && NUL !in t) }

  lemma ConsTokens(t: Token, v: seq<Token>)
    requires IsToken(t) && forall k | 0 <= k < |v| :: IsToken(v[k])
    ensures forall k | 0 <= k < |v| + 1 :: IsToken(([t] + v)[k])
  {
  }

  /** Every token is the marker or a non-empty text, so `is_quote` stays inside it. */
  lemma {:induction false} TokensAreTexts(rest: string, inString: bool)
    requires NUL !in rest
    ensures forall k | 0 <= k < |Tokens(rest, inString)| :: IsToken(Tokens(rest, inString)[k])
    decreases |rest|
  {
    var s := Start(rest, inString);
    if s == [] || (!inString && IsComment(s[0])) {
    } else if IsDelimiter(s, inString) {
      TokensAreTexts(s[1..], !inString);
      ConsTokens(MARKER, Tokens(s[1..], !inString));
    } else if inString {
      var n := StringLen(s);
      if n > 0 {
        UndoubleText(s[..n]);
        TokensAreTexts(s[n..], true);
        ConsTokens(Undouble(s[..n]), Tokens(s[n..], true));
      }
    } else if IsBrace(s[0]) {
      TokensAreTexts(s[1..], false);
      ConsTokens([s[0]], Tokens(s[1..], false));
    } else {
      var n := WordLen(s);
      if n > 0 {
        TokensAreTexts(s[n..], false);
        ConsTokens(s[..n], Tokens(s[n..], false));
      }
    }
  }

  lemma {:induction false} StringLenStops(s: string)
    ensures StringLen(s) == |s| || IsDelimiter(s[StringLen(s)..], true)
  {
    if s != [] {
      if s[0] != '"' {
        StringLenStops(s[1..]);
        assert s[1..][StringLen(s[1..])..] == s[StringLen(s)..];
      } else if |s| > 1 && s[1] == '"' {
        StringLenStops(s[2..]);
        assert s[2..][StringLen(s[2..])..] == s[StringLen(s)..];
      } else {
        assert s[0..] == s;
      }
    }
  }

  /** Inside quotes there is at most one token before the closing quote. */
  lemma OneTokenInside(s: string)
    ensures var v := Tokens(s, true); |v| <= 1 || v[0] == MARKER || v[1] == MARKER
  {
    assert Start(s, true) == s && Tokens(s, true) == TokensAt(s, true);
    var n := StringLen(s);
    if s != [] && !IsDelimiter(s, true) && n > 0 {
      var r := s[n..];
      StringLenStops(s);
      assert Tokens(r, true) == TokensAt(r, true);
      assert r == [] || Tokens(r, true)[0] == MARKER;
    }
  }

  /** A marker outside quotes opens a string; any other token there leaves the line outside. */
  lemma OutsideStep(rest: string) returns (r: string, open: bool)
    requires NUL !in rest && Tokens(rest, false) != []
    ensures NUL !in r && Tokens(rest, false) == [Tokens(rest, false)[0]] + Tokens(r, open)
    ensures open <==> Tokens(rest, false)[0] == MARKER
  {
    var s := Start(rest, false);
    if IsDelimiter(s, false) {
      return s[1..], true;
    } else if IsBrace(s[0]) {
      return s[1..], false;
    } else {
      return s[WordLen(s)..], false;
    }
  }

  // ---------------------------------------------------------------- using the tokens

  /** VECTOR_SLOT */
  function Slot(v: seq<Token>, i: nat): Option<Token> { if i < |v| then Some(v[i]) else None }

  predicate IsSublevelKeyword(t: Token) {
    t == "defaults" || t == "blacklist" || t == "blacklist_exceptions" || t == "devices" || t == "device" ||
    t == "multipaths" || t == "multipath"
  }

  ghost predicate AreTokens(v: seq<Token>) { forall k | 0 <= k < |v| :: IsToken(v[k]) }

  /** validate_config_strvec */
  function Validate(strvec: Option<seq<Token>>): int
    requires strvec.Some? ==> AreTokens(strvec.value)
  {
    if strvec.None? || |strvec.value| == 0 then -1
    else
      var v := strvec.value;
      if v[0][0] == '}' then 0
      else if v[0][0] == '{' then -1
      else if IsSublevelKeyword(v[0]) then 0
      else if Slot(v, 1).None? then -1
      else if !IsQuote(v[1]) then 0
      else if |v| == 2 then 0
      else if IsQuote(v[2]) then 0
      else if |v| == 3 then 0
      else if !IsQuote(v[3]) then -1
      else 0
  }

  /** set_value; None when there is no value or no memory for it */
  function SetValue(v: seq<Token>, haveMemory: bool): Option<string>
    requires AreTokens(v)
  {
    if Slot(v, 1).None? then None
    else
      var str := if IsQuote(v[1]) && |v| > 2 then v[2] else v[1];
      if !haveMemory then None
      else if IsQuote(v[1]) && IsQuote(str) then Some("")
      else Some(str)
  }

  lemma QuoteIsMarker(t: Token)
    requires IsToken(t)
    ensures IsQuote(t) <==> t == MARKER
  {
    if t != MARKER {
      assert t[0] in t;
    }
  }

  /**
    Validation of any tokenized line fails exactly for a lone opening brace, a missing value, or an
    empty quoted string in the place of the keyword followed by two texts.
   */
  lemma ValidateFailsExactly(line: CString, v: seq<Token>)
    requires Strvec(line) == Some(v) && v != []
    ensures AreTokens(v)
    ensures Validate(Some(v)) == -1 <==>
            || v[0][0] == '{'
            || (|v| == 1 && v[0][0] != '}' &&
                v[0] !in ["defaults", "blacklist", "blacklist_exceptions", "devices", "device",
                          "multipaths", "multipath"])
            || (|v| > 3 && v[0] == MARKER && v[1] == MARKER && v[2] != MARKER && v[3] != MARKER)
  {
    TokensAreTexts(line, false);
    if |v| > 1 {
      QuoteIsMarker(v[1]);
    }
    if |v| > 3 {
      QuoteIsMarker(v[2]);
      QuoteIsMarker(v[3]);
      if v[0] != MARKER && v[1] == MARKER {
        TwoTokensOutside(line, v);
      }
    }
  }

  /** After a keyword and an opening quote one of the next two tokens closes the string. */
  lemma TwoTokensOutside(line: CString, v: seq<Token>)
    requires v == Tokens(line, false) && |v| > 3 && v[0] != MARKER && v[1] == MARKER
    ensures v[2] == MARKER || v[3] == MARKER
  {
    var r, open := OutsideStep(line);
    assert Tokens(r, false) == v[1..];
    var r2, open2 := OutsideStep(r);
    assert Tokens(r2, true) == v[2..];
    OneTokenInside(r2);
  }

  /** The last error branch is reached: an empty string where the keyword should be, then two words. */
  lemma EmptyQuotesReachLastBranch(a: string, b: string)
    requires IsWord(a) && IsWord(b) && NUL !in a && NUL !in b
    ensures var line := "\"" + ("\"" + (" " + (a + (" " + b)))); var v := [MARKER, MARKER, a, b];
            Strvec(line) == Some(v) && AreTokens(v) && Validate(Some(v)) == -1
  {
    TwoWords(a, b);
    OpenThenClose(" " + (a + (" " + b)));
    var v := [MARKER, MARKER, a, b];
    Four(MARKER, MARKER, a, b);
    LastBranch(v);
  }

  lemma Four<T>(w: T, x: T, y: T, z: T)
    ensures [w] + ([x] + [y, z]) == [w, x, y, z]
  {
  }

  lemma LastBranch(v: seq<Token>)
    requires |v| == 4 && AreTokens(v) && v[0] == v[1] == MARKER && v[2] != MARKER && v[3] != MARKER
    ensures Validate(Some(v)) == -1
  {
    QuoteIsMarker(v[2]);
    QuoteIsMarker(v[3]);
    assert v[0][0] == NUL && |v[0]| == 3;
  }

  lemma TwoWords(a: string, b: string)
    requires IsWord(a) && IsWord(b)
    ensures Tokens(" " + (a + (" " + b)), false) == [a, b]
  {
    var tail := a + (" " + b);
    assert tail[0] == a[0];
    TokensOfWord(b, "");
    assert b + "" == b && Tokens("", false) == [];
    TokensAfterBlanks(" ", b);
    TokensOfWord(a, " " + b);
    TokensAfterBlanks(" ", tail);
    assert [a] + ([b] + []) == [a, b];
  }

  lemma OpenThenClose(rest: string)
    requires rest != [] && rest[0] != '"'
    ensures Strvec("\"" + ("\"" + rest)) == Some([MARKER] + ([MARKER] + Tokens(rest, false)))
  {
    var inner := "\"" + rest;
    var line := "\"" + inner;
    assert line[1..] == inner && inner[1..] == rest && inner[1] == rest[0] && line[0..] == line;
    assert BlankLen(line) == 0 && Start(line, false) == line && Start(inner, true) == inner;
    assert IsDelimiter(line, false) && IsDelimiter(inner, true);
    assert Tokens(inner, true) == [MARKER] + Tokens(rest, false);
    assert Tokens(line, false) == [MARKER] + Tokens(inner, true);
  }

  // ---------------------------------------------------------------- values without quotes

  /** A plain word: no white space, nothing beyond ASCII, none of the characters with a meaning. */
  ghost predicate Plain(w: string) {
    w != "" && forall c | c in w :: c != ' ' && !('\t' <= c <= '\r') && c < 128 as char && c !in "!#{}\"\0"
  }

  /** White space, or characters beyond ASCII, which count as such. */
  ghost predicate Blanks(b: string) {
    forall c | c in b :: c == ' ' || c in "\t\n\r" || c == 11 as char || c == 12 as char || c >= 128 as char
  }

  /** Nothing, or blanks and perhaps a comment. */
  ghost predicate Trailer(blanks: string, comment: string) {
    Blanks(blanks) && (comment == "" || comment[0] == '#' || comment[0] == '!')
  }

  lemma PlainIsWord(w: string)
    requires Plain(w)
    ensures IsWord(w) && IsToken(w) && w != MARKER
  {
    forall i | 0 <= i < |w|
      ensures IsWordChar(w[i])
    {
      assert w[i] in w;
    }
    assert w[0] in w;
  }

  lemma BlanksAreSkipped(b: string)
    requires Blanks(b)
    ensures AllBlank(b)
  {
    forall i | 0 <= i < |b|
      ensures IsSkipped(b[i])
    {
      assert b[i] in b;
    }
  }

  lemma NoTokensBehind(blanks: string, comment: string)
    requires Trailer(blanks, comment)
    ensures Tokens(blanks + comment, false) == []
  {
    BlanksAreSkipped(blanks);
    BlanksSkipped(blanks, comment);
    assert Start(blanks + comment, false) == comment;
  }

  lemma WordThenRest(blanks: string, w: string, rest: string)
    requires Blanks(blanks) && Plain(w) && (rest == [] || !IsWordChar(rest[0]))
    ensures Tokens(blanks + (w + rest), false) == [w] + Tokens(rest, false)
  {
    BlanksAreSkipped(blanks);
    PlainIsWord(w);
    TokensAfterBlanks(blanks, w + rest);
    TokensOfWord(w, rest);
  }

  lemma TrailerStarts(trail: string, comment: string)
    requires Trailer(trail, comment) && trail + comment != []
    ensures !IsWordChar((trail + comment)[0])
  {
    if trail != [] {
      assert trail[0] in trail;
    }
  }

  /** A keyword, blanks and a plain word, perhaps with a comment, are the keyword and its value. */
  lemma PlainTokens(indent: string, k: string, blanks: string, w: string, trail: string, comment: string)
    requires Blanks(indent) && Plain(k) && Blanks(blanks) && blanks != "" && Plain(w) && Trailer(trail, comment)
    ensures Strvec(indent + (k + (blanks + (w + (trail + comment))))) == Some([k, w])
  {
    var rest := trail + comment;
    var tail := blanks + (w + rest);
    NoTokensBehind(trail, comment);
    if rest != [] {
      TrailerStarts(trail, comment);
    }
    assert [w] + [] == [w] && [k] + [w] == [k, w];
    WordThenRest(blanks, w, rest);
    assert blanks[0] in blanks && tail[0] == blanks[0];
    WordThenRest(indent, k, tail);
    BlanksAreSkipped(indent);
    PlainIsWord(k);
    BlanksSkipped(indent, k + tail);
  }

  lemma PlainValue(indent: string, k: string, blanks: string, w: string, trail: string, comment: string)
    requires Blanks(indent) && Plain(k) && Blanks(blanks) && blanks != "" && Plain(w) && Trailer(trail, comment)
    ensures var v := Strvec(indent + (k + (blanks + (w + (trail + comment)))));
            v.Some? && AreTokens(v.value) && Validate(v) == 0 && SetValue(v.value, true) == Some(w)
  {
    PlainTokens(indent, k, blanks, w, trail, comment);
    PlainIsWord(k);
    PlainIsWord(w);
    var v := [k, w];
    assert AreTokens(v) && k[0] in k;
    QuoteIsMarker(w);
  }

  /** A line without tokens, and one that opens or closes a section. */
  lemma OtherLines(indent: string, k: string, blanks: string, trail: string, comment: string)
    requires Blanks(indent) && Plain(k) && Blanks(blanks) && Trailer(trail, comment)
    ensures Strvec(trail + comment) == None
    ensures Strvec(indent + (k + (blanks + ("{" + (trail + comment))))) == Some([k, "{"])
    ensures Strvec(indent + ("}" + (trail + comment))) == Some(["}"])
  {
    SectionTokens(indent, k, blanks, trail, comment);
    var rest := trail + comment;
    NoTokensBehind(trail, comment);
    BlanksAreSkipped(trail);
    BlanksSkipped(trail, comment);
    BraceThenRest(indent, '}', rest);
    BlanksAreSkipped(indent);
    BlanksSkipped(indent, "}" + rest);
    assert ["}"] + [] == ["}"];
  }

  lemma SectionTokens(indent: string, k: string, blanks: string, trail: string, comment: string)
    requires Blanks(indent) && Plain(k) && Blanks(blanks) && Trailer(trail, comment)
    ensures Strvec(indent + (k + (blanks + ("{" + (trail + comment))))) == Some([k, "{"])
  {
    var rest := trail + comment;
    NoTokensBehind(trail, comment);
    BraceThenRest(blanks, '{', rest);
    var tail := blanks + ("{" + rest);
    if blanks != [] {
      assert blanks[0] in blanks;
    }
    WordThenRest(indent, k, tail);
    BlanksAreSkipped(indent);
    PlainIsWord(k);
    BlanksSkipped(indent, k + tail);
    assert [k] + (["{"] + []) == [k, "{"];
  }

  lemma SectionsAreValid(k: string)
    requires Plain(k)
    ensures IsToken(k) && Validate(Some([k, "{"])) == 0 && Validate(Some(["}"])) == 0
  {
    PlainIsWord(k);
    assert k[0] in k;
  }

  lemma BraceThenRest(blanks: string, brace: char, rest: string)
    requires Blanks(blanks) && (brace == '{' || brace == '}') && Tokens(rest, false) == []
    ensures Tokens(blanks + ([brace] + rest), false) == [[brace]] + []
  {
    BlanksAreSkipped(blanks);
    TokensAfterBlanks(blanks, [brace] + rest);
    var s := [brace] + rest;
    assert s[1..] == rest && Start(s, false) == s;
  }

  /** What set_value gives for the tokens of any line. */
  lemma SetValueExactly(line: CString, v: seq<Token>)
    requires Strvec(line) == Some(v)
    ensures AreTokens(v)
    ensures SetValue(v, true) ==
            if |v| < 2 then None
            else if v[1] != [NUL, '"', NUL] then Some(v[1])
            else if |v| == 2 || v[2] == [NUL, '"', NUL] then Some("")
            else Some(v[2])
    ensures SetValue(v, false) == None
  {
    TokensAreTexts(line, false);
    if |v| > 1 {
      QuoteIsMarker(v[1]);
    }
    if |v| > 2 {
      QuoteIsMarker(v[2]);
    }
  }

  // ---------------------------------------------------------------- round trip

  ghost predicate AllBlank(s: string) { forall i | 0 <= i < |s| :: IsSkipped(s[i]) }

  ghost predicate IsWord(s: string) { s != [] && forall i | 0 <= i < |s| :: IsWordChar(s[i]) }

  lemma {:induction false} BlanksSkipped(b: string, s: string)
    requires AllBlank(b) && (s == [] || !IsSkipped(s[0]))
    ensures BlankLen(b + s) == |b| && (b + s)[|b|..] == s
  {
    if b == [] {
      assert b + s == s;
    } else {
      BlanksSkipped(b[1..], s);
      assert (b + s)[1..] == b[1..] + s;
    }
  }

  lemma {:induction false} WordTaken(w: string, s: string)
    requires (forall i | 0 <= i < |w| :: IsWordChar(w[i])) && (s == [] || !IsWordChar(s[0]))
    ensures WordLen(w + s) == |w| && (w + s)[..|w|] == w && (w + s)[|w|..] == s
  {
    if w == [] {
      assert w + s == s;
    } else {
      WordTaken(w[1..], s);
      assert (w + s)[1..] == w[1..] + s;
    }
  }

  lemma TokensAfterBlanks(b: string, s: string)
    requires AllBlank(b) && s != [] && !IsSkipped(s[0])
    ensures Tokens(b + s, false) == Tokens(s, false)
  {
    BlanksSkipped(b, s);
    BlanksSkipped("", s);
    assert "" + s == s;
    assert Start(b + s, false) == Start(s, false) == s;
  }

  lemma TokensOfWord(w: string, s: string)
    requires IsWord(w) && (s == [] || !IsWordChar(s[0]))
    ensures Tokens(w + s, false) == [w] + Tokens(s, false)
  {
    WordTaken(w, s);
    assert Start(w + s, false) == w + s;
  }

  lemma {:induction false} StringLenDouble(s: string)
    ensures StringLen(Double(s) + "\"") == |Double(s)|
  {
    var y := Double(s) + "\"";
    if s == [] {
      assert y == "\"";
    } else {
      StringLenDouble(s[1..]);
      var d := DoubleChar(s[0]);
      assert y == d + (Double(s[1..]) + "\"");
      assert y[|d|..] == Double(s[1..]) + "\"";
    }
  }

  lemma {:induction false} UndoubleDouble(s: string)
    ensures Undouble(Double(s)) == s
  {
    if s != [] {
      UndoubleDouble(s[1..]);
      var d := DoubleChar(s[0]);
      assert Double(s)[|d|..] == Double(s[1..]);
      assert s == [s[0]] + s[1..];
    }
  }

  lemma TokensOfQuoted(s: string)
    ensures Tokens(Quote(s), false) == [MARKER] + (if s == [] then [] else [s]) + [MARKER]
  {
    var y := Double(s) + "\"";
    assert Quote(s) == "\"" + y && Quote(s)[1..] == y;
    assert Start(Quote(s), false) == Quote(s);
    assert Tokens(Quote(s), false) == [MARKER] + Tokens(y, true);
    Closing();
    if s == [] {
      assert y == "\"";
    } else {
      TextThenClosing(s);
    }
  }

  lemma Closing()
    ensures Tokens("\"", true) == [MARKER]
  {
    assert "\""[1..] == "";
    assert Tokens("", false) == [];
  }

  lemma TextThenClosing(s: string)
    requires s != []
    ensures Tokens(Double(s) + "\"", true) == [s] + Tokens("\"", true)
  {
    var y := Double(s) + "\"";
    StringLenDouble(s);
    UndoubleDouble(s);
    var d := DoubleChar(s[0]);
    assert y == d + (Double(s[1..]) + "\"");
    assert !IsDelimiter(y, true);
    var n := |Double(s)|;
    assert y[..n] == Double(s) && y[n..] == "\"";
  }

  function OptionLine(keyword: string, s: string): seq<Token> {
    [keyword] + ([MARKER] + (if s == "" then [] else [s]) + [MARKER])
  }

  lemma OptionTokens(indent: string, keyword: string, blanks: string, s: string)
    requires AllBlank(indent) && IsWord(keyword) && AllBlank(blanks)
    ensures Strvec(indent + (keyword + (blanks + Quote(s)))) == Some(OptionLine(keyword, s))
  {
    var tail := blanks + Quote(s);
    TokensAfterBlanks(blanks, Quote(s));
    TokensOfQuoted(s);
    TokensOfWord(keyword, tail);
    var line := keyword + tail;
    TokensAfterBlanks(indent, line);
    BlanksSkipped(indent, line);
  }

  lemma OptionValue(keyword: CString, s: CString)
    requires IsWord(keyword)
    ensures var v := OptionLine(keyword, s);
            AreTokens(v) && Validate(Some(v)) == 0 && SetValue(v, true) == Some(s)
  {
    var v := OptionLine(keyword, s);
    assert v[0] == keyword && v[1] == MARKER && v[|v| - 1] == MARKER;
    assert s != "" ==> v[2] == s;
    assert IsWordChar(keyword[0]);
    QuoteIsMarker(v[2]);
  }

  /** Printing an option and reading the line back gives the value, whatever its characters. */
  lemma RoundTrip(indent: string, keyword: CString, blanks: string, s: CString)
    requires AllBlank(indent) && IsWord(keyword) && AllBlank(blanks)
    ensures var v := Strvec(indent + (keyword + (blanks + Quote(s))));
            v.Some? && AreTokens(v.value) && Validate(v) == 0 && SetValue(v.value, true) == Some(s)
  {
    OptionTokens(indent, keyword, blanks, s);
    OptionValue(keyword, s);
  }

  /** An option line in a new buffer. */
  method PrintOption(keyword: CString, s: CString, haveMemory: bool) returns (text: Option<CString>)
    ensures text.Some? ==> text.value == keyword + (" " + Quote(s))
    ensures haveMemory && |keyword| + 2 * |s| + 3 <= INT_MAX ==> text.Some?
  {
    var line := new Strbuf();
    DoubleLength(s);
    var ret := line.AppendStr(Some(keyword), haveMemory);
    if ret < 0 { return None; }
    ret := line.AppendStr(Some(" "), haveMemory);
    if ret < 0 { return None; }
    ret := line.AppendQuoted(Some(s), haveMemory);
    if ret < 0 { return None; }
    DoubleText(s);
    assert line.Contents() == keyword + (" " + Quote(s));
    text := Some(line.Contents());
  }

  /** Print an option into a buffer, tokenize the line, validate it and take the value. */
  method Echo(keyword: CString, s: CString, haveMemory: bool) returns (value: Option<string>)
    requires IsWord(keyword)
    ensures value.Some? ==> value.value == s
    ensures haveMemory && |keyword| + 2 * |s| + 3 <= INT_MAX ==> value.Some?
  {
    var text := PrintOption(keyword, s, haveMemory);
    if text.None? { return None; }
    RoundTrip("", keyword, " ", s);
    assert "" + text.value == text.value;
    var v := AllocStrvec(text.value);
    if Validate(v) != 0 { return None; }
    value := SetValue(v.value, haveMemory);
  }

  lemma {:induction false} DoubleText(s: string)
    requires NUL !in s
    ensures NUL !in Double(s)
  {
    if s != [] {
      DoubleText(s[1..]);
    }
  }
}
