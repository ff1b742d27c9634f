/**
  The device-mapper table of a multipath map: printing it, and parsing it back into an empty map.
 */
module DmTable {
  import opened Basics
  import opened Words
  import opened Options

  const BLK_DEV_SIZE: nat := 33

  // ---------------------------------------------------------------- what the parser reads

  function Count(n: int): nat { if n < 0 then 0 else n }

  /** `num` further words merged into acc; None if the words run out. */
  function Collect(acc: string, num: nat, c: Cursor): Option<string>
    decreases num
  {
    if num == 0 then Some(acc)
    else if c.Word().None? then None
    else Collect(acc + (" " + c.Word().value), num - 1, c.Next())
  }

  /** The reader after `num` words. */
  function Nexts(num: nat, c: Cursor): Cursor
    decreases num
  {
    if num == 0 then c else Nexts(num - 1, c.Next())
  }

  function Skips(num: nat, c: Cursor): Cursor
    decreases num
  {
    if num == 0 then c else Skips(num - 1, c.Skip())
  }

  /** A count and as many words. */
  function CountedText(c: Cursor): Option<string> {
    if c.Word().None? then None else Collect(c.Word().value, Count(Atoi(c.Word().value)), c.Next())
  }

  function CountedEnd(c: Cursor): Cursor {
    if c.Word().None? then c else Nexts(Count(Atoi(c.Word().value)), c.Next())
  }

  /** The device number kept for a path: that of a known path, or a copy of limited size. */
  function DevOf(known: set<string>, word: string): (dev: string)
    ensures dev == word || (word !in known && |dev| == 32 && dev <= word)
  {
    if word in known || |word| < BLK_DEV_SIZE then word else word[..BLK_DEV_SIZE - 1]
  }

  /** Fault: a missing word would be passed to atoi. */
  datatype Outcome = Done | Failed | Fault

  datatype PathsState = PathsState(outcome: Outcome, devs: seq<string>, minio: int, c: Cursor)

  /** The arguments of a path: the first is the I/O count, others are passed over. */
  function Arguments(args: nat, s: PathsState): PathsState {
    if args == 0 then s
    else if s.c.Word().None? then s.(outcome := Fault)
    else s.(minio := Atoi(s.c.Word().value), c := Skips(args - 1, s.c.Next()))
  }

  function OnePath(args: nat, known: set<string>, s: PathsState): PathsState {
    if s.c.Word().None? || (s.c.Word().value == "" && "" !in known) then s.(outcome := Failed)
    else Arguments(args, s.(devs := s.devs + [DevOf(known, s.c.Word().value)], c := s.c.Next()))
  }

  function Paths(num: nat, args: nat, known: set<string>, s: PathsState): PathsState
    decreases num
  {
    if num == 0 || s.outcome != Done then s else Paths(num - 1, args, known, OnePath(args, known, s))
  }

  /** What the group loop changes. */
  datatype GroupsState =
    GroupsState(outcome: Outcome, selector: Option<string>, numArgs: int, groups: seq<seq<string>>, minio: int,
                c: Cursor)

  /** The selector is taken from the first group, up to its argument count. */
  function SelectorPart(s: GroupsState): GroupsState {
    if s.selector.Some? then s.(c := Skips(Count(s.numArgs), s.c.Skip().Skip()))
    else
      var w, n := s.c.Word(), s.c.Next().Word();
      if w.None? || n.None? then s.(outcome := Failed)
      else s.(selector := Some(w.value + (" " + n.value)), numArgs := Atoi(n.value),
              c := Skips(Count(Atoi(n.value)), s.c.Next().Next()))
  }

  function PathsPart(known: set<string>, s: GroupsState): GroupsState {
    var num, args := s.c.Word(), s.c.Next().Word();
    if num.None? || args.None? then s.(outcome := Failed)
    else
      var p := Paths(Count(Atoi(num.value)), Count(Atoi(args.value)), known,
                     PathsState(Done, [], s.minio, s.c.Next().Next()));
      s.(outcome := p.outcome, groups := s.groups + [p.devs], minio := p.minio, c := p.c)
  }

  function OneGroup(known: set<string>, s: GroupsState): GroupsState {
    var t := SelectorPart(s);
    if t.outcome != Done then t else PathsPart(known, t)
  }

  function Groups(num: nat, known: set<string>, s: GroupsState): GroupsState
    decreases num
  {
    if num == 0 || s.outcome != Done then s else Groups(num - 1, known, OneGroup(known, s))
  }

  datatype Table =
    Table(features: string, hwhandler: string, nextpg: int, selector: Option<string>, minio: int,
          groups: seq<seq<string>>)

  datatype Parsed = Parsed(table: Table) | NotParsed(outcome: Outcome)

  /** The table read from c into a map that has the given selector, I/O count and groups. */
  function Parse(c: Cursor, known: set<string>, selector: Option<string>, minio: int,
                 groups: seq<seq<string>>): Parsed {
    var features, c1 := CountedText(c), CountedEnd(c);
    if features.None? then NotParsed(Failed)
    else
      var hwhandler, c2 := CountedText(c1), CountedEnd(c1);
      if hwhandler.None? then NotParsed(Failed)
      else ParseRest(features.value, hwhandler.value, c2, known, selector, minio, groups)
  }

  function ParseRest(features: string, hwhandler: string, c: Cursor, known: set<string>, selector: Option<string>,
                     minio: int, groups: seq<seq<string>>): Parsed {
    var num, next := c.Word(), c.Next().Word();
    if num.None? || next.None? then NotParsed(Failed)
    else
      var n := Atoi(num.value);
      var s := Groups(Count(n), known,
                      GroupsState(Done, selector, 0, if n > 0 then groups else [], minio, c.Next().Next()));
      if s.outcome == Done then Parsed(Table(features, hwhandler, Atoi(next.value), s.selector, s.minio, s.groups))
      else NotParsed(s.outcome)
  }

  // ---------------------------------------------------------------- the map

  class Multipath {
    var features: Option<string>
    var hwhandler: Option<string>
    var selector: Option<string>
    var nextpg: int
    var minio: int
    var pg: seq<seq<string>>

    constructor ()
      ensures features == hwhandler == selector == None && pg == []
    {
      features, hwhandler, selector := None, None, None;
      nextpg, minio, pg := 0, 0, [];
    }

    /** The loop over the paths of one group. */
    method ReadPaths(text: CString, from: nat, num: nat, args: nat, known: set<string>, ghost c: Cursor)
        returns (outcome: Outcome, devs: seq<string>, p: nat)
      requires Points(text, from, c)
      modifies this`minio
      ensures var s := Paths(num, args, known, PathsState(Done, [], old(minio), c));
              outcome == s.outcome && (outcome == Done ==> devs == s.devs && minio == s.minio && Points(text, p, s.c))
    {
      p, devs, outcome := from, [], Done;
      ghost var first := PathsState(Done, [], minio, c);
      ghost var s := first;
      var j := 0;
      while j < num
        invariant outcome == Done && j <= num && s == PathsState(Done, devs, minio, s.c) && Points(text, p, s.c)
        invariant Paths(num, args, known, first) == Paths(num - j, args, known, s)
      {
        ghost var s' := OnePath(args, known, s);
        outcome, devs, p := ReadPath(text, p, args, known, devs, s);
        if outcome != Done {
          assert Paths(num - j, args, known, s) == Paths(num - j - 1, args, known, s') == s';
          return;
        }
        s := s';
        j := j + 1;
      }
    }

    /** One path and its arguments. */
    method ReadPath(text: CString, from: nat, args: nat, known: set<string>, before: seq<string>, ghost s: PathsState)
        returns (outcome: Outcome, devs: seq<string>, p: nat)
      requires Points(text, from, s.c) && s == PathsState(Done, before, minio, s.c)
      modifies this`minio
      ensures var t := OnePath(args, known, s);
              outcome == t.outcome && (outcome == Done ==> devs == t.devs && minio == t.minio && Points(text, p, t.c))
    {
      var word, advance := GetWord(text, from, s.c);
      devs, p := before, from + advance;
      if word.None? || (word.value == "" && "" !in known) { return Failed, devs, p; }
      devs := devs + [DevOf(known, word.value)];
      outcome, p := ReadArguments(text, p, args, s.(devs := devs, c := s.c.Next()));
    }

    /** The arguments of one path. */
    method ReadArguments(text: CString, from: nat, args: nat, ghost s: PathsState) returns (outcome: Outcome, p: nat)
      requires Points(text, from, s.c) && s.outcome == Done && s.minio == minio
      modifies this`minio
      ensures var t := Arguments(args, s);
              outcome == t.outcome && (outcome == Done ==> minio == t.minio && Points(text, p, t.c))
    {
      p, outcome := from, Done;
      if args > 0 {
        var word, advance := GetWord(text, p, s.c);
        p := p + advance;
        if word.None? { return Fault, p; }
        minio := Atoi(word.value);
        p := PassWords(text, p, args - 1, s.c.Next());
      }
    }

    /** The selector of one group; the first one is kept. */
    method ReadSelector(text: CString, from: nat, numArgs: int, ghost s: GroupsState)
        returns (ok: bool, args: int, p: nat)
      requires Points(text, from, s.c) && s.outcome == Done && s.selector == selector && s.numArgs == numArgs
      modifies this`selector
      ensures var t := SelectorPart(s);
              ok == (t.outcome == Done) && (ok ==> selector == t.selector && args == t.numArgs && Points(text, p, t.c))
    {
      if selector.None? {
        ok, args, p := ReadFirstSelector(text, from, s);
      } else {
        ok, args := true, numArgs;
        var advance := PassWord(text, from, s.c);
        p := from + advance;
        advance := PassWord(text, p, s.c.Skip());
        p := p + advance;
        p := PassWords(text, p, Count(args), s.c.Skip().Skip());
      }
    }

    method ReadFirstSelector(text: CString, from: nat, ghost s: GroupsState) returns (ok: bool, args: int, p: nat)
      requires Points(text, from, s.c) && s.outcome == Done && s.selector == selector == None
      modifies this`selector
      ensures var t := SelectorPart(s);
              ok == (t.outcome == Done) && (ok ==> selector == t.selector && args == t.numArgs && Points(text, p, t.c))
    {
      var word, advance := GetWord(text, from, s.c);
      p, args := from + advance, 0;
      if word.None? { return false, args, p; }
      var num;
      num, advance := GetWord(text, p, s.c.Next());
      p := p + advance;
      if num.None? { return false, args, p; }
      args := Atoi(num.value);
      selector := Some(word.value + (" " + num.value));
      p := PassWords(text, p, Count(args), s.c.Next().Next());
      ok := true;
    }

    /** One group: selector, counts, paths. */
    method ReadGroup(text: CString, from: nat, numArgs: int, known: set<string>, ghost s: GroupsState)
        returns (outcome: Outcome, args: int, p: nat)
      requires Points(text, from, s.c) && s == GroupsState(Done, selector, numArgs, pg, minio, s.c)
      modifies this`selector, this`minio, this`pg
      ensures var t := OneGroup(known, s);
              outcome == t.outcome &&
              (outcome == Done ==> t == GroupsState(Done, selector, args, pg, minio, t.c) && Points(text, p, t.c))
    {
      var ok;
      ok, args, p := ReadSelector(text, from, numArgs, s);
      if !ok { return Failed, args, p; }
      outcome, p := ReadGroupPaths(text, p, known, SelectorPart(s));
    }

    method ReadGroupPaths(text: CString, from: nat, known: set<string>, ghost s: GroupsState)
        returns (outcome: Outcome, p: nat)
      requires Points(text, from, s.c) && s.groups == pg && s.minio == minio
      modifies this`minio, this`pg
      ensures var t := PathsPart(known, s);
              outcome == t.outcome && (outcome == Done ==> t.groups == pg && t.minio == minio && Points(text, p, t.c))
    {
      ghost var c := s.c;
      var num, advance := GetWord(text, from, c);
      p, c := from + advance, c.Next();
      if num.None? { return Failed, p; }
      var pathArgs;
      pathArgs, advance := GetWord(text, p, c);
      p, c := p + advance, c.Next();
      if pathArgs.None? { return Failed, p; }
      var devs;
      outcome, devs, p := ReadPaths(text, p, Count(Atoi(num.value)), Count(Atoi(pathArgs.value)), known, c);
      pg := pg + [devs];
    }

    /** The loop over the groups. */
    method ReadGroups(text: CString, from: nat, num: nat, known: set<string>, ghost c: Cursor)
        returns (outcome: Outcome)
      requires Points(text, from, c)
      modifies this`selector, this`minio, this`pg
      ensures var t := Groups(num, known, GroupsState(Done, old(selector), 0, old(pg), old(minio), c));
              outcome == t.outcome && (outcome == Done ==> selector == t.selector && pg == t.groups && minio == t.minio)
    {
      var p, args, i := from, 0, 0;
      ghost var first := GroupsState(Done, selector, 0, pg, minio, c);
      ghost var s := first;
      while i < num
        invariant i <= num && s == GroupsState(Done, selector, args, pg, minio, s.c) && Points(text, p, s.c)
        invariant Groups(num, known, first) == Groups(num - i, known, s)
      {
        ghost var s' := OneGroup(known, s);
        outcome, args, p := ReadGroup(text, p, args, known, s);
        if outcome != Done {
          assert Groups(num - i, known, s) == Groups(num - i - 1, known, s') == s';
          return;
        }
        s := s';
        i := i + 1;
      }
      outcome := Done;
    }

    /** disassemble_map */
    method Disassemble(text: CString, known: set<string>) returns (outcome: Outcome)
      modifies this
      ensures var r := Parse(CursorAt(text), known, old(selector), old(minio), old(pg));
              if r.Parsed? then
                outcome == Done && features == Some(r.table.features) && hwhandler == Some(r.table.hwhandler) &&
                nextpg == r.table.nextpg && selector == r.table.selector &&
                minio == r.table.minio && pg == r.table.groups
              else outcome == r.outcome && outcome != Done
    {
      ghost var c := CursorAt(text);
      assert text[0..] == text;
      var p;
      features, p := ReadCounted(text, 0, c);
      if features.None? { return Failed; }
      c := CountedEnd(c);
      hwhandler, p := ReadCounted(text, p, c);
      if hwhandler.None? { return Failed; }
      c := CountedEnd(c);
      outcome := ReadRest(text, p, known, c);
    }

    method ReadRest(text: CString, from: nat, known: set<string>, ghost c: Cursor) returns (outcome: Outcome)
      requires Points(text, from, c) && features.Some? && hwhandler.Some?
      modifies this`nextpg, this`selector, this`minio, this`pg
      ensures var r := ParseRest(features.value, hwhandler.value, c, known, old(selector), old(minio), old(pg));
              if r.Parsed? then outcome == Done && nextpg == r.table.nextpg && selector == r.table.selector &&
                                minio == r.table.minio && pg == r.table.groups
              else outcome == r.outcome && outcome != Done
    {
      var word, advance := GetWord(text, from, c);
      if word.None? { return Failed; }
      var numPg := Atoi(word.value);
      if numPg <= 0 { pg := []; }
      outcome := ReadNextPg(text, from + advance, Count(numPg), known, c.Next());
      if outcome != Done { pg := []; }
    }

    method ReadNextPg(text: CString, from: nat, numPg: nat, known: set<string>, ghost c: Cursor)
        returns (outcome: Outcome)
      requires Points(text, from, c)
      modifies this`nextpg, this`selector, this`minio, this`pg
      ensures if c.Word().None? then outcome == Failed
              else
                var t := Groups(numPg, known, GroupsState(Done, old(selector), 0, old(pg), old(minio), c.Next()));
                outcome == t.outcome && nextpg == Atoi(c.Word().value) &&
                (outcome == Done ==> selector == t.selector && pg == t.groups && minio == t.minio)
    {
      var word, advance := GetWord(text, from, c);
      if word.None? { return Failed; }
      nextpg := Atoi(word.value);
      outcome := ReadGroups(text, from + advance, numPg, known, c.Next());
    }
  }

  /** merge_words for a counted option; the loop over its words. */
  method ReadCounted(text: CString, from: nat, ghost c: Cursor) returns (value: Option<string>, p: nat)
    requires Points(text, from, c)
    ensures value == CountedText(c) && (value.Some? ==> Points(text, p, CountedEnd(c)))
  {
    var advance;
    value, advance := GetWord(text, from, c);
    p := from + advance;
    if value.None? { return; }
    value, p := ReadMore(text, p, value.value, Count(Atoi(value.value)), c.Next());
  }

  method ReadMore(text: CString, from: nat, first: string, num: nat, ghost c: Cursor)
      returns (value: Option<string>, p: nat)
    requires Points(text, from, c)
    ensures value == Collect(first, num, c) && (value.Some? ==> Points(text, p, Nexts(num, c)))
  {
    var acc, i := first, 0;
    p := from;
    ghost var d := c;
    while i < num
      invariant i <= num && Points(text, p, d)
      invariant Collect(first, num, c) == Collect(acc, num - i, d) && Nexts(num, c) == Nexts(num - i, d)
    {
      var word, advance := GetWord(text, p, d);
      p, d := p + advance, d.Next();
      if word.None? { return None, p; }
      acc := acc + (" " + word.value);
      i := i + 1;
    }
    value := Some(acc);
  }

  method PassWords(text: CString, from: nat, num: nat, ghost c: Cursor) returns (p: nat)
    requires Points(text, from, c)
    ensures Points(text, p, Skips(num, c))
  {
    p := from;
    ghost var d := c;
    var j := 0;
    while j < num
      invariant j <= num && Points(text, p, d) && Skips(num, c) == Skips(num - j, d)
    {
      var advance := PassWord(text, p, d);
      p, d := p + advance, d.Skip();
      j := j + 1;
    }
  }

  // ---------------------------------------------------------------- printing

  datatype Map =
    Map(features: CString, hwhandler: CString, selector: CString, bestpg: int, minio: int, groups: seq<seq<string>>)

  function InitialPg(m: Map): int { if m.groups == [] then 0 else m.bestpg }

  function PathsText(buff: string, devs: seq<string>, minio: int): string {
    if devs == [] then buff
    else Append(Append(PathsText(buff, devs[..|devs| - 1], minio), devs[|devs| - 1]), Itoa(minio))
  }

  function GroupText(buff: string, m: Map, g: seq<string>): string {
    PathsText(Append(Append(Append(buff, m.selector), Itoa(|g|)), "1"), g, m.minio)
  }

  /** The first n groups. */
  function GroupsText(buff: string, m: Map, gs: seq<seq<string>>, n: nat): string
    requires n <= |gs|
  {
    if n == 0 then buff else GroupText(GroupsText(buff, m, gs, n - 1), m, gs[n - 1])
  }

  function Text(m: Map): string {
    GroupsText(Header(m), m, m.groups, |m.groups|)
  }

  predicate AllNamed(g: seq<string>) { forall j | 0 <= j < |g| :: g[j] != "" }

  predicate HasDevices(gs: seq<seq<string>>) { forall i {:trigger AllNamed(gs[i])} | 0 <= i < |gs| :: AllNamed(gs[i]) }

  function Header(m: Map): string {
    Append(Append(Append(m.features, m.hwhandler), Itoa(|m.groups|)), Itoa(InitialPg(m)))
  }

  /** assemble_map; None when a path has no device number */
  method Assemble(m: Map, c: Settings) returns (params: Option<string>)
    ensures params == if HasDevices(m.groups) then Some(Text(Prepared(m, c))) else None
  {
    var printed := Prepared(m, c);
    var ok, buff := PrintGroups(printed, m.groups, Header(printed));
    return if ok then Some(buff) else None;
  }

  /** The map with the features added that its settings ask for. */
  function Prepared(m: Map, c: Settings): Map { m.(features := WithFeatures(m.features, c)) }

  method PrintGroups(m: Map, gs: seq<seq<string>>, start: string) returns (ok: bool, buff: string)
    ensures ok == HasDevices(gs) && (ok ==> buff == GroupsText(start, m, gs, |gs|))
  {
    buff := start;
    var i := 0;
    while i < |gs|
      invariant 0 <= i <= |gs| && buff == GroupsText(start, m, gs, i) && Named(gs, i)
    {
      ok, buff := PrintGroup(m, gs[i], buff);
      NamedStep(gs, i);
      if !ok { return; }
      i := i + 1;
    }
    ok := true;
  }

  ghost predicate Named(gs: seq<seq<string>>, n: nat)
    requires n <= |gs|
  {
    forall i {:trigger AllNamed(gs[i])} | 0 <= i < n :: AllNamed(gs[i])
  }

  lemma NamedStep(gs: seq<seq<string>>, i: nat)
    requires i < |gs| && Named(gs, i)
    ensures if AllNamed(gs[i]) then Named(gs, i + 1) else !HasDevices(gs)
  {
  }

  method PrintGroup(m: Map, g: seq<string>, before: string) returns (ok: bool, buff: string)
    ensures ok == AllNamed(g)
    ensures ok ==> buff == GroupText(before, m, g)
  {
    var start := Append(Append(Append(before, m.selector), Itoa(|g|)), "1");
    buff := start;
    for j := 0 to |g|
      invariant buff == PathsText(start, g[..j], m.minio)
      invariant forall k | 0 <= k < j :: g[k] != ""
    {
      if |g[j]| == 0 { return false, buff; }
      buff := Append(Append(buff, g[j]), Itoa(m.minio));
      assert g[..j + 1][..j] == g[..j];
    }
    assert g[..|g|] == g;
    ok := true;
  }

  // ---------------------------------------------------------------- the words of a printed table

  function PathWords(devs: seq<string>, minio: int): seq<string> {
    if devs == [] then [] else [devs[0], Itoa(minio)] + PathWords(devs[1..], minio)
  }

  function GroupWords(m: Map, g: seq<string>): seq<string> {
    Split(m.selector) + ([Itoa(|g|), "1"] + PathWords(g, m.minio))
  }

  function GroupsWords(m: Map, gs: seq<seq<string>>): seq<string> {
    if gs == [] then [] else GroupWords(m, gs[0]) + GroupsWords(m, gs[1..])
  }

  function TableWords(m: Map): seq<string> {
    Split(m.features) + (Split(m.hwhandler) + ([Itoa(|m.groups|), Itoa(InitialPg(m))] + GroupsWords(m, m.groups)))
  }

  lemma {:induction false} PathWordsLast(devs: seq<string>, d: string, minio: int)
    ensures PathWords(devs + [d], minio) == PathWords(devs, minio) + [d, Itoa(minio)]
  {
    if devs == [] {
      assert devs + [d] == [d] && [d][1..] == [];
    } else {
      PathWordsLast(devs[1..], d, minio);
      assert (devs + [d])[1..] == devs[1..] + [d];
      SeqAssoc([devs[0], Itoa(minio)], PathWords(devs[1..], minio), [d, Itoa(minio)]);
    }
  }

  ghost predicate AllWords(ws: seq<string>) { forall i | 0 <= i < |ws| :: IsWord(ws[i]) }

  lemma {:induction false} PathsTextWords(buff: string, devs: seq<string>, minio: int)
    requires AllWords(devs)
    ensures Split(PathsText(buff, devs, minio)) == Split(buff) + PathWords(devs, minio)
    decreases |devs|
  {
    if devs != [] {
      var n := |devs| - 1;
      var r := PathsText(buff, devs[..n], minio);
      PathsTextWords(buff, devs[..n], minio);
      AtoiItoa(minio);
      SplitOne(devs[n]);
      SplitOne(Itoa(minio));
      AppendWords(r, devs[n]);
      AppendWords(Append(r, devs[n]), Itoa(minio));
      PathWordsLast(devs[..n], devs[n], minio);
      assert devs == devs[..n] + [devs[n]];
      TwoMore(Split(buff), PathWords(devs[..n], minio), devs[n], Itoa(minio));
    }
  }

  lemma TwoMore<T>(a: seq<T>, b: seq<T>, x: T, y: T)
    ensures a + b + [x] + [y] == a + (b + [x, y])
  {
  }

  lemma ThreeMore<T>(a: seq<T>, b: seq<T>, x: T, y: T, c: seq<T>)
    ensures a + b + [x] + [y] + c == a + (b + ([x, y] + c))
  {
  }

  lemma GroupTextWords(buff: string, m: Map, g: seq<string>)
    requires AllWords(g)
    ensures Split(GroupText(buff, m, g)) == Split(buff) + GroupWords(m, g)
  {
    var b1 := Append(buff, m.selector);
    var b2 := Append(b1, Itoa(|g|));
    var b3 := Append(b2, "1");
    AtoiItoa(|g|);
    SplitOne(Itoa(|g|));
    SplitOne("1");
    AppendWords(buff, m.selector);
    AppendWords(b1, Itoa(|g|));
    AppendWords(b2, "1");
    PathsTextWords(b3, g, m.minio);
    ThreeMore(Split(buff), Split(m.selector), Itoa(|g|), "1", PathWords(g, m.minio));
  }

  lemma {:induction false} GroupsWordsLast(m: Map, gs: seq<seq<string>>, g: seq<string>)
    ensures GroupsWords(m, gs + [g]) == GroupsWords(m, gs) + GroupWords(m, g)
  {
    if gs == [] {
      assert gs + [g] == [g] && [g][1..] == [];
    } else {
      GroupsWordsLast(m, gs[1..], g);
      assert (gs + [g])[1..] == gs[1..] + [g];
      SeqAssoc(GroupWords(m, gs[0]), GroupsWords(m, gs[1..]), GroupWords(m, g));
    }
  }

  lemma {:induction false} GroupsTextWords(buff: string, m: Map, gs: seq<seq<string>>, n: nat)
    requires n <= |gs| && forall i | 0 <= i < n :: AllWords(gs[i])
    ensures Split(GroupsText(buff, m, gs, n)) == Split(buff) + GroupsWords(m, gs[..n])
  {
    if n > 0 {
      var i := n - 1;
      var text := GroupsText(buff, m, gs, i);
      GroupsTextWords(buff, m, gs, i);
      OneMore(gs, i);
      assert GroupsText(buff, m, gs, n) == GroupText(text, m, gs[i]);
      GroupTextStep(buff, m, gs[..i], gs[i], text);
    }
  }

  lemma OneMore<T>(s: seq<T>, i: nat)
    requires i < |s|
    ensures s[..i + 1] == s[..i] + [s[i]]
  {
  }

  lemma GroupTextStep(buff: string, m: Map, front: seq<seq<string>>, g: seq<string>, text: string)
    requires AllWords(g) && Split(text) == Split(buff) + GroupsWords(m, front)
    ensures Split(GroupText(text, m, g)) == Split(buff) + GroupsWords(m, front + [g])
  {
    GroupTextWords(text, m, g);
    GroupsWordsLast(m, front, g);
    SeqAssoc(Split(buff), GroupsWords(m, front), GroupWords(m, g));
  }

  lemma TextWords(m: Map)
    requires forall i | 0 <= i < |m.groups| :: AllWords(m.groups[i])
    ensures Split(Text(m)) == TableWords(m)
  {
    var n, i := Itoa(|m.groups|), Itoa(InitialPg(m));
    var b1 := Append(m.features, m.hwhandler);
    var b2 := Append(b1, n);
    AtoiItoa(|m.groups|);
    AtoiItoa(InitialPg(m));
    SplitOne(n);
    SplitOne(i);
    AppendWords(m.features, m.hwhandler);
    AppendWords(b1, n);
    AppendWords(b2, i);
    GroupsTextWords(Append(b2, i), m, m.groups, |m.groups|);
    assert m.groups[..|m.groups|] == m.groups;
    ThreeMore(Split(m.features), Split(m.hwhandler), n, i, GroupsWords(m, m.groups));
  }

  /** The table of one group of two paths, word for word. */
  lemma TableOfTwoPaths(m: Map, d: string, e: string)
    requires m.groups == [[d, e]] && IsWord(d) && IsWord(e)
    ensures Split(Text(m)) == Split(m.features) + (Split(m.hwhandler) + (["1", Itoa(m.bestpg)] +
                              (Split(m.selector) + ["2", "1", d, Itoa(m.minio), e, Itoa(m.minio)])))
  {
    TextWords(m);
    var n := Itoa(m.minio);
    assert [d, e][1..] == [e] && [e][1..] == [] && [[d, e]][1..] == [];
    assert PathWords([e], m.minio) == [e, n] + [];
    assert PathWords([d, e], m.minio) == [d, n] + [e, n];
    assert ["2", "1"] + ([d, n] + [e, n]) == ["2", "1", d, n, e, n];
    assert GroupsWords(m, []) == [];
    var g := GroupWords(m, [d, e]);
    assert g + [] == g;
    assert Decimal(1) == "1" && Decimal(2) == "2";
  }

  // ---------------------------------------------------------------- reading them back

  function Join(acc: string, ws: seq<string>): string
    decreases |ws|
  {
    if ws == [] then acc else Join(Append(acc, ws[0]), ws[1..])
  }

  lemma {:induction false} JoinWords(acc: string, ws: seq<string>)
    requires Clean(ws)
    ensures Split(Join(acc, ws)) == Split(acc) + ws
    decreases |ws|
  {
    if ws != [] {
      AppendWords(acc, ws[0]);
      SplitOne(ws[0]);
      JoinWords(Append(acc, ws[0]), ws[1..]);
      SeqAssoc(Split(acc), [ws[0]], ws[1..]);
      assert ws == [ws[0]] + ws[1..];
    }
  }

  lemma ReadOne(w: string, rest: seq<string>)
    ensures var c := Cursor([w] + rest, false);
            c.Word() == Some(Chop(w)) && c.Skip() == Cursor(rest, false) &&
            c.Next() == if rest == [] then c else c.Skip()
  {
    assert ([w] + rest)[1..] == rest;
  }

  lemma {:induction false} CollectWords(acc: string, ws: seq<string>, rest: seq<string>)
    requires Clean(ws) && rest != []
    ensures var c := Cursor(ws + rest, false);
            Collect(acc, |ws|, c) == Some(Join(acc, ws)) && Nexts(|ws|, c) == Cursor(rest, false)
    decreases |ws|
  {
    if ws == [] {
      assert ws + rest == rest;
    } else {
      ReadOne(ws[0], ws[1..] + rest);
      assert ws + rest == [ws[0]] + (ws[1..] + rest);
      CollectWords(Append(acc, ws[0]), ws[1..], rest);
    }
  }

  lemma {:induction false} SkipsWords(ws: seq<string>, rest: seq<string>)
    ensures Skips(|ws|, Cursor(ws + rest, false)) == Cursor(rest, false)
    decreases |ws|
  {
    if ws == [] {
      assert ws + rest == rest;
    } else {
      ReadOne(ws[0], ws[1..] + rest);
      assert ws + rest == [ws[0]] + (ws[1..] + rest);
      SkipsWords(ws[1..], rest);
    }
  }

  lemma CountedRead(ws: seq<string>, rest: seq<string>)
    requires Counted(ws, 0) && rest != []
    ensures var c := Cursor(ws + rest, false);
            CountedText(c) == Some(Join(ws[0], ws[1..])) && CountedEnd(c) == Cursor(rest, false)
  {
    ReadOne(ws[0], ws[1..] + rest);
    assert ws + rest == [ws[0]] + (ws[1..] + rest);
    CollectWords(ws[0], ws[1..], rest);
  }

  /** A device number as a path has it. */
  ghost predicate IsDev(d: string) { IsWord(d) && Chop(d) == d && |d| <= 32 }

  ghost predicate AreDevs(g: seq<string>) { forall i | 0 <= i < |g| :: IsDev(g[i]) }

  lemma OnePathRead(d: string, minio: int, rest: seq<string>, known: set<string>, s: PathsState)
    requires IsDev(d) && s.outcome == Done && s.c == Cursor([d, Itoa(minio)] + rest, false)
    ensures var t := OnePath(1, known, s);
            t.outcome == Done && t.devs == s.devs + [d] && t.minio == minio &&
            (rest != [] ==> t.c == Cursor(rest, false))
  {
    assert [d, Itoa(minio)] + rest == [d] + ([Itoa(minio)] + rest);
    ReadOne(d, [Itoa(minio)] + rest);
    ReadOne(Itoa(minio), rest);
    AtoiItoa(minio);
  }

  lemma WordsAhead(g: seq<string>, minio: int, rest: seq<string>)
    requires g != [] || rest != []
    ensures PathWords(g, minio) + rest != []
  {
  }

  lemma {:induction false} PathsRead(g: seq<string>, minio: int, rest: seq<string>, known: set<string>, s: PathsState)
    requires AreDevs(g) && s.outcome == Done
    requires g != [] || rest != [] ==> s.c == Cursor(PathWords(g, minio) + rest, false)
    ensures var t := Paths(|g|, 1, known, s);
            t.outcome == Done && t.devs == s.devs + g && t.minio == (if g == [] then s.minio else minio) &&
            (rest != [] ==> t.c == Cursor(rest, false))
    decreases |g|
  {
    if g == [] {
      assert PathWords(g, minio) + rest == rest && s.devs + g == s.devs;
    } else {
      var d, g' := g[0], g[1..];
      var t := PathStep(g, d, g', minio, rest, known, s);
      PathsRead(g', minio, rest, known, t);
      DevAdded(s.devs, d, g', g);
    }
  }

  lemma PathStep(g: seq<string>, d: string, g': seq<string>, minio: int, rest: seq<string>, known: set<string>,
                 s: PathsState)
      returns (t: PathsState)
    requires g == [d] + g' && IsDev(d) && s.outcome == Done && s.c == Cursor(PathWords(g, minio) + rest, false)
    ensures Paths(|g|, 1, known, s) == Paths(|g'|, 1, known, t)
    ensures t.outcome == Done && t.devs == s.devs + [d] && t.minio == minio
    ensures g' != [] || rest != [] ==> t.c == Cursor(PathWords(g', minio) + rest, false)
  {
    assert g[1..] == g';
    SeqAssoc([d, Itoa(minio)], PathWords(g', minio), rest);
    OnePathRead(d, minio, PathWords(g', minio) + rest, known, s);
    t := OnePath(1, known, s);
    if g' != [] || rest != [] {
      WordsAhead(g', minio, rest);
    }
  }

  lemma DevAdded<T>(a: seq<T>, d: T, g': seq<T>, g: seq<T>)
    requires g == [d] + g'
    ensures a + [d] + g' == a + g
  {
  }

  /** The selector up to its argument count. */
  ghost function SelectorHead(m: Map): string {
    var ws := Split(m.selector);
    if |ws| < 2 then "" else ws[0] + (" " + ws[1])
  }

  ghost predicate SelectorKnown(m: Map, s: GroupsState) {
    var ws := Split(m.selector);
    Counted(ws, 1) && (s.selector.None? || (s.selector == Some(SelectorHead(m)) && s.numArgs == |ws| - 2))
  }

  lemma SelectorRead(m: Map, rest: seq<string>, s: GroupsState)
    requires SelectorKnown(m, s) && rest != [] && s.c == Cursor(Split(m.selector) + rest, false)
    ensures var t := SelectorPart(s); var ws := Split(m.selector);
            t == s.(selector := Some(SelectorHead(m)), numArgs := |ws| - 2, c := Cursor(rest, false))
  {
    var ws := Split(m.selector);
    var args := ws[2..];
    assert ws + rest == [ws[0]] + ([ws[1]] + (args + rest));
    ReadOne(ws[0], [ws[1]] + (args + rest));
    ReadOne(ws[1], args + rest);
    SkipsWords(args, rest);
  }

  lemma OneIsOne()
    ensures Atoi("1") == 1 && Chop("1") == "1"
  {
    AtoiItoa(1);
    assert Itoa(1) == "1";
  }

  lemma CountsRead(n: string, one: string, ahead: seq<string>, c: Cursor)
    requires Chop(n) == n && Chop(one) == one && c == Cursor([n, one] + ahead, false)
    ensures c.Word() == Some(n) && c.Next().Word() == Some(one)
    ensures ahead != [] ==> c.Next().Next() == Cursor(ahead, false)
  {
    assert [n, one] + ahead == [n] + ([one] + ahead);
    ReadOne(n, [one] + ahead);
    ReadOne(one, ahead);
  }

  lemma PathsPartRead(m: Map, g: seq<string>, one: string, rest: seq<string>, known: set<string>, s: GroupsState)
    requires Atoi(one) == 1 && Chop(one) == one
    requires AreDevs(g) && s.outcome == Done && s.c == Cursor([Itoa(|g|), one] + (PathWords(g, m.minio) + rest), false)
    ensures var t := PathsPart(known, s);
            t.outcome == Done && t.selector == s.selector && t.numArgs == s.numArgs && t.groups == s.groups + [g] &&
            t.minio == (if g == [] then s.minio else m.minio) && (rest != [] ==> t.c == Cursor(rest, false))
  {
    var n := Itoa(|g|);
    AtoiItoa(|g|);
    CountsRead(n, one, PathWords(g, m.minio) + rest, s.c);
    if g != [] || rest != [] {
      WordsAhead(g, m.minio, rest);
    }
    var start := PathsState(Done, [], s.minio, s.c.Next().Next());
    PathsPartIs(known, s, n, one, |g|, start);
    PathsRead(g, m.minio, rest, known, start);
    assert start.devs + g == g;
  }

  lemma PathsPartIs(known: set<string>, s: GroupsState, n: string, one: string, num: nat, start: PathsState)
    requires s.c.Word() == Some(n) && s.c.Next().Word() == Some(one) && Atoi(n) == num && Atoi(one) == 1
    requires start == PathsState(Done, [], s.minio, s.c.Next().Next())
    ensures var p := Paths(num, 1, known, start);
            PathsPart(known, s) == s.(outcome := p.outcome, groups := s.groups + [p.devs], minio := p.minio, c := p.c)
  {
  }

  lemma GroupRead(m: Map, g: seq<string>, rest: seq<string>, known: set<string>, s: GroupsState)
    requires AreDevs(g) && s.outcome == Done && SelectorKnown(m, s) && s.c == Cursor(GroupWords(m, g) + rest, false)
    ensures var t := OneGroup(known, s); var ws := Split(m.selector);
            t.outcome == Done && t.selector == Some(SelectorHead(m)) && t.numArgs == |ws| - 2 &&
            t.groups == s.groups + [g] && t.minio == (if g == [] then s.minio else m.minio) &&
            (rest != [] ==> t.c == Cursor(rest, false))
  {
    var tail := [Itoa(|g|), "1"] + (PathWords(g, m.minio) + rest);
    GroupTail(Split(m.selector), [Itoa(|g|), "1"], PathWords(g, m.minio), rest);
    SelectorRead(m, tail, s);
    OneIsOne();
    PathsPartRead(m, g, "1", rest, known, SelectorPart(s));
  }

  lemma GroupTail<T>(a: seq<T>, b: seq<T>, c: seq<T>, d: seq<T>)
    ensures a + (b + c) + d == a + (b + (c + d))
  {
  }

  /** The I/O count after reading the groups: that of the last path. */
  ghost function MinioAfter(m: Map, gs: seq<seq<string>>, before: int): int {
    if gs == [] then before else MinioAfter(m, gs[1..], if gs[0] == [] then before else m.minio)
  }

  lemma {:induction false} MinioRestored(m: Map, gs: seq<seq<string>>, before: int)
    requires before == m.minio || exists i :: 0 <= i < |gs| && gs[i] != []
    ensures MinioAfter(m, gs, before) == m.minio
  {
    if gs != [] {
      assert gs == [gs[0]] + gs[1..];
      MinioRestored(m, gs[1..], if gs[0] == [] then before else m.minio);
    }
  }

  lemma {:induction false} GroupsRead(m: Map, gs: seq<seq<string>>, known: set<string>, s: GroupsState)
    requires (forall i | 0 <= i < |gs| :: AreDevs(gs[i])) && s.outcome == Done && SelectorKnown(m, s)
    requires gs != [] ==> s.c == Cursor(GroupsWords(m, gs), false)
    ensures var t := Groups(|gs|, known, s);
            t.outcome == Done && t.groups == s.groups + gs && t.minio == MinioAfter(m, gs, s.minio) &&
            t.selector == if gs == [] then s.selector else Some(SelectorHead(m))
    decreases |gs|
  {
    if gs == [] {
      assert s.groups + gs == s.groups;
    } else {
      var g, gs' := gs[0], gs[1..];
      var t := GroupStep(m, gs, g, gs', known, s);
      GroupsRead(m, gs', known, t);
      DevAdded(s.groups, g, gs', gs);
    }
  }

  lemma GroupStep(m: Map, gs: seq<seq<string>>, g: seq<string>, gs': seq<seq<string>>, known: set<string>,
                  s: GroupsState)
      returns (t: GroupsState)
    requires gs == [g] + gs' && AreDevs(g) && s.outcome == Done && SelectorKnown(m, s)
    requires s.c == Cursor(GroupsWords(m, gs), false)
    ensures Groups(|gs|, known, s) == Groups(|gs'|, known, t)
    ensures t.outcome == Done && SelectorKnown(m, t) && t.selector == Some(SelectorHead(m)) &&
            t.groups == s.groups + [g]
    ensures MinioAfter(m, gs, s.minio) == MinioAfter(m, gs', t.minio)
    ensures gs' != [] ==> t.c == Cursor(GroupsWords(m, gs'), false)
  {
    assert gs[1..] == gs';
    GroupRead(m, g, GroupsWords(m, gs'), known, s);
    t := OneGroup(known, s);
    if gs' != [] {
      GroupsAhead(m, gs');
    }
  }

  lemma GroupsAhead(m: Map, gs: seq<seq<string>>)
    requires gs != []
    ensures GroupsWords(m, gs) != []
  {
    assert |GroupWords(m, gs[0])| > 0;
  }

  /** Count-prefixed options as the configuration reader admits them, with blanks only; devices without blanks. */
  ghost predicate WellFormed(m: Map) {
    Counted(Split(m.features), 0) && Counted(Split(m.hwhandler), 0) && Counted(Split(m.selector), 1) &&
    forall i | 0 <= i < |m.groups| :: AreDevs(m.groups[i])
  }

  ghost function Expected(m: Map, minio: int): Table {
    var f, h := Split(m.features), Split(m.hwhandler);
    Table(if f == [] then "" else Join(f[0], f[1..]), if h == [] then "" else Join(h[0], h[1..]), InitialPg(m),
          if m.groups == [] then None else Some(SelectorHead(m)), MinioAfter(m, m.groups, minio), m.groups)
  }

  lemma ParseWords(m: Map, known: set<string>, minio: int)
    requires WellFormed(m)
    ensures Parse(Cursor(TableWords(m), false), known, None, minio, []) == Parsed(Expected(m, minio))
  {
    var f, h := Split(m.features), Split(m.hwhandler);
    var n, i := Itoa(|m.groups|), Itoa(InitialPg(m));
    var tail := [n, i] + GroupsWords(m, m.groups);
    CountedRead(f, h + tail);
    CountedRead(h, tail);
    RestRead(m, Join(f[0], f[1..]), Join(h[0], h[1..]), known, minio);
  }

  lemma RestRead(m: Map, features: string, hwhandler: string, known: set<string>, minio: int)
    requires WellFormed(m)
    ensures var tail := [Itoa(|m.groups|), Itoa(InitialPg(m))] + GroupsWords(m, m.groups);
            ParseRest(features, hwhandler, Cursor(tail, false), known, None, minio, []) ==
            Parsed(Expected(m, minio).(features := features, hwhandler := hwhandler))
  {
    var n, i, ahead := Itoa(|m.groups|), Itoa(InitialPg(m)), GroupsWords(m, m.groups);
    AtoiItoa(|m.groups|);
    AtoiItoa(InitialPg(m));
    CountsRead(n, i, ahead, Cursor([n, i] + ahead, false));
    if m.groups != [] {
      GroupsAhead(m, m.groups);
    }
    GroupsRead(m, m.groups, known, GroupsState(Done, None, 0, [], minio, Cursor([n, i] + ahead, false).Next().Next()));
    assert [] + m.groups == m.groups;
  }

  // ---------------------------------------------------------------- the round trip

  /** Ends in a word, and is a C string. */
  ghost predicate Tidy(s: string) { s != [] && s[|s| - 1] != ' ' && NUL !in s }

  lemma AppendTidy(buff: string, w: string)
    requires NUL !in buff && NUL !in w && IsWord(w)
    ensures Tidy(Append(buff, w))
  {
    assert w[|w| - 1] in w;
    assert Append(buff, w)[|Append(buff, w)| - 1] == w[|w| - 1];
  }

  ghost predicate NulFree(g: seq<string>) { forall i | 0 <= i < |g| :: NUL !in g[i] }

  lemma {:induction false} PathsTextTidy(buff: string, g: seq<string>, minio: int)
    requires Tidy(buff) && NulFree(g)
    ensures Tidy(PathsText(buff, g, minio))
    decreases |g|
  {
    if g != [] {
      var n := |g| - 1;
      PathsTextTidy(buff, g[..n], minio);
      ItoaTidy(minio);
      AppendTidy(Append(PathsText(buff, g[..n], minio), g[n]), Itoa(minio));
    }
  }

  lemma GroupTextTidy(buff: string, m: Map, g: seq<string>)
    requires Tidy(buff) && NulFree(g)
    ensures Tidy(GroupText(buff, m, g))
  {
    var b := Append(buff, m.selector);
    ItoaTidy(|g|);
    AppendTidy(b, Itoa(|g|));
    AppendTidy(Append(b, Itoa(|g|)), "1");
    PathsTextTidy(Append(Append(b, Itoa(|g|)), "1"), g, m.minio);
  }

  lemma {:induction false} GroupsTextTidy(buff: string, m: Map, gs: seq<seq<string>>, n: nat)
    requires n <= |gs| && Tidy(buff) && forall i | 0 <= i < n :: NulFree(gs[i])
    ensures Tidy(GroupsText(buff, m, gs, n))
  {
    if n > 0 {
      GroupsTextTidy(buff, m, gs, n - 1);
      GroupTidyStep(buff, m, gs, n, GroupsText(buff, m, gs, n - 1), gs[n - 1]);
    }
  }

  lemma GroupTidyStep(buff: string, m: Map, gs: seq<seq<string>>, n: nat, front: string, g: seq<string>)
    requires 0 < n <= |gs| && g == gs[n - 1] && front == GroupsText(buff, m, gs, n - 1) && Tidy(front) && NulFree(g)
    ensures Tidy(GroupsText(buff, m, gs, n))
  {
    GroupTextTidy(front, m, g);
    assert GroupsText(buff, m, gs, n) == GroupText(front, m, g);
  }

  lemma TextTidy(m: Map)
    requires forall i | 0 <= i < |m.groups| :: NulFree(m.groups[i])
    ensures Tidy(Text(m))
  {
    var b := Append(m.features, m.hwhandler);
    ItoaTidy(|m.groups|);
    ItoaTidy(InitialPg(m));
    AppendTidy(b, Itoa(|m.groups|));
    AppendTidy(Append(b, Itoa(|m.groups|)), Itoa(InitialPg(m)));
    GroupsTextTidy(Header(m), m, m.groups, |m.groups|);
  }

  /** Parsing an assembled table into a fresh map gives back what was assembled. */
  lemma RoundTrip(m: Map, known: set<string>, minio: int)
    requires WellFormed(m) && forall i | 0 <= i < |m.groups| :: NulFree(m.groups[i])
    ensures NUL !in Text(m) && HasDevices(m.groups)
    ensures var r := Parse(CursorAt(Text(m)), known, None, minio, []);
            r.Parsed? &&
            Split(r.table.features) == Split(m.features) && Split(r.table.hwhandler) == Split(m.hwhandler) &&
            r.table.nextpg == (if m.groups == [] then 0 else m.bestpg) && r.table.groups == m.groups &&
            (m.groups != [] ==> r.table.selector == Some(SelectorHead(m))) &&
            ((exists i :: 0 <= i < |m.groups| && m.groups[i] != []) ==> r.table.minio == m.minio)
  {
    forall i | 0 <= i < |m.groups|
      ensures AllWords(m.groups[i]) && AllNamed(m.groups[i])
    {
      assert AreDevs(m.groups[i]);
    }
    TextWords(m);
    TextTidy(m);
    ParseWords(m, known, minio);
    CountedWords(Split(m.features));
    CountedWords(Split(m.hwhandler));
    if exists i :: 0 <= i < |m.groups| && m.groups[i] != [] {
      MinioRestored(m, m.groups, minio);
    }
  }

  lemma CountedWords(ws: seq<string>)
    requires Counted(ws, 0)
    ensures Split(Join(ws[0], ws[1..])) == ws
  {
    SplitOne(ws[0]);
    JoinWords(ws[0], ws[1..]);
    assert ws == [ws[0]] + ws[1..];
  }

  lemma PreparedWellFormed(m: Map, c: Settings)
    requires WellFormed(m) && BlankOnly(m.features)
    ensures WellFormed(Prepared(m, c))
  {
    WithFeaturesGood(m.features, c);
  }

  /** assemble_map followed by disassemble_map into a new map */
  method Reload(m: Map, c: Settings, known: set<string>) returns (mpp: Multipath, outcome: Outcome)
    requires WellFormed(m) && BlankOnly(m.features) && forall i | 0 <= i < |m.groups| :: NulFree(m.groups[i])
    ensures outcome == Done && mpp.features.Some? && mpp.hwhandler.Some?
    ensures Split(m.features) != [] && Split(mpp.features.value) == WantedFeatures(Split(m.features), c)
    ensures Split(mpp.hwhandler.value) == Split(m.hwhandler) && mpp.pg == m.groups
    ensures mpp.nextpg == if m.groups == [] then 0 else m.bestpg
    ensures m.groups != [] ==> mpp.selector == Some(SelectorHead(m))
    ensures (exists i :: 0 <= i < |m.groups| && m.groups[i] != []) ==> mpp.minio == m.minio
  {
    mpp := new Multipath();
    PreparedWellFormed(m, c);
    FeaturesExactly(m.features, c);
    RoundTrip(Prepared(m, c), known, mpp.minio);
    var params := Assemble(m, c);
    outcome := mpp.Disassemble(params.value, known);
  }

  // ---------------------------------------------------------------- tables that others have written

  /** Of several arguments of a path the first is its I/O count, the others are passed over. */
  lemma MoreArguments(d: string, n: string, more: seq<string>, rest: seq<string>, known: set<string>, s: PathsState)
    requires IsDev(d) && rest != [] && s.outcome == Done && s.c == Cursor([d, n] + (more + rest), false)
    ensures OnePath(1 + |more|, known, s) ==
            s.(devs := s.devs + [d], minio := Atoi(Chop(n)), c := Cursor(rest, false))
  {
    var tail := more + rest;
    assert [d, n] + tail == [d] + ([n] + tail);
    ReadOne(d, [n] + tail);
    ReadOne(n, tail);
    SkipsWords(more, rest);
  }

  /** A path without arguments keeps the I/O count. */
  lemma NoArguments(d: string, rest: seq<string>, known: set<string>, s: PathsState)
    requires IsDev(d) && rest != [] && s.outcome == Done && s.c == Cursor([d] + rest, false)
    ensures OnePath(0, known, s) == s.(devs := s.devs + [d], c := Cursor(rest, false))
  {
    ReadOne(d, rest);
  }

  /** The first group's selector is kept, the groups that were there stay in front. */
  lemma {:induction false} GroupsOnlyAdd(num: nat, known: set<string>, s: GroupsState)
    ensures var t := Groups(num, known, s);
            s.groups <= t.groups && (s.selector.Some? ==> t.selector == s.selector && t.numArgs == s.numArgs)
    ensures var t := Groups(num, known, s);
            s.outcome == Done && t.outcome == Done ==> |t.groups| == |s.groups| + num
    decreases num
  {
    if num > 0 && s.outcome == Done {
      var t := OneGroup(known, s);
      OneGroupAdds(known, s);
      GroupsUnfold(num, known, s, t);
      GroupsOnlyAdd(num - 1, known, t);
    }
  }

  lemma GroupsUnfold(num: nat, known: set<string>, s: GroupsState, t: GroupsState)
    requires num > 0 && s.outcome == Done && t == OneGroup(known, s)
    ensures Groups(num, known, s) == Groups(num - 1, known, t)
    ensures t.outcome != Done ==> Groups(num - 1, known, t) == t
  {
  }
  lemma OneGroupAdds(known: set<string>, s: GroupsState)
    ensures var t := OneGroup(known, s);
            s.groups <= t.groups && (s.selector.Some? ==> t.selector == s.selector && t.numArgs == s.numArgs) &&
            (s.outcome == Done && t.outcome == Done ==> |t.groups| == |s.groups| + 1)
  {
  }

  /** A map that has a selector keeps it; its groups stay, in front of those of the table, unless that has none. */
  lemma ParseAdds(c: Cursor, known: set<string>, selector: Option<string>, minio: int, groups: seq<seq<string>>)
    ensures var r := Parse(c, known, selector, minio, groups);
            r.Parsed? ==>
              (selector.Some? ==> r.table.selector == selector) && (groups <= r.table.groups || r.table.groups == [])
  {
    var c2 := CountedEnd(CountedEnd(c));
    if c2.Word().Some? {
      var n := Atoi(c2.Word().value);
      GroupsOnlyAdd(Count(n), known,
                    GroupsState(Done, selector, 0, if n > 0 then groups else [], minio, c2.Next().Next()));
    }
  }

  // ---------------------------------------------------------------- a text that ends in a word

  lemma {:induction false} SkipsNoBlank(num: nat, c: Cursor)
    requires !c.trailing
    ensures !Skips(num, c).trailing
    decreases num
  {
    if num > 0 {
      SkipsNoBlank(num - 1, c.Skip());
    }
  }

  lemma {:induction false} NextsNoBlank(num: nat, c: Cursor)
    requires !c.trailing
    ensures !Nexts(num, c).trailing
    decreases num
  {
    if num > 0 {
      NextsNoBlank(num - 1, c.Next());
    }
  }

  lemma OnePathNoFault(args: nat, known: set<string>, s: PathsState)
    requires s.outcome == Done && !s.c.trailing
    ensures var t := OnePath(args, known, s); t.outcome != Fault && !t.c.trailing
  {
    if args > 0 {
      SkipsNoBlank(args - 1, s.c.Next().Next());
    }
  }

  lemma {:induction false} PathsNoFault(num: nat, args: nat, known: set<string>, s: PathsState)
    requires s.outcome != Fault && !s.c.trailing
    ensures var t := Paths(num, args, known, s); t.outcome != Fault && !t.c.trailing
    decreases num
  {
    if num > 0 && s.outcome == Done {
      OnePathNoFault(args, known, s);
      PathsNoFault(num - 1, args, known, OnePath(args, known, s));
    }
  }

  lemma OneGroupNoFault(known: set<string>, s: GroupsState)
    requires s.outcome == Done && !s.c.trailing
    ensures var t := OneGroup(known, s); t.outcome != Fault && !t.c.trailing
  {
    SkipsNoBlank(Count(s.numArgs), s.c.Skip().Skip());
    if s.c.Next().Word().Some? {
      SkipsNoBlank(Count(Atoi(s.c.Next().Word().value)), s.c.Next().Next());
    }
    var t := SelectorPart(s);
    assert t.outcome != Fault && !t.c.trailing;
    var num, args := t.c.Word(), t.c.Next().Word();
    if num.Some? && args.Some? {
      PathsNoFault(Count(Atoi(num.value)), Count(Atoi(args.value)), known,
                   PathsState(Done, [], t.minio, t.c.Next().Next()));
    }
  }

  lemma {:induction false} GroupsNoFault(num: nat, known: set<string>, s: GroupsState)
    requires s.outcome != Fault && !s.c.trailing
    ensures Groups(num, known, s).outcome != Fault
    decreases num
  {
    if num > 0 && s.outcome == Done {
      OneGroupNoFault(known, s);
      GroupsNoFault(num - 1, known, OneGroup(known, s));
    }
  }

  /** Whatever the text, if it does not end in a blank the parser finds every word that it does not check for. */
  lemma NoFault(text: string, known: set<string>, selector: Option<string>, minio: int, groups: seq<seq<string>>)
    requires text == [] || text[|text| - 1] != ' '
    ensures Parse(CursorAt(text), known, selector, minio, groups) != NotParsed(Fault)
  {
    var c := CursorAt(text);
    if c.Word().Some? {
      NextsNoBlank(Count(Atoi(c.Word().value)), c.Next());
    }
    var c1 := CountedEnd(c);
    assert !c1.trailing;
    if c1.Word().Some? {
      NextsNoBlank(Count(Atoi(c1.Word().value)), c1.Next());
    }
    var c2 := CountedEnd(c1);
    assert !c2.trailing;
    if c2.Word().Some? {
      var n := Atoi(c2.Word().value);
      GroupsNoFault(Count(n), known,
                    GroupsState(Done, selector, 0, if n > 0 then groups else [], minio, c2.Next().Next()));
    }
  }

  /** With a blank behind the last word every reading advances. */
  lemma ReadOn(ws: seq<string>, k: nat)
    requires k < |ws|
    ensures var c := Cursor(ws[k..], true);
            c.Word() == Some(Chop(ws[k])) && c.Next() == c.Skip() == Cursor(ws[k + 1..], true)
  {
    assert ws[k..][1..] == ws[k + 1..];
  }

  /** A table that ends with a device number and a blank, where the I/O count should follow. */
  function Cut(selector: string, dev: string): seq<string> {
    [Itoa(0), Itoa(0), Itoa(1), Itoa(1), selector, Itoa(0), Itoa(1), Itoa(1), dev]
  }

  lemma CutPaths(ws: seq<string>, known: set<string>, s: GroupsState)
    requires |ws| == 9 && Clean(ws) && Atoi(ws[6]) == Atoi(ws[7]) == 1 && s.outcome == Done &&
             s.c == Cursor(ws[6..], true)
    ensures PathsPart(known, s).outcome == Fault
  {
    ReadOn(ws, 6);
    ReadOn(ws, 7);
    ReadOn(ws, 8);
    var start := PathsState(Done, [], s.minio, Cursor(ws[8..], true));
    assert ws[9..] == [] && IsWord(ws[8]);
    assert OnePath(1, known, start).outcome == Fault;
    assert Paths(1, 1, known, start) == Paths(0, 1, known, OnePath(1, known, start));
  }

  lemma CutGroup(ws: seq<string>, known: set<string>, s: GroupsState)
    requires |ws| == 9 && Clean(ws) && Atoi(ws[5]) == 0 && Atoi(ws[6]) == Atoi(ws[7]) == 1
    requires s.outcome == Done && s.selector.None? && s.c == Cursor(ws[4..], true)
    ensures Groups(1, known, s).outcome == Fault
  {
    ReadOn(ws, 4);
    ReadOn(ws, 5);
    var t := SelectorPart(s);
    assert t.outcome == Done && t.c == Cursor(ws[6..], true);
    CutPaths(ws, known, t);
    assert Groups(1, known, s) == Groups(0, known, OneGroup(known, s));
  }

  /** Such a text makes the parser use the missing word as a number. */
  lemma FaultReached(selector: string, dev: string, known: set<string>, minio: int)
    requires Clean([selector]) && Clean([dev])
    ensures var text := Append(Join(Itoa(0), Cut(selector, dev)[1..]), "");
            Parse(CursorAt(text), known, None, minio, []) == NotParsed(Fault)
  {
    var ws := Cut(selector, dev);
    var text := Append(Join(Itoa(0), ws[1..]), "");
    AtoiItoa(0);
    AtoiItoa(1);
    assert [selector][0] == selector && [dev][0] == dev;
    assert Clean(ws);
    CutText(ws, text);
    CutParses(ws, known, minio);
  }

  lemma CutText(ws: seq<string>, text: string)
    requires ws != [] && Clean(ws) && text == Append(Join(ws[0], ws[1..]), "")
    ensures CursorAt(text) == Cursor(ws, true)
  {
    SplitOne(ws[0]);
    JoinWords(ws[0], ws[1..]);
    AppendWords(Join(ws[0], ws[1..]), "");
    assert ws == [ws[0]] + ws[1..] && ws + [] == ws;
    assert text[|text| - 1] == ' ';
  }

  lemma CutParses(ws: seq<string>, known: set<string>, minio: int)
    requires |ws| == 9 && Clean(ws) && Atoi(ws[0]) == Atoi(ws[1]) == 0 && Atoi(ws[2]) == 1
    requires Atoi(ws[5]) == 0 && Atoi(ws[6]) == Atoi(ws[7]) == 1
    ensures Parse(Cursor(ws, true), known, None, minio, []) == NotParsed(Fault)
  {
    assert ws[0..] == ws;
    ReadOn(ws, 0);
    ReadOn(ws, 1);
    ReadOn(ws, 2);
    ReadOn(ws, 3);
    CutGroup(ws, known, GroupsState(Done, None, 0, [], minio, Cursor(ws[4..], true)));
  }

  // ---------------------------------------------------------------- exactly which texts

  // A test on the words of a table, by position.

  /** What matters about each word: the number it stands for, and whether the parser takes it as a device. */
  datatype Layout = Layout(nums: seq<nat>, devs: seq<bool>) {

    /** The number at position p; 0 where there is no word. */
    function Num(p: nat): nat { if p < |nums| then nums[p] else 0 }

    predicate Device(p: nat) { p < |devs| && devs[p] }

    /** The position behind the counted option at p. */
    function OptionEnd(p: nat): nat { p + 1 + Num(p) }

    /** Each of the `num` paths from p on has a device. */
    predicate DevicesFrom(p: nat, args: nat, num: nat)
      decreases num
    {
      num == 0 || (Device(p) && DevicesFrom(p + 1 + args, args, num - 1))
    }

    /** The last word is the device of one of these paths, and arguments should follow. */
    predicate EndsInPath(p: nat, args: nat, num: nat)
      decreases num
    {
      num > 0 && args > 0 && Device(p) && (p + 1 == |devs| || EndsInPath(p + 1 + args, args, num - 1))
    }

    /** The group at g: a selector with `sel` arguments, two counts, and the paths. */
    function GroupEnd(sel: nat, g: nat): (q: nat)
      ensures g < q
    {
      var q := g + 2 + sel;
      PathsEnd(q + 2, Num(q + 1), Num(q))
    }

    predicate GroupNamed(sel: nat, g: nat) {
      var q := g + 2 + sel;
      DevicesFrom(q + 2, Num(q + 1), Num(q))
    }

    predicate EndsInGroup(sel: nat, g: nat) {
      var q := g + 2 + sel;
      EndsInPath(q + 2, Num(q + 1), Num(q))
    }

    /** The text ends so in one of the `num` groups from g on, and the ones before it have devices. */
    predicate EndsInGroups(sel: nat, g: nat, num: nat)
      decreases num
    {
      num > 0 && (EndsInGroup(sel, g) || (GroupNamed(sel, g) && EndsInGroups(sel, GroupEnd(sel, g), num - 1)))
    }

    /** How many selector words are passed over: the argument count, or none if the map has a selector. */
    function SelectorArgs(g: nat, selector: Option<string>): nat { if selector.Some? then 0 else Num(g + 1) }

    /** The table ends with the device of a path that has arguments. */
    predicate CutShort(selector: Option<string>) {
      var p := OptionEnd(OptionEnd(0));
      EndsInGroups(SelectorArgs(p + 2, selector), p + 2, Num(p))
    }
  }

  function PathsEnd(p: nat, args: nat, num: nat): (q: nat)
    ensures p <= q
    decreases num
  {
    if num == 0 then p else PathsEnd(p + 1 + args, args, num - 1)
  }

  function LayoutOf(ws: seq<string>, known: set<string>): (l: Layout)
    ensures Describes(l, ws, known)
  {
    Layout(seq(|ws|, p requires 0 <= p < |ws| => Count(Atoi(Chop(ws[p])))),
           seq(|ws|, p requires 0 <= p < |ws| => Chop(ws[p]) != "" || "" in known))
  }

  ghost predicate Describes(l: Layout, ws: seq<string>, known: set<string>) {
    |l.nums| == |l.devs| == |ws| && forall p: nat {:trigger Fits(l, ws, known, p)} | p < |ws| :: Fits(l, ws, known, p)
  }

  ghost predicate Fits(l: Layout, ws: seq<string>, known: set<string>, p: nat) {
    p < |ws| && l.Num(p) == Count(Atoi(Chop(ws[p]))) && (l.Device(p) <==> Chop(ws[p]) != "" || "" in known)
  }

  // With a blank behind the last word the reader is a position in the words.

  ghost function Pos(ws: seq<string>, p: nat): Cursor { if p == 0 then Cursor(ws, true) else Pos(ws, p - 1).Skip() }

  lemma {:induction false} PosWords(ws: seq<string>, p: nat)
    ensures Pos(ws, p) == Cursor(if p <= |ws| then ws[p..] else [], true)
  {
    if p > 0 {
      PosWords(ws, p - 1);
    }
  }

  lemma PosNext(ws: seq<string>, p: nat)
    ensures var c := Pos(ws, p);
            c.Next() == c.Skip() == Pos(ws, p + 1) && c.Word() == if p < |ws| then Some(Chop(ws[p])) else None
  {
    PosWords(ws, p);
  }

  lemma {:induction false} PosNexts(ws: seq<string>, p: nat, num: nat)
    ensures Nexts(num, Pos(ws, p)) == Skips(num, Pos(ws, p)) == Pos(ws, p + num)
    decreases num
  {
    if num > 0 {
      PosNext(ws, p);
      PosNexts(ws, p + 1, num - 1);
    }
  }

  lemma {:induction false} PosCollect(ws: seq<string>, p: nat, acc: string, num: nat)
    ensures Collect(acc, num, Pos(ws, p)).Some? <==> num == 0 || p + num <= |ws|
    decreases num
  {
    if num > 0 {
      PosNext(ws, p);
      if p < |ws| {
        PosCollect(ws, p + 1, acc + (" " + Chop(ws[p])), num - 1);
      }
    }
  }

  /** What the layout says about the word at p. */
  lemma LayoutAt(ws: seq<string>, known: set<string>, l: Layout, p: nat)
    requires Describes(l, ws, known)
    ensures l.Num(p) == (if p < |ws| then Count(Atoi(Chop(ws[p]))) else 0)
    ensures l.Device(p) <==> p < |ws| && (Chop(ws[p]) != "" || "" in known)
  {
    assert p < |ws| ==> Fits(l, ws, known, p);
  }

  lemma PosCounted(ws: seq<string>, p: nat, num: nat)
    requires num == if p < |ws| then Count(Atoi(Chop(ws[p]))) else 0
    ensures CountedText(Pos(ws, p)).Some? <==> p + 1 + num <= |ws|
    ensures CountedText(Pos(ws, p)).Some? ==> CountedEnd(Pos(ws, p)) == Pos(ws, p + 1 + num)
  {
    PosNext(ws, p);
    if p < |ws| {
      PosCollect(ws, p + 1, Chop(ws[p]), num);
      PosNexts(ws, p + 1, num);
    }
  }

  lemma OnePathAt(ws: seq<string>, p: nat, args: nat, known: set<string>, s: PathsState, device: bool)
    requires s.outcome == Done && s.c == Pos(ws, p)
    requires device <==> p < |ws| && (Chop(ws[p]) != "" || "" in known)
    ensures var t := OnePath(args, known, s);
            if !device then t.outcome == Failed
            else if args > 0 && p + 1 == |ws| then t.outcome == Fault
            else t.outcome == Done && t.c == Pos(ws, p + 1 + args)
  {
    PosNext(ws, p);
    PosNext(ws, p + 1);
    if args > 0 {
      PosNexts(ws, p + 2, args - 1);
    }
  }

  /** Reading the paths of a group: when it faults, and where it ends. */
  ghost predicate PathsMean(l: Layout, ws: seq<string>, p: nat, args: nat, num: nat, o: Outcome, c: Cursor) {
    (o == Fault <==> l.EndsInPath(p, args, num)) &&
    (o == Done ==> c == Pos(ws, PathsEnd(p, args, num)) && l.DevicesFrom(p, args, num)) &&
    (PathsEnd(p, args, num) < |l.devs| && l.DevicesFrom(p, args, num) ==> o == Done)
  }

  lemma PathsMeanNone(l: Layout, ws: seq<string>, p: nat, args: nat, o: Outcome, c: Cursor)
    requires o == Done && c == Pos(ws, p)
    ensures PathsMean(l, ws, p, args, 0, o, c)
  {
    assert PathsEnd(p, args, 0) == p;
  }

  lemma PathsMeanCons(l: Layout, ws: seq<string>, p: nat, q: nat, args: nat, num: nat, o: Outcome, c: Cursor)
    requires num > 0 && q == p + 1 + args && l.Device(p) && !(args > 0 && p + 1 == |l.devs|)
    requires PathsMean(l, ws, q, args, num - 1, o, c)
    ensures PathsMean(l, ws, p, args, num, o, c)
  {
    assert PathsEnd(p, args, num) == PathsEnd(q, args, num - 1);
  }

  /** A path that cannot be read ends the group. */
  lemma PathsMeanStop(l: Layout, ws: seq<string>, p: nat, args: nat, num: nat, o: Outcome, c: Cursor)
    requires num > 0 && (!l.Device(p) || (args > 0 && p + 1 == |l.devs|))
    requires o == if l.Device(p) then Fault else Failed
    ensures PathsMean(l, ws, p, args, num, o, c)
  {
    assert PathsEnd(p, args, num) >= p + 1;
  }

  lemma {:induction false} PathsAt(ws: seq<string>, p: nat, num: nat, args: nat, known: set<string>, l: Layout,
                                   s: PathsState) returns (r: PathsState)
    requires Describes(l, ws, known) && s.outcome == Done && s.c == Pos(ws, p)
    ensures r == Paths(num, args, known, s) && PathsMean(l, ws, p, args, num, r.outcome, r.c)
    decreases num
  {
    if num == 0 {
      r := s;
      PathsMeanNone(l, ws, p, args, r.outcome, r.c);
    } else {
      var t := PathsOne(ws, p, num, args, known, l, s);
      if t.outcome == Done {
        r := PathsAt(ws, p + 1 + args, num - 1, args, known, l, t);
        PathsMeanCons(l, ws, p, p + 1 + args, args, num, r.outcome, r.c);
      } else {
        r := t;
        PathsMeanStop(l, ws, p, args, num, r.outcome, r.c);
      }
    }
  }

  lemma PathsOne(ws: seq<string>, p: nat, num: nat, args: nat, known: set<string>, l: Layout, s: PathsState)
      returns (t: PathsState)
    requires Describes(l, ws, known) && num > 0 && s.outcome == Done && s.c == Pos(ws, p)
    ensures Paths(num, args, known, s) == if t.outcome == Done then Paths(num - 1, args, known, t) else t
    ensures if !l.Device(p) then t.outcome == Failed
            else if args > 0 && p + 1 == |l.devs| then t.outcome == Fault
            else t.outcome == Done && t.c == Pos(ws, p + 1 + args)
  {
    t := OnePath(args, known, s);
    LayoutAt(ws, known, l, p);
    OnePathAt(ws, p, args, known, s, l.Device(p));
    assert t.outcome != Done ==> Paths(num - 1, args, known, t) == t;
  }

  /** The state of the group loop before the group at g: which selector words it passes over. */
  ghost predicate Before(l: Layout, ws: seq<string>, sel: nat, g: nat, s: GroupsState) {
    s.outcome == Done && s.c == Pos(ws, g) && sel == if s.selector.Some? then Count(s.numArgs) else l.Num(g + 1)
  }

  lemma SelectorIs(s: GroupsState, c1: Cursor, c2: Cursor, sel: nat, r: Cursor)
    requires s.outcome == Done && s.c.Next() == s.c.Skip() == c1 && c1.Next() == c1.Skip() == c2 && Skips(sel, c2) == r
    requires s.selector.Some? ==> sel == Count(s.numArgs)
    requires s.selector.None? && c1.Word().Some? ==> sel == Count(Atoi(c1.Word().value))
    ensures var t := SelectorPart(s);
            if s.selector.None? && (s.c.Word().None? || c1.Word().None?) then t.outcome == Failed
            else t.outcome == Done && t.c == r && t.selector.Some? && Count(t.numArgs) == sel
  {
  }

  lemma SelectorAt(ws: seq<string>, sel: nat, g: nat, known: set<string>, l: Layout, s: GroupsState)
      returns (t: GroupsState)
    requires Describes(l, ws, known) && Before(l, ws, sel, g, s)
    ensures t == SelectorPart(s)
    ensures if t.outcome == Done then t.c == Pos(ws, g + 2 + sel) && t.selector.Some? && Count(t.numArgs) == sel
            else t.outcome == Failed && g + 1 >= |l.devs|
  {
    LayoutAt(ws, known, l, g + 1);
    SelectorPos(ws, sel, g, s);
    t := SelectorPart(s);
  }

  lemma SelectorPos(ws: seq<string>, sel: nat, g: nat, s: GroupsState)
    requires s.outcome == Done && s.c == Pos(ws, g) && (s.selector.Some? ==> sel == Count(s.numArgs))
    requires s.selector.None? && g + 1 < |ws| ==> sel == Count(Atoi(Chop(ws[g + 1])))
    ensures var t := SelectorPart(s);
            if s.selector.None? && g + 1 >= |ws| then t.outcome == Failed
            else t.outcome == Done && t.c == Pos(ws, g + 2 + sel) && t.selector.Some? && Count(t.numArgs) == sel
  {
    PosNext(ws, g);
    PosNext(ws, g + 1);
    PosNexts(ws, g + 2, sel);
    SelectorIs(s, Pos(ws, g + 1), Pos(ws, g + 2), sel, Pos(ws, g + 2 + sel));
  }

  lemma CountsAre(known: set<string>, s: GroupsState, c1: Cursor, c2: Cursor, num: nat, args: nat, r: PathsState)
    requires s.c.Next() == c1 && c1.Next() == c2 && s.c.Word().Some? && c1.Word().Some?
    requires num == Count(Atoi(s.c.Word().value)) && args == Count(Atoi(c1.Word().value))
    requires r == Paths(num, args, known, PathsState(Done, [], s.minio, c2))
    ensures PathsPart(known, s) == s.(outcome := r.outcome, groups := s.groups + [r.devs], minio := r.minio, c := r.c)
  {
  }

  lemma PathsPartAt(ws: seq<string>, q: nat, known: set<string>, l: Layout, s: GroupsState) returns (t: GroupsState)
    requires Describes(l, ws, known) && s.outcome == Done && s.c == Pos(ws, q)
    ensures t == PathsPart(known, s)
    ensures if q + 1 >= |l.devs| then t.outcome == Failed
            else t.selector == s.selector && t.numArgs == s.numArgs &&
                 PathsMean(l, ws, q + 2, l.Num(q + 1), l.Num(q), t.outcome, t.c)
  {
    t := PathsPart(known, s);
    PosNext(ws, q);
    PosNext(ws, q + 1);
    if q + 1 < |ws| {
      LayoutAt(ws, known, l, q);
      LayoutAt(ws, known, l, q + 1);
      var r := PathsAt(ws, q + 2, l.Num(q), l.Num(q + 1), known, l, PathsState(Done, [], s.minio, Pos(ws, q + 2)));
      CountsAre(known, s, Pos(ws, q + 1), Pos(ws, q + 2), l.Num(q), l.Num(q + 1), r);
    }
  }

  /** Reading the group at g: when it faults, and where it ends. */
  ghost predicate GroupMeans(l: Layout, ws: seq<string>, sel: nat, g: nat, t: GroupsState) {
    (t.outcome == Fault <==> l.EndsInGroup(sel, g)) &&
    (t.outcome == Done ==>
       t.selector.Some? && Before(l, ws, sel, l.GroupEnd(sel, g), t) && l.GroupNamed(sel, g)) &&
    (l.GroupEnd(sel, g) < |l.devs| && l.GroupNamed(sel, g) ==> t.outcome == Done)
  }

  lemma GroupFromPaths(l: Layout, ws: seq<string>, sel: nat, g: nat, q: nat, t: GroupsState)
    requires q == g + 2 + sel && t.selector.Some? && Count(t.numArgs) == sel
    requires PathsMean(l, ws, q + 2, l.Num(q + 1), l.Num(q), t.outcome, t.c)
    ensures GroupMeans(l, ws, sel, g, t)
  {
    GroupParts(l, sel, g, q, l.Num(q), l.Num(q + 1));
  }

  lemma GroupParts(l: Layout, sel: nat, g: nat, q: nat, num: nat, args: nat)
    requires q == g + 2 + sel && num == l.Num(q) && args == l.Num(q + 1)
    ensures l.GroupEnd(sel, g) == PathsEnd(q + 2, args, num)
    ensures l.GroupNamed(sel, g) == l.DevicesFrom(q + 2, args, num)
    ensures l.EndsInGroup(sel, g) == l.EndsInPath(q + 2, args, num)
  {
  }

  lemma NoGroup(l: Layout, ws: seq<string>, sel: nat, g: nat, t: GroupsState)
    requires |l.nums| == |l.devs| && t.outcome == Failed && g + 3 + sel >= |l.devs|
    ensures GroupMeans(l, ws, sel, g, t)
  {
  }

  lemma OneGroupAt(ws: seq<string>, sel: nat, g: nat, known: set<string>, l: Layout, s: GroupsState)
      returns (r: GroupsState)
    requires Describes(l, ws, known) && Before(l, ws, sel, g, s)
    ensures r == OneGroup(known, s) && GroupMeans(l, ws, sel, g, r)
  {
    var q := g + 2 + sel;
    var t := SelectorAt(ws, sel, g, known, l, s);
    if t.outcome == Done {
      r := PathsPartAt(ws, q, known, l, t);
      if q + 1 < |l.devs| {
        GroupFromPaths(l, ws, sel, g, q, r);
      } else {
        NoGroup(l, ws, sel, g, r);
      }
    } else {
      r := t;
      NoGroup(l, ws, sel, g, r);
    }
  }

  /** A text that ends in one of the groups from g on has words from g on. */
  lemma {:induction false} EndsBehind(l: Layout, sel: nat, g: nat, num: nat)
    requires l.EndsInGroups(sel, g, num)
    ensures g + 1 < |l.devs|
    decreases num
  {
    if !l.EndsInGroup(sel, g) {
      EndsBehind(l, sel, l.GroupEnd(sel, g), num - 1);
    }
  }

  lemma {:induction false} GroupsAt(ws: seq<string>, sel: nat, g: nat, num: nat, known: set<string>, l: Layout,
                                    s: GroupsState) returns (fault: bool)
    requires Describes(l, ws, known) && Before(l, ws, sel, g, s)
    ensures fault == (Groups(num, known, s).outcome == Fault) == l.EndsInGroups(sel, g, num)
    decreases num
  {
    if num == 0 {
      fault := false;
    } else {
      var t := GroupsOne(ws, sel, g, num, known, l, s);
      if t.outcome == Done {
        fault := GroupsAt(ws, sel, l.GroupEnd(sel, g), num - 1, known, l, t);
      } else {
        fault := t.outcome == Fault;
      }
      GroupsMean(l, ws, sel, g, l.GroupEnd(sel, g), num, t, fault);
    }
  }

  lemma GroupsOne(ws: seq<string>, sel: nat, g: nat, num: nat, known: set<string>, l: Layout, s: GroupsState)
      returns (t: GroupsState)
    requires Describes(l, ws, known) && num > 0 && Before(l, ws, sel, g, s)
    ensures GroupMeans(l, ws, sel, g, t)
    ensures Groups(num, known, s) == if t.outcome == Done then Groups(num - 1, known, t) else t
  {
    t := OneGroupAt(ws, sel, g, known, l, s);
    assert t.outcome != Done ==> Groups(num - 1, known, t) == t;
  }

  lemma GroupsMean(l: Layout, ws: seq<string>, sel: nat, g: nat, q: nat, num: nat, t: GroupsState, fault: bool)
    requires num > 0 && q == l.GroupEnd(sel, g) && GroupMeans(l, ws, sel, g, t)
    requires fault <==> if t.outcome == Done then l.EndsInGroups(sel, q, num - 1) else t.outcome == Fault
    ensures fault <==> l.EndsInGroups(sel, g, num)
  {
    if l.EndsInGroups(sel, q, num - 1) {
      EndsBehind(l, sel, q, num - 1);
    }
  }

  lemma RestIs(ws: seq<string>, p: nat, features: string, hwhandler: string, known: set<string>,
               selector: Option<string>, minio: int, groups: seq<seq<string>>, num: nat)
      returns (s: GroupsState, fault: bool)
    requires num == if p < |ws| then Count(Atoi(Chop(ws[p]))) else 0
    ensures s == GroupsState(Done, selector, 0, s.groups, minio, Pos(ws, p + 2))
    ensures fault <==> ParseRest(features, hwhandler, Pos(ws, p), known, selector, minio, groups) == NotParsed(Fault)
    ensures fault <==> p + 1 < |ws| && Groups(num, known, s).outcome == Fault
  {
    PosNext(ws, p);
    PosNext(ws, p + 1);
    var gs := if p < |ws| && Atoi(Chop(ws[p])) > 0 then groups else [];
    s := GroupsState(Done, selector, 0, gs, minio, Pos(ws, p + 2));
    fault := p + 1 < |ws| && Groups(num, known, s).outcome == Fault;
  }

  lemma HeaderIs(c: Cursor, c1: Cursor, f: Option<string>, h: Option<string>, known: set<string>,
                 selector: Option<string>, minio: int, groups: seq<seq<string>>)
    requires f == CountedText(c) && (f.Some? ==> c1 == CountedEnd(c) && h == CountedText(c1))
    ensures Parse(c, known, selector, minio, groups) ==
            if f.None? || h.None? then NotParsed(Failed)
            else ParseRest(f.value, h.value, CountedEnd(c1), known, selector, minio, groups)
  {
  }

  lemma HeaderAt(ws: seq<string>, p: nat, q: nat, known: set<string>, l: Layout, selector: Option<string>, minio: int,
                 groups: seq<seq<string>>) returns (features: string, hwhandler: string)
    requires Describes(l, ws, known) && p == l.OptionEnd(0) && q == l.OptionEnd(p)
    ensures Parse(Pos(ws, 0), known, selector, minio, groups) ==
            if q <= |ws| then ParseRest(features, hwhandler, Pos(ws, q), known, selector, minio, groups)
            else NotParsed(Failed)
  {
    var f := OptionAt(ws, 0, p, known, l);
    var h := OptionAt(ws, p, q, known, l);
    HeaderIs(Pos(ws, 0), Pos(ws, p), f, h, known, selector, minio, groups);
    features, hwhandler := if f.Some? then f.value else "", if h.Some? then h.value else "";
  }

  lemma OptionAt(ws: seq<string>, p: nat, q: nat, known: set<string>, l: Layout) returns (f: Option<string>)
    requires Describes(l, ws, known) && q == l.OptionEnd(p)
    ensures f == CountedText(Pos(ws, p)) && (f.Some? ==> CountedEnd(Pos(ws, p)) == Pos(ws, q))
    ensures p < q && (f.Some? <==> q <= |ws|)
  {
    LayoutAt(ws, known, l, p);
    PosCounted(ws, p, l.Num(p));
    f := CountedText(Pos(ws, p));
  }

  /** The part behind the options faults exactly if one of its groups ends so. */
  lemma RestCut(ws: seq<string>, p: nat, num: nat, sel: nat, features: string, hwhandler: string, known: set<string>,
                l: Layout, selector: Option<string>, minio: int, groups: seq<seq<string>>)
      returns (fault: bool, cut: bool)
    requires Describes(l, ws, known) && num == l.Num(p) && sel == l.SelectorArgs(p + 2, selector)
    ensures fault <==> ParseRest(features, hwhandler, Pos(ws, p), known, selector, minio, groups) == NotParsed(Fault)
    ensures cut <==> l.EndsInGroups(sel, p + 2, num)
    ensures fault <==> p + 1 < |ws| && cut
  {
    LayoutAt(ws, known, l, p);
    var s;
    s, fault := RestIs(ws, p, features, hwhandler, known, selector, minio, groups, num);
    cut := GroupsAt(ws, sel, p + 2, num, known, l, s);
  }

  lemma CutIs(l: Layout, p: nat, selector: Option<string>, sel: nat, num: nat, cut: bool)
    requires p == l.OptionEnd(l.OptionEnd(0)) && sel == l.SelectorArgs(p + 2, selector) && num == l.Num(p)
    requires cut <==> l.EndsInGroups(sel, p + 2, num)
    ensures cut <==> l.CutShort(selector)
    ensures cut ==> p + 1 < |l.devs|
  {
    if cut {
      EndsBehind(l, sel, p + 2, num);
    }
  }

  lemma WordsFault(ws: seq<string>, known: set<string>, l: Layout, selector: Option<string>, minio: int,
                   groups: seq<seq<string>>)
    requires Describes(l, ws, known)
    ensures Parse(Pos(ws, 0), known, selector, minio, groups) == NotParsed(Fault) <==> l.CutShort(selector)
  {
    var q := l.OptionEnd(0);
    var p := l.OptionEnd(q);
    var sel, num := l.SelectorArgs(p + 2, selector), l.Num(p);
    var f, h := HeaderAt(ws, q, p, known, l, selector, minio, groups);
    var fault, cut := RestCut(ws, p, num, sel, f, h, known, l, selector, minio, groups);
    CutIs(l, p, selector, sel, num, cut);
  }

  /** The parser uses a missing word as a number for exactly the texts that end so, with a blank behind the device. */
  lemma FaultExactly(text: string, known: set<string>, selector: Option<string>, minio: int, groups: seq<seq<string>>)
    ensures Parse(CursorAt(text), known, selector, minio, groups) == NotParsed(Fault) <==>
            text != [] && text[|text| - 1] == ' ' && LayoutOf(Split(text), known).CutShort(selector)
  {
    if text == [] || text[|text| - 1] != ' ' {
      NoFault(text, known, selector, minio, groups);
    } else {
      var ws := Split(text);
      assert CursorAt(text) == Pos(ws, 0);
      WordsFault(ws, known, LayoutOf(ws, known), selector, minio, groups);
    }
  }

  // ---------------------------------------------------------------- which options come back

  /** The words that `num` reads return. */
  ghost function Read(num: nat, c: Cursor): seq<string>
    decreases num
  {
    if num == 0 || c.words == [] then [] else [c.words[0]] + Read(num - 1, c.Next())
  }

  lemma {:induction false} CollectRead(acc: string, num: nat, c: Cursor)
    requires c.words != [] && !c.trailing && Clean(c.words)
    ensures |Read(num, c)| == num && Clean(Read(num, c)) && Collect(acc, num, c) == Some(Join(acc, Read(num, c)))
    decreases num
  {
    if num > 0 {
      CollectRead(Append(acc, c.words[0]), num - 1, c.Next());
      assert Read(num, c)[1..] == Read(num - 1, c.Next());
    }
  }

  lemma {:induction false} ReadPrefix(ws: seq<string>, rest: seq<string>)
    requires rest != []
    ensures Read(|ws|, Cursor(ws + rest, false)) == ws
    decreases |ws|
  {
    if ws != [] {
      ReadOne(ws[0], ws[1..] + rest);
      assert ws + rest == [ws[0]] + (ws[1..] + rest);
      ReadPrefix(ws[1..], rest);
    }
  }

  /** An option followed by more text comes back word for word exactly if its first word counts the others. */
  lemma ComesBackExactly(ws: seq<string>, rest: seq<string>)
    requires ws != [] && rest != [] && Clean(ws) && Clean(rest)
    ensures var r := CountedText(Cursor(ws + rest, false));
            r.Some? && (Split(r.value) == ws <==> Count(Atoi(ws[0])) == |ws| - 1)
  {
    var c := Cursor(ws + rest, false);
    var num := Count(Atoi(ws[0]));
    ReadOne(ws[0], ws[1..] + rest);
    assert ws + rest == [ws[0]] + (ws[1..] + rest);
    assert Clean(ws[1..] + rest);
    CollectRead(ws[0], num, c.Next());
    var got := Read(num, c.Next());
    SplitOne(ws[0]);
    JoinWords(ws[0], got);
    assert Split(CountedText(c).value) == [ws[0]] + got;
    if num == |ws| - 1 {
      ReadPrefix(ws[1..], rest);
    }
  }

  /** A tab is accepted but does not separate words for the parser: such features do not come back. */
  lemma TabDefeatsRoundTrip(rest: seq<string>)
    requires rest != [] && Clean(rest)
    ensures Accepted("1\ta", 0) && Split("1\ta") == ["1\ta"]
    ensures var r := CountedText(Cursor(Split("1\ta") + rest, false)); r.Some? && Split(r.value) != Split("1\ta")
  {
    var s := "1\ta";
    TabAccepted(s);
    SplitOne(s);
    TabCount(s);
    ComesBackExactly([s], rest);
  }

  lemma TabAccepted(s: string)
    requires s == "1\ta"
    ensures Accepted(s, 0)
  {
    assert |s| == 3 && s[0] == '1' && s[1] == '\t' && s[2] == 'a';
    assert SeparatorEnd(s, 0) == 0 && ArgEnd(s, 1) == 1 && ArgEnd(s, 0) == 1;
    assert SeparatorEnd(s, 2) == 2 && SeparatorEnd(s, 1) == 2;
    assert ArgEnd(s, 3) == 3 && ArgEnd(s, 2) == 3 && SeparatorEnd(s, 3) == 3;
    assert DigitEnd(s, 1) == 1;
    assert SpaceEnd(s, 0) == 0 && DigitEnd(s, 0) == 1 && NumberEnd(s, 0) == 1;
    TabCount(s);
    assert s[0..] == s && CountAt(s, 0) == Some(1);
    assert ArgScan(s, 3, 1, 0, 1) == (1, 1);
    assert ArgScan(s, 1, 0, 0, 1) == (1, 1);
  }

  lemma TabCount(s: string)
    requires s == "1\ta"
    ensures Atoi(s) == 1 && Clean([s])
  {
    assert s[0..] == s && s[1..] == "\ta";
    assert Value("\ta", 1) == 1;
    assert s[|s| - 1] == 'a';
  }
}
