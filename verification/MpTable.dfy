/**
  Merging the `multipaths` section of the configuration: entries for the same WWID are folded into
  one, in which later settings win.
 */
module MpTable {
  import opened Basics
  import opened CStrings
  import MergeSort

  datatype StringField = Alias | UidAttribute | Selector | Features | PrioName | PrioArgs

  datatype NumberField =
    | Pgpolicy | Pgfailback | NoPathRetry | Minio | FlushOnLastDel | AttributeFlags | UserFriendlyNames
    | DeferredRemove | DelayWatchChecks | DelayWaitChecks | SanPathErrThreshold | SanPathErrForgetRate
    | SanPathErrRecoveryTime | MarginalPathErrSampleTime | MarginalPathErrRateThreshold
    | MarginalPathErrRecheckGapTime | MarginalPathDoubleFailedTime | SkipKpartx | MaxSectorsKb
    | GhostDelay | PurgeDisconnected | Uid | Gid | Mode

  datatype KeySource = SourceNone | SourceConf | SourceFile

  /** prkey_source, sa_flags and reservation_key belong together. */
  datatype Prkey = Prkey(source: KeySource, saFlags: int, key: seq<int>)

  /** A string that is NULL is absent, a number that is 0 is unset. */
  datatype Entry = Entry(wwid: Option<string>, strings: map<StringField, string>, numbers: map<NumberField, int>,
                         prkey: Prkey) {
    function Str(f: StringField): Option<string> { if f in strings then Some(strings[f]) else None }

    function Num(f: NumberField): int { if f in numbers then numbers[f] else 0 }

    function Key(): string { if wwid.Some? then wwid.value else "" }
  }

  // ---------------------------------------------------------------- one merge

  function MergeStrings(dst: map<StringField, string>, src: map<StringField, string>): map<StringField, string> {
    map f | f in dst.Keys + src.Keys && (f in dst || src[f] != "") :: if f in dst then dst[f] else src[f]
  }

  function MergeNumbers(dst: map<NumberField, int>, src: map<NumberField, int>): map<NumberField, int> {
    map f | f in dst.Keys + src.Keys :: if f in dst && (dst[f] != 0 || f !in src) then dst[f] else src[f]
  }

  /** merge_mpe: what dst leaves open is taken from src. */
  function MergeMpe(dst: Entry, src: Entry): Entry {
    Entry(dst.wwid, MergeStrings(dst.strings, src.strings), MergeNumbers(dst.numbers, src.numbers),
          if dst.prkey.source == SourceNone && src.prkey.source != SourceNone then src.prkey else dst.prkey)
  }

  // ---------------------------------------------------------------- the table

  function WwidCompar(): MergeSort.Compare<Entry> { (a: Entry, b: Entry) => Strcmp(a.Key(), b.Key()) }

  function Valid(s: seq<Entry>): seq<Entry> {
    if s == [] then [] else (if s[0].wwid.Some? then [s[0]] else []) + Valid(s[1..])
  }

  /** Neighbours with the same WWID are folded, the later one being the destination. */
  function Fold(s: seq<Entry>): seq<Entry>
    decreases |s|
  {
    if |s| <= 1 then s
    else if s[0].Key() == s[1].Key() then Fold([MergeMpe(s[1], s[0])] + s[2..])
    else [s[0]] + Fold(s[1..])
  }

  function MergedTable(s: seq<Entry>): seq<Entry> {
    Fold(MergeSort.MSort(WwidCompar(), Valid(s)))
  }

  class Table {
    var slots: seq<Entry>

    constructor (s: seq<Entry>)
      ensures slots == s
    {
      slots := s;
    }

    /** vector_del_slot */
    method DelSlot(i: nat)
      requires i < |slots|
      modifies this
      ensures slots == old(slots[..i] + slots[i + 1..])
    {
      slots := slots[..i] + slots[i + 1..];
    }

    /** Entries without a WWID are dropped. */
    method DropInvalid()
      modifies this
      ensures slots == Valid(old(slots))
    {
      var i := 0;
      while i < |slots|
        invariant i <= |slots|
        invariant slots[..i] + Valid(slots[i..]) == Valid(old(slots))
        decreases |slots| - i
      {
        Unroll(slots, i);
        if slots[i].wwid.None? {
          DelSlot(i);
        } else {
          i := i + 1;
        }
      }
      assert slots[..i] == slots;
    }

    /** vector_sort; a sort that cannot get its memory changes nothing. */
    method Sort(haveMemory: bool)
      modifies this
      ensures slots == if MergeSort.TempSize(|old(slots)|, MergeSort.PTR_BYTES) < 1024 || haveMemory
                       then MergeSort.MSort(WwidCompar(), old(slots)) else old(slots)
    {
      if slots == [] {
        return;
      }
      var s := slots;
      var v := new Entry[|s|](i requires 0 <= i < |s| => s[i]);
      assert v[..] == s;
      MergeSort.Msort(WwidCompar(), v, MergeSort.PTR_BYTES, haveMemory);
      slots := v[..];
    }

    /** The merging loop. */
    method FoldDuplicates()
      modifies this
      ensures slots == Fold(old(slots))
    {
      var i := 0;
      assert slots[0..] == slots;
      while i < |slots|
        invariant i <= |slots|
        invariant slots[..i] + Fold(slots[i..]) == Fold(old(slots))
        decreases |slots| - i
      {
        var j := i + 1;
        FoldStep(slots, i);
        if j < |slots| && slots[i].Key() == slots[j].Key() {
          slots := slots[j := MergeMpe(slots[j], slots[i])];
          DelSlot(i);
        } else {
          i := i + 1;
        }
      }
      assert slots[..i] == slots;
    }

    /** merge_mptable; without memory for the sort only neighbours are merged. */
    method Merge(haveMemory: bool)
      modifies this
      ensures slots == if MergeSort.TempSize(|Valid(old(slots))|, MergeSort.PTR_BYTES) < 1024 || haveMemory
                       then MergedTable(old(slots)) else Fold(Valid(old(slots)))
    {
      DropInvalid();
      Sort(haveMemory);
      FoldDuplicates();
    }
  }

  lemma Unroll(s: seq<Entry>, i: nat)
    requires i < |s|
    ensures s[i].wwid.None? ==> s[..i] + Valid(s[i..]) == (s[..i] + s[i + 1..])[..i] + Valid((s[..i] + s[i + 1..])[i..])
    ensures s[i].wwid.Some? ==> s[..i] + Valid(s[i..]) == s[..i + 1] + Valid(s[i + 1..])
  {
    assert s[i..][1..] == s[i + 1..];
    assert (s[..i] + s[i + 1..])[..i] == s[..i] && (s[..i] + s[i + 1..])[i..] == s[i + 1..];
    assert s[..i + 1] == s[..i] + [s[i]];
  }

  lemma FoldStep(s: seq<Entry>, i: nat)
    requires i < |s|
    ensures i + 1 < |s| && s[i].Key() == s[i + 1].Key() ==>
              var t := s[i + 1 := MergeMpe(s[i + 1], s[i])];
              var u := t[..i] + t[i + 1..];
              s[..i] + Fold(s[i..]) == u[..i] + Fold(u[i..])
    ensures !(i + 1 < |s| && s[i].Key() == s[i + 1].Key()) ==> s[..i] + Fold(s[i..]) == s[..i + 1] + Fold(s[i + 1..])
  {
    var r := s[i..];
    if i + 1 < |s| && s[i].Key() == s[i + 1].Key() {
      Replace(s, i, MergeMpe(s[i + 1], s[i]));
    } else {
      assert r[1..] == s[i + 1..] && s[..i + 1] == s[..i] + [s[i]];
      assert |r| == 1 ==> Fold(r[1..]) == [];
      assert r == [s[i]] + r[1..];
      SeqAssoc(s[..i], [s[i]], Fold(r[1..]));
    }
  }

  lemma Replace<T>(s: seq<T>, i: nat, m: T)
    requires i + 1 < |s|
    ensures var t := s[i + 1 := m]; var u := t[..i] + t[i + 1..]; u[..i] == s[..i] && u[i..] == [m] + s[i..][2..]
  {
  }

  // ---------------------------------------------------------------- one entry per WWID

  /** The valid entries for w, in file order. */
  function For(w: string, s: seq<Entry>): seq<Entry> {
    if s == [] then [] else (if s[0].wwid == Some(w) then [s[0]] else []) + For(w, s[1..])
  }

  ghost predicate AllValid(s: seq<Entry>) { forall i | 0 <= i < |s| :: s[i].wwid.Some? }

  lemma {:induction false} ValidKeeps(w: string, s: seq<Entry>)
    ensures AllValid(Valid(s)) && For(w, Valid(s)) == For(w, s)
  {
    if s != [] {
      ValidKeeps(w, s[1..]);
      if s[0].wwid.Some? {
        assert Valid(s)[1..] == Valid(s[1..]);
      } else {
        assert Valid(s) == Valid(s[1..]) && For(w, s) == For(w, s[1..]);
      }
    }
  }

  lemma ComparTotal()
    ensures MergeSort.TotalPreorder(WwidCompar())
  {
    var cmp := WwidCompar();
    forall x, y
      ensures cmp(x, y) <= 0 || cmp(y, x) <= 0
    {
      StrcmpAntisym(y.Key(), x.Key());
    }
    forall x, y, z | cmp(x, y) <= 0 && cmp(y, z) <= 0
      ensures cmp(x, z) <= 0
    {
      StrcmpTrans(x.Key(), y.Key(), z.Key());
    }
  }

  lemma EquivalentKeys(x: Entry, y: Entry)
    ensures MergeSort.Equivalent(WwidCompar(), x, y) <==> x.Key() == y.Key()
  {
    StrcmpAntisym(x.Key(), y.Key());
    StrcmpAntisym(y.Key(), x.Key());
    StrcmpZero(x.Key(), y.Key());
    StrcmpZero(y.Key(), x.Key());
  }

  lemma {:induction false} ClassIsFor(x: Entry, s: seq<Entry>)
    requires AllValid(s) && x.wwid.Some?
    ensures MergeSort.Class(WwidCompar(), x, s) == For(x.wwid.value, s)
  {
    if s != [] {
      ClassIsFor(x, s[1..]);
      EquivalentKeys(x, s[0]);
    }
  }

  /** The sort is stable: entries for one WWID stay in file order. */
  lemma SortKeepsFor(w: string, s: seq<Entry>)
    requires AllValid(s)
    ensures var r := MergeSort.MSort(WwidCompar(), s);
            AllValid(r) && MergeSort.Sorted(WwidCompar(), r) && For(w, r) == For(w, s)
  {
    var r := MergeSort.MSort(WwidCompar(), s);
    ComparTotal();
    MergeSort.Sorts(WwidCompar(), s);
    MergeSort.Permutes(WwidCompar(), s);
    forall i | 0 <= i < |r|
      ensures r[i].wwid.Some?
    {
      assert r[i] in multiset(r);
    }
    var x := Entry(Some(w), map[], map[], Prkey(SourceNone, 0, []));
    MergeSort.SortKeepsClass(WwidCompar(), x, s);
    ClassIsFor(x, s);
    ClassIsFor(x, r);
  }

  /** Entries for one WWID folded into one, first to last. */
  function Folded(acc: Entry, es: seq<Entry>): Entry
    decreases |es|
  {
    if es == [] then acc else Folded(MergeMpe(es[0], acc), es[1..])
  }

  lemma {:induction false} NoneLater(w: string, s: seq<Entry>)
    requires AllValid(s) && forall i | 0 <= i < |s| :: Strcmp(w, s[i].Key()) < 0
    ensures For(w, s) == []
  {
    if s != [] {
      StrcmpZero(w, s[0].Key());
      NoneLater(w, s[1..]);
    }
  }

  lemma Later(s: seq<Entry>)
    requires |s| > 1 && AllValid(s) && MergeSort.Sorted(WwidCompar(), s) && s[0].Key() != s[1].Key()
    ensures For(s[0].Key(), s[1..]) == []
  {
    var cmp := WwidCompar();
    var w := s[0].Key();
    assert cmp(s[0], s[1]) <= 0;
    StrcmpZero(w, s[1].Key());
    forall i | 0 <= i < |s[1..]|
      ensures Strcmp(w, s[1..][i].Key()) < 0
    {
      if i > 0 {
        assert cmp(s[1], s[i + 1]) <= 0;
        StrcmpTrans(w, s[1].Key(), s[i + 1].Key());
      }
    }
    NoneLater(w, s[1..]);
  }

  lemma FoldTwo(s: seq<Entry>)
    requires |s| > 1 && AllValid(s) && MergeSort.Sorted(WwidCompar(), s) && s[0].Key() == s[1].Key()
    ensures var t := [MergeMpe(s[1], s[0])] + s[2..]; AllValid(t) && MergeSort.Sorted(WwidCompar(), t)
  {
    var t := [MergeMpe(s[1], s[0])] + s[2..];
    assert t[0].Key() == s[0].Key();
    forall i, j | 0 <= i < j < |t|
      ensures WwidCompar()(t[i], t[j]) <= 0
    {
      assert WwidCompar()(s[if i == 0 then 0 else i + 1], s[j + 1]) <= 0;
    }
  }

  lemma ForTwo(w: string, s: seq<Entry>)
    requires |s| > 1
    ensures For(w, s) ==
            (if s[0].wwid == Some(w) then [s[0]] else []) +
            ((if s[1].wwid == Some(w) then [s[1]] else []) + For(w, s[2..]))
  {
    assert s[1..][1..] == s[2..];
  }

  /** The fold of all entries, or nothing. */
  function Whole(es: seq<Entry>): seq<Entry> {
    if es == [] then [] else [Folded(es[0], es[1..])]
  }

  lemma WholeTwo(w: string, s: seq<Entry>)
    requires |s| > 1 && AllValid(s) && s[0].Key() == s[1].Key()
    ensures Whole(For(w, [MergeMpe(s[1], s[0])] + s[2..])) == Whole(For(w, s))
  {
    var m := MergeMpe(s[1], s[0]);
    var t := [m] + s[2..];
    ForTwo(w, s);
    assert t[1..] == s[2..];
    if s[0].wwid == Some(w) {
      assert For(w, t) == [m] + For(w, s[2..]);
      assert For(w, s)[1..] == [s[1]] + For(w, s[2..]);
    } else {
      assert For(w, t) == For(w, s[2..]) == For(w, s);
    }
  }

  /** For every WWID, the table ends with the fold of its entries, or with nothing. */
  lemma {:induction false} FoldFor(w: string, s: seq<Entry>)
    requires AllValid(s) && MergeSort.Sorted(WwidCompar(), s)
    ensures For(w, Fold(s)) == Whole(For(w, s))
    decreases |s|
  {
    if |s| > 1 {
      if s[0].Key() == s[1].Key() {
        FoldTwo(s);
        FoldFor(w, [MergeMpe(s[1], s[0])] + s[2..]);
        WholeTwo(w, s);
      } else {
        FoldFor(w, s[1..]);
        assert Fold(s)[1..] == Fold(s[1..]);
        if s[0].wwid == Some(w) {
          Later(s);
        } else {
          assert For(w, s) == For(w, s[1..]) && For(w, Fold(s)) == For(w, Fold(s[1..]));
        }
      }
    } else if |s| == 1 {
      assert s[1..] == [];
    }
  }

  lemma {:induction false} FoldHead(s: seq<Entry>)
    requires s != []
    ensures Fold(s) != [] && Fold(s)[0].Key() == s[0].Key()
    decreases |s|
  {
    if |s| > 1 && s[0].Key() == s[1].Key() {
      FoldHead([MergeMpe(s[1], s[0])] + s[2..]);
    }
  }

  ghost predicate StrictlySorted(s: seq<Entry>) {
    forall i, j | 0 <= i < j < |s| :: Strcmp(s[i].Key(), s[j].Key()) < 0
  }

  lemma {:induction false} FoldStrict(s: seq<Entry>)
    requires AllValid(s) && MergeSort.Sorted(WwidCompar(), s)
    ensures StrictlySorted(Fold(s)) && AllValid(Fold(s))
    decreases |s|
  {
    if |s| > 1 {
      if s[0].Key() == s[1].Key() {
        FoldTwo(s);
        FoldStrict([MergeMpe(s[1], s[0])] + s[2..]);
      } else {
        var cmp := WwidCompar();
        assert cmp(s[0], s[1]) <= 0;
        StrcmpZero(s[0].Key(), s[1].Key());
        var r := Fold(s[1..]);
        FoldStrict(s[1..]);
        FoldHead(s[1..]);
        ConsStrict(s[0], r);
      }
    }
  }

  lemma ConsStrict(e: Entry, r: seq<Entry>)
    requires StrictlySorted(r) && r != [] && Strcmp(e.Key(), r[0].Key()) < 0
    ensures StrictlySorted([e] + r)
  {
    forall j | 0 <= j < |r|
      ensures Strcmp(e.Key(), r[j].Key()) < 0
    {
      if j > 0 {
        StrcmpTrans(e.Key(), r[0].Key(), r[j].Key());
      }
    }
  }

  /**
    merge_mptable leaves the table strictly sorted by WWID, with one entry for every WWID that a
    valid entry had and no other, and that entry is the fold of the WWID's entries in file order.
   */
  lemma OneEntryPerWwid(s: seq<Entry>, w: string)
    ensures var r := MergedTable(s);
            StrictlySorted(r) && AllValid(r) &&
            For(w, r) == Whole(For(w, s))
  {
    ValidKeeps(w, s);
    SortKeepsFor(w, Valid(s));
    var t := MergeSort.MSort(WwidCompar(), Valid(s));
    FoldFor(w, t);
    FoldStrict(t);
  }

  // ---------------------------------------------------------------- the fields of the result

  /** The i-th entry is the last that sets string f. */
  ghost predicate LastString(es: seq<Entry>, f: StringField, i: nat) {
    i < |es| && es[i].Str(f).Some? && forall j | i < j < |es| :: es[j].Str(f).None?
  }

  ghost predicate LastNumber(es: seq<Entry>, f: NumberField, i: nat) {
    i < |es| && es[i].Num(f) != 0 && forall j | i < j < |es| :: es[j].Num(f) == 0
  }

  ghost predicate LastKey(es: seq<Entry>, i: nat) {
    i < |es| && es[i].prkey.source != SourceNone && forall j | i < j < |es| :: es[j].prkey.source == SourceNone
  }

  lemma MergedFields(dst: Entry, src: Entry, f: StringField, g: NumberField)
    ensures var m := MergeMpe(dst, src);
            m.Str(f) == (if dst.Str(f).Some? || src.Str(f) == Some("") then dst.Str(f) else src.Str(f)) &&
            m.Num(g) == (if dst.Num(g) != 0 then dst.Num(g) else src.Num(g))
  {
  }

  /** Folding goes on with the first two entries merged. */
  lemma FoldedStep(es: seq<Entry>) returns (t: seq<Entry>)
    requires |es| > 1
    ensures |t| == |es| - 1 && t[0] == MergeMpe(es[1], es[0]) && forall k | 1 <= k < |t| :: t[k] == es[k + 1]
    ensures Folded(es[0], es[1..]) == Folded(t[0], t[1..])
  {
    t := [MergeMpe(es[1], es[0])] + es[2..];
    assert es[1..][1..] == es[2..] == t[1..];
  }

  /** A folded string is that of the last entry that sets it; an empty one counts as unset unless it comes last. */
  lemma {:induction false} FoldedString(es: seq<Entry>, f: StringField, i: nat)
    requires LastString(es, f, i)
    ensures Folded(es[0], es[1..]).Str(f) == if i == |es| - 1 || es[i].Str(f) != Some("") then es[i].Str(f) else None
    decreases |es|
  {
    if |es| > 1 {
      var t := FoldedStep(es);
      MergedFields(es[1], es[0], f, Mode);
      if i == 0 && es[0].Str(f) == Some("") {
        UnsetString(t, f);
      } else {
        FoldedString(t, f, if i == 0 then 0 else i - 1);
      }
    }
  }

  lemma {:induction false} UnsetString(es: seq<Entry>, f: StringField)
    requires es != [] && forall i | 0 <= i < |es| :: es[i].Str(f).None?
    ensures Folded(es[0], es[1..]).Str(f) == None
    decreases |es|
  {
    if |es| > 1 {
      var t := FoldedStep(es);
      MergedFields(es[1], es[0], f, Mode);
      UnsetString(t, f);
    }
  }

  /** A folded number is that of the last entry that sets it. */
  lemma {:induction false} FoldedNumber(es: seq<Entry>, f: NumberField, i: nat)
    requires LastNumber(es, f, i)
    ensures Folded(es[0], es[1..]).Num(f) == es[i].Num(f)
    decreases |es|
  {
    if |es| > 1 {
      var t := FoldedStep(es);
      MergedFields(es[1], es[0], Alias, f);
      FoldedNumber(t, f, if i == 0 then 0 else i - 1);
    }
  }

  lemma {:induction false} UnsetNumber(es: seq<Entry>, f: NumberField)
    requires es != [] && forall i | 0 <= i < |es| :: es[i].Num(f) == 0
    ensures Folded(es[0], es[1..]).Num(f) == 0
    decreases |es|
  {
    if |es| > 1 {
      var t := FoldedStep(es);
      MergedFields(es[1], es[0], Alias, f);
      UnsetNumber(t, f);
    }
  }

  /** Key, source and flags are taken together, from the last entry with a source, else from the last entry. */
  lemma {:induction false} FoldedKey(es: seq<Entry>, i: nat)
    requires LastKey(es, i) || (i == |es| - 1 && forall j | 0 <= j < |es| :: es[j].prkey.source == SourceNone)
    ensures Folded(es[0], es[1..]).prkey == es[i].prkey
    decreases |es|
  {
    if |es| > 1 {
      var t := FoldedStep(es);
      FoldedKey(t, if i == 0 then 0 else i - 1);
    }
  }

  lemma {:induction false} Found(s: seq<Entry>, i: nat)
    requires i < |s| && s[i].wwid.Some?
    ensures s[i] in For(s[i].wwid.value, s)
    decreases i
  {
    if i > 0 {
      Found(s[1..], i - 1);
    }
  }

  /** Every entry of the merged table is the fold of the entries for its WWID in file order. */
  lemma EntryIsFold(s: seq<Entry>, k: nat)
    requires k < |MergedTable(s)|
    ensures var e := MergedTable(s)[k]; var es := For(e.Key(), s); es != [] && e == Folded(es[0], es[1..])
  {
    var r := MergedTable(s);
    OneEntryPerWwid(s, r[k].Key());
    Found(r, k);
  }

  /** What the string f of the folded entries is: set by the last that sets it, with the rule for empty strings. */
  ghost predicate StringOf(es: seq<Entry>, f: StringField, v: Option<string>) {
    if exists i: nat :: LastString(es, f, i)
    then exists i: nat :: LastString(es, f, i) &&
                          v == if i == |es| - 1 || es[i].Str(f) != Some("") then es[i].Str(f) else None
    else v == None
  }

  ghost predicate NumberOf(es: seq<Entry>, f: NumberField, v: int) {
    if exists i: nat :: LastNumber(es, f, i)
    then exists i: nat :: LastNumber(es, f, i) && v == es[i].Num(f)
    else v == 0
  }

  lemma {:induction false} SomeLastString(es: seq<Entry>, f: StringField, n: nat) returns (i: nat)
    requires n < |es| && es[n].Str(f).Some?
    ensures LastString(es, f, i)
    decreases |es| - n
  {
    if j: nat :| n < j < |es| && es[j].Str(f).Some? {
      i := SomeLastString(es, f, j);
    } else {
      i := n;
    }
  }

  lemma {:induction false} SomeLastNumber(es: seq<Entry>, f: NumberField, n: nat) returns (i: nat)
    requires n < |es| && es[n].Num(f) != 0
    ensures LastNumber(es, f, i)
    decreases |es| - n
  {
    if j: nat :| n < j < |es| && es[j].Num(f) != 0 {
      i := SomeLastNumber(es, f, j);
    } else {
      i := n;
    }
  }

  lemma FoldedStringOf(es: seq<Entry>, f: StringField)
    requires es != []
    ensures StringOf(es, f, Folded(es[0], es[1..]).Str(f))
  {
    if n: nat :| n < |es| && es[n].Str(f).Some? {
      var i := SomeLastString(es, f, n);
      FoldedString(es, f, i);
    } else {
      UnsetString(es, f);
    }
  }

  lemma FoldedNumberOf(es: seq<Entry>, f: NumberField)
    requires es != []
    ensures NumberOf(es, f, Folded(es[0], es[1..]).Num(f))
  {
    if n: nat :| n < |es| && es[n].Num(f) != 0 {
      var i := SomeLastNumber(es, f, n);
      FoldedNumber(es, f, i);
    } else {
      UnsetNumber(es, f);
    }
  }

  /** The same for key, source and flags; without any source they are those of the last entry. */
  ghost predicate KeyOf(es: seq<Entry>, v: Prkey) {
    (forall n: nat | LastKey(es, n) :: v == es[n].prkey) &&
    (es != [] && (forall j | 0 <= j < |es| :: es[j].prkey.source == SourceNone) ==> v == es[|es| - 1].prkey)
  }

  lemma FoldedKeyOf(es: seq<Entry>)
    requires es != []
    ensures KeyOf(es, Folded(es[0], es[1..]).prkey)
  {
    forall n: nat | LastKey(es, n)
      ensures Folded(es[0], es[1..]).prkey == es[n].prkey
    {
      FoldedKey(es, n);
    }
    if forall j | 0 <= j < |es| :: es[j].prkey.source == SourceNone {
      FoldedKey(es, |es| - 1);
    }
  }

  /** Every entry of the merged table, field by field: the last setting in file order, or none where nobody sets it. */
  lemma LastSettingWins(s: seq<Entry>, k: nat, f: StringField, g: NumberField)
    requires k < |MergedTable(s)|
    ensures var e := MergedTable(s)[k]; var es := For(e.Key(), s);
            es != [] && StringOf(es, f, e.Str(f)) && NumberOf(es, g, e.Num(g)) && KeyOf(es, e.prkey)
  {
    EntryIsFold(s, k);
    var es := For(MergedTable(s)[k].Key(), s);
    FoldedStringOf(es, f);
    FoldedNumberOf(es, g);
    FoldedKeyOf(es);
  }
}
