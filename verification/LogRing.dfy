/**
  The log ring: variable-length records in one buffer, chained by `next`, with rewind and drop.

  The buffer is a byte array.  A value wider than a byte (priority, next pointer) is stored as a
  tagged first cell followed by cells for its other bytes, so that overlapping writes destroy each
  other as they do in memory.  Addresses are offsets from the start of the area; `ptr` gives the
  bytes of the pointer that stands for an offset, whose highest byte is 0.
 */
module LogRing {
  import opened Basics

  const MAX_MSG_SIZE := 256
  const DEFAULT_AREA_SIZE := 16384
  const HEADER := 16      // sizeof(struct logmsg)
  const NEXT := 8         // offset of `next` in struct logmsg

  /** Smallest area in which a record written after a rewind cannot be hit by the stale tail. */
  const MIN_AREA := 528

  const MAX_RECORD := 272 // a longest message with header and padding

  datatype Cell = Chr(c: char) | Prio(p: int) | PrioRest | Next(addr: nat) | Rest(addr: nat, i: nat)

  type PtrBytes = b: seq<char> | |b| == NEXT && b[NEXT - 1] == NUL witness seq(NEXT, _ => NUL)

  type Pointers = nat -> PtrBytes

  /** The character a cell is read as; priorities are never read as text. */
  function CharOf(cell: Cell, ptr: Pointers): char {
    match cell
    case Chr(c) => c
    case Next(a) => ptr(a)[0]
    case Rest(a, i) => if i < NEXT then ptr(a)[i] else NUL
    case _ => NUL
  }

  datatype Msg = Msg(prio: int, text: string)

  function Align(n: nat): nat { (n + 7) / 8 * 8 }

  /** Bytes a record of this text occupies, padding included. */
  function RecLen(text: string): nat { Align(HEADER + |text| + 1) }

  lemma RecLenFacts(text: string)
    requires |text| < MAX_MSG_SIZE
    ensures HEADER + |text| < RecLen(text) <= MAX_RECORD && RecLen(text) % 8 == 0 && 24 <= RecLen(text)
  {
  }

  /** What vsnprintf leaves in a buffer of MAX_MSG_SIZE bytes. */
  function Truncated(text: CString): (r: CString)
    ensures |r| < MAX_MSG_SIZE
  {
    if |text| < MAX_MSG_SIZE then text else text[..MAX_MSG_SIZE - 1]
  }

  predicate Storable(text: string) { NUL !in text && |text| < MAX_MSG_SIZE }

  // ---------------------------------------------------------------- layout

  /** A live record: where it starts, how many bytes it occupies, what it says. */
  datatype Rec = Rec(at: nat, len: nat, msg: Msg)

  predicate Sized(r: Rec, size: nat) {
    && Storable(r.msg.text) && r.at % 8 == 0 && r.at + r.len <= size
    && r.len == RecLen(r.msg.text) && HEADER + |r.msg.text| < r.len
  }

  /** Record `r` is intact in memory and links to the record at `next`. */
  predicate Whole(mem: seq<Cell>, ptr: Pointers, r: Rec, next: nat) {
    && Sized(r, |mem|)
    && mem[r.at] == Prio(r.msg.prio)
    && mem[r.at + NEXT] == Next(next)
    && (forall k | 0 <= k < |r.msg.text| :: CharOf(mem[r.at + HEADER + k], ptr) == r.msg.text[k])
    && CharOf(mem[r.at + HEADER + |r.msg.text|], ptr) == NUL
  }

  function Follower(recs: seq<Rec>, i: nat): nat
    requires i < |recs|
  {
    if i + 1 < |recs| then recs[i + 1].at else recs[0].at
  }

  /** All records are intact and chained in order, the last one back to the first. */
  ghost predicate Stored(mem: seq<Cell>, ptr: Pointers, recs: seq<Rec>) {
    forall i {:trigger Whole(mem, ptr, recs[i], Follower(recs, i))} | 0 <= i < |recs| ::
      Whole(mem, ptr, recs[i], Follower(recs, i))
  }

  predicate Before(r: Rec, s: Rec) { r.at + r.len <= s.at }

  /**
    Records before `split` ascend from the head; those from `split` on were written after a
    rewind, ascend from the start of the area and end below the head.
   */
  ghost predicate Placed(recs: seq<Rec>, split: nat) {
    && split <= |recs| && (recs != [] ==> 1 <= split)
    && (forall i, j {:trigger Before(recs[i], recs[j])} | 0 <= i < j < |recs| && (j < split || split <= i) ::
          Before(recs[i], recs[j]))
    && (forall j | split <= j < |recs| :: recs[j].at + recs[j].len < recs[0].at)
  }

  /** Live records are pairwise disjoint. */
  lemma LiveRecordsDisjoint(recs: seq<Rec>, split: nat, i: nat, j: nat)
    requires Placed(recs, split) && i < |recs| && j < |recs| && i != j
    ensures Before(recs[i], recs[j]) || Before(recs[j], recs[i])
  {
    if i < split <= j {
      assert i == 0 || Before(recs[0], recs[i]);
    } else if j < split <= i {
      assert j == 0 || Before(recs[0], recs[j]);
    }
  }

  /** Memory changed only inside `r` and in the `next` field of the record at `last`. */
  ghost predicate Framed(mem: seq<Cell>, mem': seq<Cell>, r: Rec, last: nat) {
    && |mem'| == |mem|
    && forall k | 0 <= k < |mem| && !(r.at <= k < r.at + r.len) && !(last + NEXT <= k < last + HEADER) ::
         mem'[k] == mem[k]
  }

  /** A record disjoint from the written one survives; only the last record's link may change. */
  lemma KeepWhole(ptr: Pointers, mem: seq<Cell>, mem': seq<Cell>, r: Rec, next: nat, s: Rec, last: nat, next': nat)
    requires Whole(mem, ptr, r, next) && Framed(mem, mem', s, last) && (Before(r, s) || Before(s, r))
    requires if r.at == last then mem'[last + NEXT] == Next(next')
             else next' == next && (r.at + r.len <= last || last + HEADER <= r.at)
    ensures Whole(mem', ptr, r, next')
  {
  }

  /** Writing a new record into vacant bytes and linking it behind the last one keeps the chain. */
  lemma AppendStored(ptr: Pointers, mem: seq<Cell>, mem': seq<Cell>, recs: seq<Rec>, split: nat, r: Rec, last: nat)
    requires recs != [] && Stored(mem, ptr, recs) && Placed(recs, split)
    requires forall i | 0 <= i < |recs| :: Before(recs[i], r) || Before(r, recs[i])
    requires last == recs[|recs| - 1].at && Framed(mem, mem', r, last)
    requires Whole(mem', ptr, r, recs[0].at) && last + HEADER <= |mem| && mem'[last + NEXT] == Next(r.at)
    ensures Stored(mem', ptr, recs + [r])
  {
    var n := |recs|;
    forall i | 0 <= i < n
      ensures Whole(mem', ptr, recs[i], Follower(recs + [r], i))
    {
      assert Whole(mem, ptr, recs[i], Follower(recs, i));
      if i < n - 1 {
        LiveRecordsDisjoint(recs, split, i, n - 1);
        assert Whole(mem, ptr, recs[n - 1], Follower(recs, n - 1));
      }
      KeepWhole(ptr, mem, mem', recs[i], Follower(recs, i), r, last, Follower(recs + [r], i));
    }
  }

  /** The new record goes behind the last one, or before the head when the ring has wrapped. */
  lemma AppendPlaced(recs: seq<Rec>, split: nat, r: Rec, split': nat)
    requires recs != [] && Placed(recs, split)
    requires var last := recs[|recs| - 1];
             if split < |recs| then split' == split && Before(last, r) && r.at + r.len < recs[0].at
             else if split' == split then r.at + r.len < recs[0].at
             else split' == split + 1 && Before(last, r)
    ensures Placed(recs + [r], split')
    ensures forall i | 0 <= i < |recs| :: Before(recs[i], r) || Before(r, recs[i])
  {
    var n := |recs|;
    forall i | 0 <= i < n
      ensures Before(recs[i], r) || Before(r, recs[i])
      ensures split' > n || split <= i < n ==> Before(recs[i], r)
    {
      assert i == 0 || i >= split || Before(recs[0], recs[i]);
      assert i == n - 1 || (i < split <= n - 1) || Before(recs[i], recs[n - 1]);
    }
  }

  /** The first byte behind the last record. */
  function End(recs: seq<Rec>): nat
    requires recs != []
  {
    recs[|recs| - 1].at + recs[|recs| - 1].len
  }

  /** There is room for `len` bytes at `at`, behind the last record or before the head. */
  ghost predicate Room(recs: seq<Rec>, split: nat, at: nat, len: nat, split': nat)
    requires recs != []
  {
    if split < |recs| then split' == split && End(recs) <= at && at + len < recs[0].at
    else if split' == split then at + len < recs[0].at
    else split' == split + 1 && End(recs) <= at
  }

  /** Taking the first record away keeps the rest of the chain. */
  lemma DropFirst(ptr: Pointers, mem: seq<Cell>, mem': seq<Cell>, recs: seq<Rec>, split: nat)
    requires |recs| >= 2 && Stored(mem, ptr, recs) && Placed(recs, split)
    requires Framed(mem, mem', recs[0], recs[|recs| - 1].at)
    requires recs[|recs| - 1].at + HEADER <= |mem| && mem'[recs[|recs| - 1].at + NEXT] == Next(recs[1].at)
    ensures Stored(mem', ptr, recs[1..])
  {
    var n := |recs|;
    var rest := recs[1..];
    forall i | 0 <= i < |rest|
      ensures Whole(mem', ptr, rest[i], Follower(rest, i))
    {
      assert rest[i] == recs[i + 1] && Whole(mem, ptr, recs[i + 1], Follower(recs, i + 1));
      LiveRecordsDisjoint(recs, split, 0, i + 1);
      if i + 1 < n - 1 {
        LiveRecordsDisjoint(recs, split, i + 1, n - 1);
        assert Whole(mem, ptr, recs[n - 1], Follower(recs, n - 1));
      }
      KeepWhole(ptr, mem, mem', recs[i + 1], Follower(recs, i + 1), recs[0], recs[n - 1].at, Follower(rest, i));
    }
  }

  lemma DropFirstPlaced(recs: seq<Rec>, split: nat)
    requires |recs| >= 2 && Placed(recs, split)
    ensures Placed(recs[1..], if split == 1 then |recs| - 1 else split - 1)
  {
    if split > 1 {
      assert Before(recs[0], recs[1]);
    }
    var rest := recs[1..];
    forall i, j | 0 <= i < j < |rest| && (split == 1 || j + 1 < split || split <= i + 1)
      ensures Before(rest[i], rest[j])
    {
      assert Before(recs[i + 1], recs[j + 1]);
    }
  }

  /** A record vacant with respect to the chain does not contain the last record's link. */
  lemma LinkedBehind(ptr: Pointers, mem: seq<Cell>, recs: seq<Rec>, r: Rec)
    requires recs != [] && Stored(mem, ptr, recs)
    requires forall i | 0 <= i < |recs| :: Before(recs[i], r) || Before(r, recs[i])
    ensures var last := recs[|recs| - 1].at; last + HEADER <= r.at || r.at + r.len <= last
  {
    assert Whole(mem, ptr, recs[|recs| - 1], Follower(recs, |recs| - 1));
    assert Before(recs[|recs| - 1], r) || Before(r, recs[|recs| - 1]);
  }

  function Messages(recs: seq<Rec>): (msgs: seq<Msg>)
    ensures |msgs| == |recs|
    ensures forall i | 0 <= i < |recs| :: msgs[i] == recs[i].msg
  {
    if recs == [] then [] else [recs[0].msg] + Messages(recs[1..])
  }

  lemma MessagesAppend(recs: seq<Rec>, r: Rec)
    ensures Messages(recs + [r]) == Messages(recs) + [r.msg]
  {
  }

  // ------------------------------------------------------- the write through the stale tail

  /**
    Rewinding an empty ring of `size` bytes whose stale tail is `tail` to store `slen` characters
    overwrites the `next` field at the stale tail; does that hit the new record's text?
   */
  predicate StaleWriteHits(size: nat, tail: nat, slen: nat) {
    && tail % 8 == 0 && tail + HEADER + 8 <= size && slen < MAX_MSG_SIZE
    && Align(HEADER + slen + 1) > size - tail                // rewind
    && Align(HEADER + slen + 1) <= size
    && tail + NEXT < HEADER + slen + 1                       // next field inside the new text
  }

  /** From 528 bytes on it never does. */
  lemma StaleWriteMisses(size: nat, tail: nat, slen: nat)
    requires size >= MIN_AREA
    ensures !StaleWriteHits(size, tail, slen)
  {
  }

  /** The bytes before the first NUL. */
  function UpToNul(b: seq<char>): (r: string)
    ensures |r| <= |b| && NUL !in r && r == b[..|r|] && (|r| < |b| ==> b[|r|] == NUL)
  {
    if b == [] || b[0] == NUL then [] else [b[0]] + UpToNul(b[1..])
  }

  lemma UpToNulShort(b: PtrBytes)
    ensures |UpToNul(b)| < NEXT
  {
    assert b[NEXT - 1] in b && b[..NEXT] == b;
  }

  /** What a hit makes of the text: it goes on with the bytes of a pointer to the start of the area. */
  function Spoiled(text: string, tail: nat, ptr: Pointers): string {
    if NEXT <= tail <= |text| + NEXT then text[..tail - NEXT] + UpToNul(ptr(0)) else text
  }

  /** The text that is kept of a message stored in an empty ring. */
  function Kept(size: nat, tail: nat, text: string, ptr: Pointers): string {
    if StaleWriteHits(size, tail, |text|) then Spoiled(text, tail, ptr) else text
  }

  lemma KeptStorable(size: nat, tail: nat, text: string, ptr: Pointers)
    requires Storable(text) && RecLen(text) <= size
    ensures var r := Rec(0, RecLen(Kept(size, tail, text, ptr)), Msg(0, Kept(size, tail, text, ptr))); Sized(r, size)
  {
    RecLenFacts(text);
    if StaleWriteHits(size, tail, |text|) {
      UpToNulShort(ptr(0));
      var kept := Spoiled(text, tail, ptr);
      assert |kept| <= tail - 1;
      RecLenFacts(kept);
      assert forall k | 0 <= k < tail - NEXT :: kept[k] == text[k] && text[k] in text;
    }
  }

  /** Memory after writing the `next` field of the record at a. */
  ghost predicate NextWritten(mem: seq<Cell>, mem': seq<Cell>, a: nat, value: nat) {
    && |mem'| == |mem| && a + HEADER <= |mem| && mem'[a + NEXT] == Next(value)
    && (forall k | a + NEXT < k < a + HEADER :: mem'[k] == Rest(value, k - a - NEXT))
    && (forall k | 0 <= k < |mem| && !(a + NEXT <= k < a + HEADER) :: mem'[k] == mem[k])
  }

  ghost predicate Zeroed(mem: seq<Cell>, mem': seq<Cell>, a: nat, len: nat) {
    && |mem'| == |mem| && a + len <= |mem|
    && (forall k | a <= k < a + len :: mem'[k] == Chr(NUL))
    && (forall k | 0 <= k < |mem| && !(a <= k < a + len) :: mem'[k] == mem[k])
  }

  /** Memory after writing priority and text of a record. */
  ghost predicate RecordWritten(mem: seq<Cell>, mem': seq<Cell>, r: Rec) {
    && |mem'| == |mem| && Sized(r, |mem|) && mem'[r.at] == Prio(r.msg.prio)
    && (forall k | r.at + HEADER <= k < r.at + HEADER + |r.msg.text| :: mem'[k] == Chr(r.msg.text[k - (r.at + HEADER)]))
    && mem'[r.at + HEADER + |r.msg.text|] == Chr(NUL)
    && (forall k | 0 <= k < |mem| && !(r.at <= k < r.at + r.len) :: mem'[k] == mem[k])
  }

  /** Memory after the record, then the link at `last` to it, then its own link to `head` were written. */
  ghost predicate Staged(mem: seq<Cell>, mem': seq<Cell>, r: Rec, last: nat, head: nat) {
    && |mem'| == |mem| && Sized(r, |mem|) && last + HEADER <= |mem|
    && mem'[r.at + NEXT] == Next(head)
    && (forall k | last + NEXT <= k < last + HEADER && !(r.at + NEXT <= k < r.at + HEADER) ::
          mem'[k] == if k == last + NEXT then Next(r.at) else Rest(r.at, k - last - NEXT))
    && (forall k | 0 <= k < |mem| && !(last + NEXT <= k < last + HEADER) && !(r.at + NEXT <= k < r.at + HEADER) ::
          Written(mem, mem', r, k))
  }

  lemma StagedBy(m0: seq<Cell>, m1: seq<Cell>, m2: seq<Cell>, m3: seq<Cell>, r: Rec, last: nat, head: nat)
    requires RecordWritten(m0, m1, r) && NextWritten(m1, m2, last, r.at) && NextWritten(m2, m3, r.at, head)
    ensures Staged(m0, m3, r, last, head)
  {
  }

  /** Cell k is as the record or, outside it, as before. */
  ghost predicate Written(mem: seq<Cell>, mem': seq<Cell>, r: Rec, k: nat)
    requires k < |mem| == |mem'|
  {
    && (k == r.at ==> mem'[k] == Prio(r.msg.prio))
    && (r.at + HEADER <= k < r.at + HEADER + |r.msg.text| ==> mem'[k] == Chr(r.msg.text[k - (r.at + HEADER)]))
    && (k == r.at + HEADER + |r.msg.text| ==> mem'[k] == Chr(NUL))
    && (!(r.at <= k < r.at + r.len) ==> mem'[k] == mem[k])
  }

  /** The link is written outside the record's text: the record is intact. */
  lemma StagedWhole(ptr: Pointers, mem: seq<Cell>, mem': seq<Cell>, r: Rec, last: nat, head: nat)
    requires Staged(mem, mem', r, last, head)
    requires last == r.at || last + HEADER <= r.at || r.at + r.len <= last + NEXT
    ensures Whole(mem', ptr, r, head) && Framed(mem, mem', r, last)
  {
    assert Written(mem, mem', r, r.at);
    forall k | 0 <= k < |r.msg.text|
      ensures CharOf(mem'[r.at + HEADER + k], ptr) == r.msg.text[k]
    {
      assert Written(mem, mem', r, r.at + HEADER + k);
    }
    assert Written(mem, mem', r, r.at + HEADER + |r.msg.text|);
    forall k | 0 <= k < |mem| && !(r.at <= k < r.at + r.len) && !(last + NEXT <= k < last + HEADER)
      ensures mem'[k] == mem[k]
    {
      assert Written(mem, mem', r, k);
    }
  }

  /** A record behind others keeps the chain. */
  lemma StagedBehind(ptr: Pointers, mem: seq<Cell>, mem': seq<Cell>, recs: seq<Rec>, split: nat, r: Rec, split': nat)
    requires recs != [] && Stored(mem, ptr, recs) && Placed(recs, split) && Room(recs, split, r.at, r.len, split')
    requires Staged(mem, mem', r, recs[|recs| - 1].at, recs[0].at)
    ensures Stored(mem', ptr, recs + [r]) && Placed(recs + [r], split')
  {
    var last := recs[|recs| - 1].at;
    AppendPlaced(recs, split, r, split');
    LinkedBehind(ptr, mem, recs, r);
    StagedWhole(ptr, mem, mem', r, last, recs[0].at);
    AppendStored(ptr, mem, mem', recs, split, r, last);
  }

  /** Unlinking and wiping the first record keeps the rest of the chain. */
  lemma Unlinked(ptr: Pointers, m0: seq<Cell>, m1: seq<Cell>, m2: seq<Cell>, recs: seq<Rec>, split: nat)
    requires |recs| >= 2 && Stored(m0, ptr, recs) && Placed(recs, split)
    requires NextWritten(m0, m1, recs[|recs| - 1].at, recs[1].at)
    requires Zeroed(m1, m2, recs[0].at, |recs[0].msg.text| + HEADER + 1)
    ensures Stored(m2, ptr, recs[1..]) && Placed(recs[1..], if split == 1 then |recs| - 1 else split - 1)
  {
    var n := |recs| - 1;
    assert Whole(m0, ptr, recs[0], Follower(recs, 0));
    assert Whole(m0, ptr, recs[n], Follower(recs, n));
    LiveRecordsDisjoint(recs, split, 0, n);
    DropFirst(ptr, m0, m2, recs, split);
    DropFirstPlaced(recs, split);
  }

  /** The link hits the text: what can be read is a record with the spoiled text. */
  lemma StagedSpoiled(ptr: Pointers, mem: seq<Cell>, mem': seq<Cell>, r: Rec, last: nat, kept: Rec)
    requires Staged(mem, mem', r, last, 0) && r.at == 0 && StaleWriteHits(|mem|, last, |r.msg.text|)
    requires kept.at == 0 && kept.len == RecLen(kept.msg.text) && Sized(kept, |mem|)
    requires kept.msg == Msg(r.msg.prio, Spoiled(r.msg.text, last, ptr))
    ensures Whole(mem', ptr, kept, 0)
  {
    assert NEXT <= last;
    assert Written(mem, mem', r, 0);
    var text, d, b := kept.msg.text, last - NEXT, UpToNul(ptr(0));
    forall k | 0 <= k < |text|
      ensures CharOf(mem'[kept.at + HEADER + k], ptr) == text[k]
    {
      SpoiledChar(ptr, mem, mem', r, last, text, d, b, k);
    }
    SpoiledChar(ptr, mem, mem', r, last, text, d, b, |text|);
  }

  lemma SpoiledChar(ptr: Pointers, mem: seq<Cell>, mem': seq<Cell>, r: Rec, last: nat, text: string, d: nat, b: string,
                    k: nat)
    requires Staged(mem, mem', r, last, 0) && r.at == 0 && last == d + NEXT && HEADER <= last + NEXT
    requires d <= |r.msg.text| && b == UpToNul(ptr(0)) && text == r.msg.text[..d] + b && k <= |text|
    ensures CharOf(mem'[HEADER + k], ptr) == At(text, k)
  {
    UpToNulShort(ptr(0));
    if k < d {
      assert Written(mem, mem', r, HEADER + k);
    } else {
      assert CharOf(mem'[HEADER + k], ptr) == ptr(0)[k - d];
    }
  }

  // ---------------------------------------------------------------- the ring as a value

  datatype Answer = Accepted | Dropped | Overrun | Delivered(msg: Msg) | Nothing

  /** The live records, of which the first `split` lie behind each other, and the (perhaps stale) tail. */
  datatype Ring = Ring(recs: seq<Rec>, split: nat, tail: nat) {

    /** Where the next record goes: behind the last one, or rewound to the start, or nowhere. */
    function Place(size: nat, len: nat): Option<nat> {
      if recs == [] then
        if len <= size - tail then Some(tail) else if tail != 0 then Some(0) else None
      else if split < |recs| then
        if len < recs[0].at - End(recs) then Some(End(recs)) else None
      else
        if len <= size - End(recs) then Some(End(recs)) else if len < recs[0].at then Some(0) else None
    }

    /** Storing m; what is kept of it in an empty ring depends on the stale tail. */
    function Put(size: nat, ptr: Pointers, m: Msg): (Ring, Answer) {
      var p, len := Place(size, RecLen(m.text)), RecLen(m.text);
      if p.None? then (this, Dropped)
      else if p.value + len > size then (this, Overrun)
      else if recs == [] then
        var kept := Kept(size, tail, m.text, ptr);
        (Ring([Rec(p.value, RecLen(kept), Msg(m.prio, kept))], 1, p.value), Accepted)
      else
        var split' := if split == |recs| && p.value == End(recs) then split + 1 else split;
        (Ring(recs + [Rec(p.value, len, m)], split', p.value), Accepted)
    }

    function Take(): (Ring, Answer) {
      if recs == [] then (this, Nothing)
      else
        var split' := if |recs| == 1 then 0 else if split <= 1 then |recs| - 1 else split - 1;
        (Ring(recs[1..], split', tail), Delivered(recs[0].msg))
    }
  }

  // ---------------------------------------------------------------- the ring

  class LogArea {
    const area: array<Cell>
    const ptr: Pointers
    var empty: bool
    var head: nat
    var tail: nat
    ghost var recs: seq<Rec>
    ghost var split: nat

    ghost predicate Valid()
      reads this, area
    {
      && area.Length >= MAX_MSG_SIZE
      && Stored(area[..], ptr, recs)
      && Placed(recs, split)
      && (empty <==> recs == [])
      && (empty ==> head == tail && tail % 8 == 0 && tail + HEADER + 8 <= area.Length)
      && (!empty ==> head == recs[0].at && tail == recs[|recs| - 1].at)
    }

    /** logarea_init */
    constructor (size: nat, bytes: Pointers)
      ensures Valid() && fresh(area) && ptr == bytes && State() == Ring([], 0, 0)
      ensures area.Length == if size < 256 then 16384 else size
    {
      var n := if size < MAX_MSG_SIZE then DEFAULT_AREA_SIZE else size;
      area := new Cell[n](_ => Chr(NUL));
      ptr := bytes;
      empty, head, tail := true, 0, 0;
      recs, split := [], 0;
    }

    /** The ring as a value. */
    ghost function State(): Ring
      reads this
    {
      Ring(recs, split, tail)
    }

    method Strlen(a: nat, ghost r: Rec, ghost next: nat) returns (n: nat)
      requires Whole(area[..], ptr, r, next) && a == r.at
      ensures n == |r.msg.text|
    {
      forall k | 0 <= k <= |r.msg.text|
        ensures CharOf(area[a + HEADER + k], ptr) == if k == |r.msg.text| then NUL else r.msg.text[k]
      {
        assert area[..][a + HEADER + k] == area[a + HEADER + k];
      }
      n := 0;
      while CharOf(area[a + HEADER + n], ptr) != NUL
        invariant n <= |r.msg.text|
        decreases |r.msg.text| - n
      {
        n := n + 1;
      }
      assert n < |r.msg.text| ==> r.msg.text[n] in r.msg.text;
    }

    method WriteNext(a: nat, value: nat)
      requires a + HEADER <= area.Length
      modifies area
      ensures NextWritten(old(area[..]), area[..], a, value)
    {
      ghost var before := area[..];
      area[a + NEXT] := Next(value);
      for i := 1 to NEXT
        invariant area[a + NEXT] == Next(value)
        invariant forall k {:trigger area[k]} | 0 <= k < area.Length && a + NEXT < k < a + NEXT + i ::
                  area[k] == Rest(value, k - a - NEXT)
        invariant forall k {:trigger area[k]} | 0 <= k < area.Length && !(a + NEXT <= k < a + HEADER) ::
                  area[k] == before[k]
      {
        area[a + NEXT + i] := Rest(value, i);
      }
    }

    method WriteRecord(r: Rec)
      requires Sized(r, area.Length)
      modifies area
      ensures RecordWritten(old(area[..]), area[..], r)
    {
      ghost var before := area[..];
      area[r.at], area[r.at + 1] := Prio(r.msg.prio), PrioRest;
      var from := r.at + HEADER;
      for i := 0 to |r.msg.text|
        invariant area[r.at] == Prio(r.msg.prio)
        invariant forall k {:trigger area[k]} | from <= k < from + i :: area[k] == Chr(r.msg.text[k - from])
        invariant forall k {:trigger area[k]} | 0 <= k < area.Length && !(r.at <= k < r.at + r.len) ::
                  area[k] == before[k]
      {
        area[from + i] := Chr(r.msg.text[i]);
      }
      area[from + |r.msg.text|] := Chr(NUL);
    }

    method Zero(a: nat, len: nat)
      requires a + len <= area.Length
      modifies area
      ensures Zeroed(old(area[..]), area[..], a, len)
    {
      for i := 0 to len
        invariant forall k | 0 <= k < area.Length && !(a <= k < a + len) :: area[k] == old(area[k])
        invariant forall k | a <= k < a + i :: area[k] == Chr(NUL)
      {
        area[a + i] := Chr(NUL);
      }
    }

    /** The memcpy of the record's text into the caller's buffer. */
    method Load(a: nat, len: nat, ghost r: Rec, ghost next: nat) returns (text: string)
      requires Whole(area[..], ptr, r, next) && a == r.at && len == |r.msg.text|
      ensures text == r.msg.text
    {
      text := "";
      for i := 0 to len
        invariant text == r.msg.text[..i]
      {
        assert CharOf(area[..][a + HEADER + i], ptr) == r.msg.text[i];
        text := text + [CharOf(area[a + HEADER + i], ptr)];
      }
    }

    /** The successful end of _log_enqueue: write the record at the tail, link it behind `lastmsg`. */
    method Stage(lastmsg: nat, r: Rec)
      requires Sized(r, area.Length) && r.at == tail && lastmsg + HEADER <= area.Length
      modifies this`empty, area
      ensures !empty && Staged(old(area[..]), area[..], r, lastmsg, head)
    {
      empty := false;
      ghost var m0 := area[..];
      WriteRecord(r);
      ghost var m1 := area[..];
      WriteNext(lastmsg, tail);
      ghost var m2 := area[..];
      WriteNext(tail, head);
      StagedBy(m0, m1, m2, area[..], r, lastmsg, head);
    }

    /** The only record is intact. */
    ghost method Linked(r: Rec)
      requires area.Length >= MAX_MSG_SIZE && recs == [] && !empty && head == tail == r.at &&
               Whole(area[..], ptr, r, head)
      modifies this`recs, this`split
      ensures Valid() && recs == [r] && split == 1
    {
      recs, split := [r], 1;
    }

    /** The first byte after the last record, found from the length of its text. */
    method AfterLast() returns (end: nat)
      requires Valid() && !empty
      ensures var last := recs[|recs| - 1];
              && end == last.at + last.len && end % 8 == 0 && end <= area.Length
              && tail + HEADER + 8 <= area.Length && head <= area.Length
              && if split < |recs| then end < head else head <= end
    {
      ghost var n := |recs| - 1;
      assert Whole(area[..], ptr, recs[n], Follower(recs, n));
      assert Whole(area[..], ptr, recs[0], Follower(recs, 0));
      RecLenFacts(recs[n].msg.text);
      var l := Strlen(tail, recs[n], Follower(recs, n));
      end := tail + Align(HEADER + l + 1);
      assert n == 0 || n >= split || Before(recs[0], recs[n]);
    }

    /** How _log_enqueue moves the tail to make room for `len` bytes, or gives up. */
    method Reserve(len: nat) returns (dropped: bool, lastmsg: nat, ghost split': nat)
      requires Valid() && 24 <= len && len % 8 == 0
      modifies this`head, this`tail
      ensures var p := old(State()).Place(area.Length, len);
              if dropped then p.None? && head == old(head) && tail == old(tail) else p == Some(tail)
      ensures lastmsg == old(tail)
      ensures !dropped ==> tail % 8 == 0 && lastmsg + HEADER + 8 <= area.Length
      ensures !dropped && empty ==> head == tail
      ensures !dropped && !empty ==> head == old(head) && tail + len <= area.Length
      ensures !dropped && !empty ==> split' == if split == |recs| && tail == End(recs) then split + 1 else split
      ensures !dropped && !empty ==> Room(recs, split, tail, len, split')
    {
      lastmsg := tail;
      if !empty {
        tail := AfterLast();
      }
      split' := if split < |recs| then split else |recs| + 1;
      if head <= tail && len > area.Length - tail {
        if head == 0 {
          tail := lastmsg;
          return true, lastmsg, split';
        }
        tail := 0;
        if empty {
          head := 0;
        } else {
          split' := split;
        }
      }
      if head > tail && len >= head - tail {
        if !empty {
          tail := lastmsg;
        }
        return true, lastmsg, split';
      }
      return false, lastmsg, split';
    }

    /**
      _log_enqueue: the message is stored as far as it is kept, or dropped.  With Overrun the padded
      record reaches behind the area; nothing is claimed about the ring after that.
     */
    method Enqueue(prio: int, text: CString) returns (answer: Answer)
      requires Valid()
      modifies this, area
      ensures var (s, a) := old(State()).Put(area.Length, ptr, Msg(prio, Truncated(text)));
              answer == a && (answer != Overrun ==> Valid() && State() == s)
      ensures answer == Accepted || answer == Dropped || answer == Overrun
      ensures answer == Overrun <==> old(recs) == [] && old(tail) != 0 && RecLen(Truncated(text)) > area.Length
      ensures answer == Dropped ==> area[..] == old(area[..]) && head == old(head)
    {
      var m := Msg(prio, Truncated(text));
      var len := Align(HEADER + |m.text| + 1);
      RecLenFacts(m.text);
      var dropped: bool, lastmsg: nat;
      ghost var split': nat;
      dropped, lastmsg, split' := Reserve(len);
      if dropped {
        return Dropped;
      }
      if tail + len > area.Length {
        return Overrun;
      }
      if empty {
        StoreFirst(lastmsg, m, len);
      } else {
        StoreNext(lastmsg, m, len, split');
      }
      answer := Accepted;
    }

    /** The record of an empty ring, at the tail or rewound to the start. */
    method StoreFirst(lastmsg: nat, m: Msg, len: nat)
      requires area.Length >= MAX_MSG_SIZE && recs == [] && Placed(recs, split) && head == tail
      requires Storable(m.text) && len == RecLen(m.text) <= area.Length && lastmsg % 8 == 0 &&
               lastmsg + HEADER + 8 <= area.Length
      requires tail == if len > area.Length - lastmsg then 0 else lastmsg
      modifies this`empty, this`recs, this`split, area
      ensures var kept := Kept(area.Length, lastmsg, m.text, ptr);
              Valid() && State() == Ring([Rec(tail, RecLen(kept), Msg(m.prio, kept))], 1, tail)
    {
      RecLenFacts(m.text);
      var r := Rec(tail, len, m);
      ghost var before := area[..];
      Stage(lastmsg, r);
      if StaleWriteHits(area.Length, lastmsg, |m.text|) {
        LinkSpoiled(before, lastmsg, r);
      } else {
        LinkFirst(before, lastmsg, r);
      }
    }

    /** A record behind others. */
    method StoreNext(lastmsg: nat, m: Msg, len: nat, ghost split': nat)
      requires area.Length >= MAX_MSG_SIZE && recs != [] && Stored(area[..], ptr, recs) && Placed(recs, split)
      requires Storable(m.text) && len == RecLen(m.text) && tail % 8 == 0 && tail + len <= area.Length
      requires head == recs[0].at && lastmsg == recs[|recs| - 1].at && lastmsg + HEADER <= area.Length
      requires Room(recs, split, tail, len, split')
      modifies this`empty, this`recs, this`split, area
      ensures Valid() && State() == Ring(old(recs) + [Rec(tail, len, m)], split', tail)
    {
      RecLenFacts(m.text);
      var r := Rec(tail, len, m);
      ghost var before := area[..];
      Stage(lastmsg, r);
      StagedBehind(ptr, before, area[..], recs, split, r, split');
      recs, split := recs + [r], split';
    }

    /** The new record in an empty ring was hit. */
    ghost method LinkSpoiled(before: seq<Cell>, lastmsg: nat, r: Rec)
      requires area.Length >= MAX_MSG_SIZE && Staged(before, area[..], r, lastmsg, 0)
      requires recs == [] && Placed(recs, split)
      requires !empty && head == tail == r.at == 0 && StaleWriteHits(area.Length, lastmsg, |r.msg.text|)
      modifies this`recs, this`split
      ensures var kept := Spoiled(r.msg.text, lastmsg, ptr);
              Valid() && recs == [Rec(0, RecLen(kept), Msg(r.msg.prio, kept))] && split == 1
    {
      var kept := Rec(0, RecLen(Spoiled(r.msg.text, lastmsg, ptr)), Msg(r.msg.prio, Spoiled(r.msg.text, lastmsg, ptr)));
      KeptStorable(area.Length, lastmsg, r.msg.text, ptr);
      StagedSpoiled(ptr, before, area[..], r, lastmsg, kept);
      Linked(kept);
    }

    /** The new record in an empty ring is intact. */
    ghost method LinkFirst(before: seq<Cell>, lastmsg: nat, r: Rec)
      requires area.Length >= MAX_MSG_SIZE && Staged(before, area[..], r, lastmsg, head)
      requires recs == [] && Placed(recs, split) && !empty && head == tail == r.at
      requires lastmsg == r.at || r.at + r.len <= lastmsg + NEXT
      modifies this`recs, this`split
      ensures Valid() && recs == [r] && split == 1
    {
      StagedWhole(ptr, before, area[..], r, lastmsg, head);
      Linked(r);
    }

    method Purge(l: nat)
      requires Valid() && |recs| == 1 && l == |recs[0].msg.text|
      modifies this, area
      ensures Valid() && State() == Ring([], 0, old(tail))
    {
      assert Whole(area[..], ptr, recs[0], Follower(recs, 0));
      RecLenFacts(recs[0].msg.text);
      empty := true;
      Zero(head, l + HEADER + 1);
      recs, split := [], 0;
    }

    /** The last record points to the new first one, and the old first one is wiped. */
    method Relink(src: nat, last: nat, first: nat, len: nat) returns (ghost m1: seq<Cell>)
      requires last + HEADER <= area.Length && src + len <= area.Length
      modifies area
      ensures NextWritten(old(area[..]), m1, last, first) && Zeroed(m1, area[..], src, len)
    {
      WriteNext(last, first);
      m1 := area[..];
      Zero(src, len);
    }

    /** Unlink the first of several records and wipe it. */
    method Unlink(l: nat)
      requires Valid() && |recs| >= 2 && l == |recs[0].msg.text|
      modifies this, area
      ensures Valid() && recs == old(recs)[1..] && tail == old(tail)
      ensures split == if old(split) == 1 then |recs| else old(split) - 1
    {
      ghost var n := |recs| - 1;
      ghost var m0 := area[..];
      assert Whole(m0, ptr, recs[0], Follower(recs, 0));
      assert Whole(m0, ptr, recs[n], Follower(recs, n));
      var src := head;
      head := area[src + NEXT].addr;
      ghost var m1 := Relink(src, tail, head, l + HEADER + 1);
      Unlinked(ptr, m0, m1, area[..], recs, split);
      split := if split == 1 then |recs| - 1 else split - 1;
      recs := recs[1..];
    }

    /** _log_dequeue */
    method Dequeue() returns (answer: Answer)
      requires Valid()
      modifies this, area
      ensures Valid() && (State(), answer) == old(State()).Take()
    {
      if empty {
        return Nothing;
      }
      assert Whole(area[..], ptr, recs[0], Follower(recs, 0));
      var l := Strlen(head, recs[0], Follower(recs, 0));
      var text := Load(head, l, recs[0], Follower(recs, 0));
      answer := Delivered(Msg(area[head].p, text));
      assert answer == Delivered(recs[0].msg);
      if |recs| > 1 {
        assert Whole(area[..], ptr, recs[|recs| - 1], Follower(recs, |recs| - 1));
        LiveRecordsDisjoint(recs, split, 0, |recs| - 1);
      }
      if tail == head {
        assert recs[1..] == [];
        Purge(l);
      } else {
        Unlink(l);
      }
    }
  }

  // ---------------------------------------------------------------- runs

  datatype Op = Put(prio: int, text: CString) | Take

  function AreaSize(size: nat): nat { if size < MAX_MSG_SIZE then DEFAULT_AREA_SIZE else size }

  function Step(s: Ring, size: nat, ptr: Pointers, op: Op): (Ring, Answer) {
    match op
    case Put(prio, text) => s.Put(size, ptr, Msg(prio, Truncated(text)))
    case Take => s.Take()
  }

  /** The ring after these operations, and its answers; an overrun ends the run. */
  function Runs(size: nat, ptr: Pointers, ops: seq<Op>): (Ring, seq<Answer>)
    decreases |ops|
  {
    if ops == [] then (Ring([], 0, 0), [])
    else
      var n := |ops| - 1;
      var (s, answers) := Runs(size, ptr, ops[..n]);
      if Overrun in answers then (s, answers)
      else
        var (s', answer) := Step(s, size, ptr, ops[n]);
        (s', answers + [answer])
  }

  /** The queue a FIFO holds after these operations and answers; None if no FIFO answers so. */
  function Fifo(ops: seq<Op>, answers: seq<Answer>): (r: seq<seq<Msg>>)
    requires |ops| == |answers|
    ensures |r| <= 1
    decreases |ops|
  {
    if ops == [] then [[]] else
    var n := |ops| - 1;
    var before := Fifo(ops[..n], answers[..n]);
    if before == [] then [] else Answers(before[0], ops[n], answers[n])
  }

  /** The queue after one operation with this answer on queue q; empty if no FIFO answers so. */
  function Answers(q: seq<Msg>, op: Op, answer: Answer): (r: seq<seq<Msg>>)
    ensures |r| <= 1
  {
    match (op, answer)
    case (Put(prio, text), Accepted) => [q + [Msg(prio, if |text| < 256 then text else text[..255])]]
    case (Put(_, _), Dropped) => if q == [] then [] else [q]
    case (Take, Delivered(m)) => if q != [] && q[0] == m then [q[1..]] else []
    case (Take, Nothing) => if q == [] then [q] else []
    case _ => []
  }

  function NewlyAccepted(op: Op, answer: Answer): seq<Msg> {
    if op.Put? && answer.Accepted? then [Msg(op.prio, if |op.text| < 256 then op.text else op.text[..255])] else []
  }

  function NewlyDelivered(answer: Answer): seq<Msg> { if answer.Delivered? then [answer.msg] else [] }

  /** The messages accepted, and those delivered, in order. */
  function AcceptedOf(ops: seq<Op>, answers: seq<Answer>): seq<Msg>
    requires |ops| == |answers|
    decreases |ops|
  {
    if ops == [] then [] else
    var n := |ops| - 1;
    AcceptedOf(ops[..n], answers[..n]) + NewlyAccepted(ops[n], answers[n])
  }

  function DeliveredOf(answers: seq<Answer>): seq<Msg>
    decreases |answers|
  {
    if answers == [] then [] else
    var n := |answers| - 1;
    DeliveredOf(answers[..n]) + NewlyDelivered(answers[n])
  }

  /** In a FIFO run every accepted message comes out once, in order, unchanged, or is still queued. */
  lemma {:induction false} DeliveredInOrder(ops: seq<Op>, answers: seq<Answer>)
    requires |ops| == |answers| && Fifo(ops, answers) != []
    ensures AcceptedOf(ops, answers) == DeliveredOf(answers) + Fifo(ops, answers)[0]
    decreases |ops|
  {
    if ops != [] {
      var n := |ops| - 1;
      DeliveredInOrder(ops[..n], answers[..n]);
      var q := Fifo(ops[..n], answers[..n])[0];
      AnswerInOrder(AcceptedOf(ops[..n], answers[..n]), DeliveredOf(answers[..n]), q, ops[n], answers[n]);
    }
  }

  lemma AnswerInOrder(accepted: seq<Msg>, delivered: seq<Msg>, q: seq<Msg>, op: Op, answer: Answer)
    requires accepted == delivered + q && Answers(q, op, answer) != []
    ensures accepted + NewlyAccepted(op, answer) == delivered + NewlyDelivered(answer) + Answers(q, op, answer)[0]
  {
    if answer.Delivered? {
      assert q == [q[0]] + q[1..];
    }
  }

  /** The byte ring run on these operations is the ring as a value. */
  method RunRing(size: nat, ptr: Pointers, ops: seq<Op>) returns (answers: seq<Answer>)
    ensures answers == Runs(AreaSize(size), ptr, ops).1
  {
    var ring := new LogArea(size, ptr);
    answers := [];
    for i := 0 to |ops|
      invariant ring.Valid() && fresh(ring) && fresh(ring.area) && ring.ptr == ptr
      invariant ring.area.Length == AreaSize(size) && Overrun !in answers
      invariant Runs(AreaSize(size), ptr, ops[..i]) == (ring.State(), answers)
    {
      RunOn(AreaSize(size), ptr, ops[..i], ops[i], ring.State(), answers);
      var answer := Apply(ring, ops[i]);
      assert ops[..i + 1] == ops[..i] + [ops[i]];
      answers := answers + [answer];
      if answer == Overrun {
        RunsNoMore(AreaSize(size), ptr, ops, i + 1);
        return;
      }
    }
    assert ops[..|ops|] == ops;
  }

  method Apply(ring: LogArea, op: Op) returns (answer: Answer)
    requires ring.Valid()
    modifies ring, ring.area
    ensures var (s, a) := Step(old(ring.State()), ring.area.Length, ring.ptr, op);
            answer == a && (answer != Overrun ==> ring.Valid() && ring.State() == s)
  {
    match op {
      case Put(prio, text) => answer := ring.Enqueue(prio, text);
      case Take => answer := ring.Dequeue();
    }
  }

  lemma RunStays(size: nat, ptr: Pointers, front: seq<Op>, op: Op, ops: seq<Op>)
    requires ops == front + [op] && Overrun in Runs(size, ptr, front).1
    ensures Runs(size, ptr, ops) == Runs(size, ptr, front)
  {
    assert ops[..|front|] == front;
  }

  lemma {:induction false} RunsNoMore(size: nat, ptr: Pointers, ops: seq<Op>, i: nat)
    requires i <= |ops| && Overrun in Runs(size, ptr, ops[..i]).1
    ensures Runs(size, ptr, ops) == Runs(size, ptr, ops[..i])
    decreases |ops|
  {
    if i == |ops| {
      assert ops[..i] == ops;
    } else {
      var n := |ops| - 1;
      assert ops[..n][..i] == ops[..i];
      RunsNoMore(size, ptr, ops[..n], i);
      RunStays(size, ptr, ops[..n], ops[n], ops);
    }
  }

  // ---------------------------------------------------------------- what runs are like

  lemma FifoStep(ops: seq<Op>, answers: seq<Answer>, n: nat, q: seq<Msg>, answer: Answer)
    requires |ops| == n + 1 && |answers| == n && Fifo(ops[..n], answers) == [q]
    ensures Fifo(ops, answers + [answer]) == Answers(q, ops[n], answer)
  {
    assert (answers + [answer])[..n] == answers;
  }

  /** From 272 bytes on no record reaches behind the area, so that a run goes on to its end. */
  lemma {:induction false} NoOverrun(size: nat, ptr: Pointers, ops: seq<Op>)
    requires size >= MAX_RECORD
    ensures var (s, answers) := Runs(size, ptr, ops);
            |answers| == |ops| && Overrun !in answers && InArea(s, size)
    decreases |ops|
  {
    if ops != [] {
      var n := |ops| - 1;
      NoOverrun(size, ptr, ops[..n]);
      StepInArea(Runs(size, ptr, ops[..n]).0, size, ptr, ops[n]);
    }
  }

  ghost predicate InArea(s: Ring, size: nat) { forall i | 0 <= i < |s.recs| :: s.recs[i].at <= size }

  lemma StepInArea(s: Ring, size: nat, ptr: Pointers, op: Op)
    requires size >= MAX_RECORD && InArea(s, size)
    ensures var (s', answer) := Step(s, size, ptr, op); answer != Overrun && InArea(s', size)
  {
    if op.Put? {
      RecLenFacts(Truncated(op.text));
    }
  }

  /** From 528 bytes on every run is one of a FIFO queue that never drops when empty. */
  lemma {:induction false} RingIsFifo(size: nat, ptr: Pointers, ops: seq<Op>)
    requires size >= MIN_AREA
    ensures var (s, answers) := Runs(size, ptr, ops);
            |answers| == |ops| && Fifo(ops, answers) == [Messages(s.recs)]
    decreases |ops|
  {
    NoOverrun(size, ptr, ops);
    if ops != [] {
      var n := |ops| - 1;
      RingIsFifo(size, ptr, ops[..n]);
      NoOverrun(size, ptr, ops[..n]);
      var (s, answers) := Runs(size, ptr, ops[..n]);
      var (s', answer) := Step(s, size, ptr, ops[n]);
      StepIsFifo(s, size, ptr, ops[n]);
      FifoStep(ops, answers, n, Messages(s.recs), answer);
    }
  }

  lemma StepIsFifo(s: Ring, size: nat, ptr: Pointers, op: Op)
    requires size >= MIN_AREA
    ensures var (s', answer) := Step(s, size, ptr, op);
            answer != Overrun ==> Answers(Messages(s.recs), op, answer) == [Messages(s'.recs)]
  {
    if op.Put? {
      PutIsFifo(s, size, ptr, Msg(op.prio, Truncated(op.text)));
    } else if s.recs != [] {
      assert Messages(s.recs)[1..] == Messages(s.recs[1..]);
    }
  }

  lemma PutIsFifo(s: Ring, size: nat, ptr: Pointers, m: Msg)
    requires size >= MIN_AREA && |m.text| < MAX_MSG_SIZE
    ensures var (s', answer) := s.Put(size, ptr, m);
            match answer
            case Accepted => Messages(s'.recs) == Messages(s.recs) + [m]
            case Dropped => s' == s && s.recs != []
            case _ => answer == Overrun
  {
    RecLenFacts(m.text);
    StaleWriteMisses(size, s.tail, |m.text|);
    var p := s.Place(size, RecLen(m.text));
    if p.Some? {
      MessagesAppend(s.recs, Rec(p.value, RecLen(m.text), m));
    }
  }

  /** So what is delivered is what was accepted, in order, up to what is still queued. */
  lemma DeliveredAsAccepted(size: nat, ptr: Pointers, ops: seq<Op>)
    requires size >= MIN_AREA
    ensures var (s, answers) := Runs(size, ptr, ops);
            |answers| == |ops| && AcceptedOf(ops, answers) == DeliveredOf(answers) + Messages(s.recs)
  {
    RingIsFifo(size, ptr, ops);
    DeliveredInOrder(ops, Runs(size, ptr, ops).1);
  }

  // ---------------------------------------------------------------- when a message is dropped

  /** The records lie in the area in the order of the ring. */
  ghost predicate InOrder(s: Ring, size: nat) {
    Placed(s.recs, s.split) && forall i | 0 <= i < |s.recs| :: s.recs[i].at + s.recs[i].len <= size && s.recs[i].len > 0
  }

  lemma PutInOrder(s: Ring, size: nat, ptr: Pointers, m: Msg)
    requires size >= MAX_RECORD && InOrder(s, size) && Storable(m.text)
    ensures var (s', answer) := s.Put(size, ptr, m); InOrder(s', size)
    ensures var (s', answer) := s.Put(size, ptr, m);
            answer == Accepted && s.recs != [] ==>
              exists r :: s'.recs == s.recs + [r] && FitsIn(r, s.recs, size) && r.msg == m && r.len == RecLen(m.text)
  {
    RecLenFacts(m.text);
    var p := s.Place(size, RecLen(m.text));
    if s.recs == [] {
      KeptStorable(size, s.tail, m.text, ptr);
    } else if p.Some? {
      var r := Rec(p.value, RecLen(m.text), m);
      AppendPlaced(s.recs, s.split, r, s.Put(size, ptr, m).0.split);
      assert FitsIn(r, s.recs, size);
    }
  }

  /** The record lies in the area, apart from the live ones. */
  ghost predicate FitsIn(r: Rec, recs: seq<Rec>, size: nat) {
    r.at + r.len <= size && forall i | 0 <= i < |recs| :: Before(recs[i], r) || Before(r, recs[i])
  }

  lemma TakeInOrder(s: Ring, size: nat)
    requires InOrder(s, size)
    ensures InOrder(s.Take().0, size)
  {
    if |s.recs| >= 2 {
      DropFirstPlaced(s.recs, s.split);
    }
  }

  lemma {:induction false} RunInOrder(size: nat, ptr: Pointers, ops: seq<Op>)
    requires size >= MAX_RECORD
    ensures InOrder(Runs(size, ptr, ops).0, size)
    decreases |ops|
  {
    if ops != [] {
      var n := |ops| - 1;
      RunInOrder(size, ptr, ops[..n]);
      var s := Runs(size, ptr, ops[..n]).0;
      if ops[n].Put? {
        PutInOrder(s, size, ptr, Msg(ops[n].prio, Truncated(ops[n].text)));
      } else {
        TakeInOrder(s, size);
      }
    }
  }

  /**
    Neither free stretch has room for `len` bytes: while the records ascend, the one behind the last
    record and the one before the head; after a rewind, the one between the last record and the head.
   */
  predicate NoRoom(recs: seq<Rec>, size: nat, len: nat) {
    recs != [] &&
    var head, last := recs[0].at, recs[|recs| - 1];
    if last.at < head then last.at + last.len + len >= head
    else last.at + last.len + len > size && len >= head
  }

  /**
    In every run a message is dropped exactly if there is no room for it among the live records; else
    it goes behind the last record, or to the start of the area if it does not fit there.
   */
  lemma DroppedExactly(size: nat, ptr: Pointers, ops: seq<Op>, prio: int, text: CString)
    requires size >= MAX_RECORD
    ensures var s := Runs(size, ptr, ops).0;
            var (s', answer) := Step(s, size, ptr, Op.Put(prio, text));
            var len := ((if |text| < 256 then |text| else 255) + 24) / 8 * 8;
            if NoRoom(s.recs, size, len) then answer == Dropped && s' == s
            else answer == Accepted && |s'.recs| == |s.recs| + 1 && s'.recs[..|s.recs|] == s.recs &&
                 FitsIn(s'.recs[|s.recs|], s.recs, size) &&
                 (s.recs != [] ==> s'.recs[|s.recs|].at == Behind(s.recs, size, len))
  {
    var s, m := Runs(size, ptr, ops).0, Msg(prio, Truncated(text));
    RecLenFacts(m.text);
    RunInOrder(size, ptr, ops);
    DroppedHere(s, size, ptr, m, RecLen(m.text));
  }

  lemma DroppedHere(s: Ring, size: nat, ptr: Pointers, m: Msg, len: nat)
    requires size >= MAX_RECORD && InOrder(s, size) && Storable(m.text) && len == RecLen(m.text)
    ensures var (s', answer) := s.Put(size, ptr, m);
            if NoRoom(s.recs, size, len) then answer == Dropped && s' == s
            else answer == Accepted && |s'.recs| == |s.recs| + 1 && s'.recs[..|s.recs|] == s.recs &&
                 FitsIn(s'.recs[|s.recs|], s.recs, size) &&
                 (s.recs != [] ==> s'.recs[|s.recs|].at == Behind(s.recs, size, len))
  {
    RecLenFacts(m.text);
    PutInOrder(s, size, ptr, m);
    PlaceExactly(s, size, len);
  }

  function Behind(recs: seq<Rec>, size: nat, len: nat): nat
    requires recs != []
  {
    var last := recs[|recs| - 1];
    if last.at >= recs[0].at && last.at + last.len + len > size then 0 else last.at + last.len
  }

  lemma PlaceExactly(s: Ring, size: nat, len: nat)
    requires InOrder(s, size) && 0 < len <= size
    ensures s.recs != [] ==> (s.Place(size, len).None? <==> NoRoom(s.recs, size, len))
    ensures s.Place(size, len).Some? ==> s.Place(size, len).value + len <= size
    ensures s.recs != [] && s.Place(size, len).Some? ==> s.Place(size, len).value == Behind(s.recs, size, len)
    ensures s.recs == [] ==> s.Place(size, len).Some?
  {
    var n := |s.recs|;
    if n > 1 && s.split == n {
      assert Before(s.recs[0], s.recs[n - 1]);
    }
  }

  // ---------------------------------------------------------------- runs of smaller areas

  lemma RunOn(size: nat, ptr: Pointers, ops: seq<Op>, op: Op, s: Ring, answers: seq<Answer>)
    requires Runs(size, ptr, ops) == (s, answers) && Overrun !in answers
    ensures var (s', answer) := Step(s, size, ptr, op); Runs(size, ptr, ops + [op]) == (s', answers + [answer])
  {
    assert (ops + [op])[..|ops|] == ops;
  }

  lemma PutFirst(size: nat, ptr: Pointers, m: Msg, t: nat)
    requires Storable(m.text) && RecLen(m.text) == t <= size
    ensures Step(Ring([], 0, 0), size, ptr, Op.Put(m.prio, m.text)) == (Ring([Rec(0, t, m)], 1, 0), Accepted)
  {
  }

  lemma PutSecond(size: nat, ptr: Pointers, x: Rec, m: Msg, t: nat)
    requires Storable(m.text) && x.at == 0 && x.len == t && t + RecLen(m.text) <= size
    ensures Step(Ring([x], 1, 0), size, ptr, Op.Put(m.prio, m.text)) ==
            (Ring([x, Rec(t, RecLen(m.text), m)], 2, t), Accepted)
  {
    assert [x] + [Rec(t, RecLen(m.text), m)] == [x, Rec(t, RecLen(m.text), m)];
  }

  lemma TakeBoth(size: nat, ptr: Pointers, x: Rec, y: Rec, t: nat)
    ensures Step(Ring([x, y], 2, t), size, ptr, Op.Take) == (Ring([y], 1, t), Delivered(x.msg))
    ensures Step(Ring([y], 1, t), size, ptr, Op.Take) == (Ring([], 0, t), Delivered(y.msg))
  {
    assert [x, y][1..] == [y] && [y][1..] == [];
  }

  /** Two records are stored and taken; the ring is empty with a stale tail behind the first. */
  lemma StoreAndTake(size: nat, ptr: Pointers, x: Msg, y: Msg, t: nat) returns (ops: seq<Op>, answers: seq<Answer>)
    requires Storable(x.text) && Storable(y.text) && RecLen(x.text) == t && t + RecLen(y.text) <= size
    ensures Runs(size, ptr, ops) == (Ring([], 0, t), answers) && |answers| == |ops| && Overrun !in answers
  {
    var r, r' := Rec(0, t, x), Rec(t, RecLen(y.text), y);
    var p, p' := Op.Put(x.prio, x.text), Op.Put(y.prio, y.text);
    PutFirst(size, ptr, x, t);
    RunOn(size, ptr, [], p, Ring([], 0, 0), []);
    PutSecond(size, ptr, r, y, t);
    RunOn(size, ptr, [] + [p], p', Ring([r], 1, 0), [] + [Accepted]);
    TakeBoth(size, ptr, r, r', t);
    ops, answers := [] + [p] + [p'], [] + [Accepted] + [Accepted];
    RunOn(size, ptr, ops, Op.Take, Ring([r, r'], 2, t), answers);
    ops, answers := ops + [Op.Take], answers + [Delivered(x)];
    RunOn(size, ptr, ops, Op.Take, Ring([r'], 1, t), answers);
    ops, answers := ops + [Op.Take], answers + [Delivered(y)];
  }

  lemma StoreAndTakeTwo(size: nat, ptr: Pointers, t: nat) returns (ops: seq<Op>, answers: seq<Answer>)
    requires t % 8 == 0 && 24 <= t <= 272 && t + 24 <= size
    ensures Runs(size, ptr, ops) == (Ring([], 0, t), answers) && |answers| == |ops| && Overrun !in answers
  {
    var x := seq(t - HEADER - 1, _ => 'x');
    assert RecLen(x) == t && RecLen("") == 24;
    ops, answers := StoreAndTake(size, ptr, Msg(0, x), Msg(0, ""), t);
  }

  /** In every area of less than 272 bytes there is a run whose last record reaches behind the area. */
  lemma OverrunReached(size: nat, ptr: Pointers) returns (before: seq<Op>, text: CString)
    requires MAX_MSG_SIZE <= size < MAX_RECORD
    ensures |text| < MAX_MSG_SIZE && HEADER + |text| + 1 > size
    ensures var answers := Runs(size, ptr, before + [Op.Put(0, text)]).1;
            |answers| == |before| + 1 && answers[|before|] == Overrun
  {
    var answers;
    before, answers := StoreAndTakeTwo(size, ptr, 24);
    text := seq(MAX_MSG_SIZE - 1, _ => 'x');
    RunOn(size, ptr, before, Op.Put(0, text), Ring([], 0, 24), answers);
  }

  /** A stale tail and a length for which the link hits the text. */
  lemma SomeHit(size: nat) returns (t: nat, n: nat)
    requires MAX_MSG_SIZE <= size < MIN_AREA
    ensures StaleWriteHits(size, t, n) && t % 8 == 0 && 24 <= t <= 272 && t + 24 <= size && t < n + NEXT
  {
    t, n := if size < 272 then 232 else if size < 520 then 248 else 256, if size < 272 then 239 else 255;
  }

  /**
    In every smaller area there is a run that delivers a changed message: two records are stored and
    taken, then a message is stored at the start of the area and hit by the link at the stale tail.
   */
  lemma ChangedMessage(size: nat, ptr: Pointers) returns (before: seq<Op>, sent: CString)
    requires MAX_MSG_SIZE <= size < MIN_AREA
    ensures |sent| < MAX_MSG_SIZE
    ensures var answers := Runs(size, ptr, before + [Op.Put(0, sent)] + [Op.Take]).1; var n := |before|;
            |answers| == n + 2 && answers[n] == Accepted && answers[n + 1].Delivered? && answers[n + 1].msg.text != sent
  {
    var t, n := SomeHit(size);
    var answers;
    before, answers := StoreAndTakeTwo(size, ptr, t);
    var c := if ptr(0)[0] == 'x' then 'y' else 'x';
    sent := seq(n, _ => c);
    SpoiledDiffers(sent, t, ptr, c);
    SpoiledRun(size, ptr, before, answers, t, sent, Spoiled(sent, t, ptr));
  }

  lemma SpoiledRun(size: nat, ptr: Pointers, before: seq<Op>, answers: seq<Answer>, t: nat, sent: CString, kept: string)
    requires Runs(size, ptr, before) == (Ring([], 0, t), answers) && Overrun !in answers && t > 0
    requires StaleWriteHits(size, t, |sent|) && kept == Spoiled(sent, t, ptr)
    ensures Runs(size, ptr, before + [Op.Put(0, sent)] + [Op.Take]).1 ==
            answers + [Accepted] + [Delivered(Msg(0, kept))]
  {
    var s := Ring([Rec(0, RecLen(kept), Msg(0, kept))], 1, 0);
    PutSpoiled(size, ptr, Msg(0, sent), t, kept);
    RunOn(size, ptr, before, Op.Put(0, sent), Ring([], 0, t), answers);
    RunOn(size, ptr, before + [Op.Put(0, sent)], Op.Take, s, answers + [Accepted]);
  }

  lemma PutSpoiled(size: nat, ptr: Pointers, m: Msg, t: nat, kept: string)
    requires Storable(m.text) && t > 0 && StaleWriteHits(size, t, |m.text|) && kept == Spoiled(m.text, t, ptr)
    ensures Step(Ring([], 0, t), size, ptr, Op.Put(m.prio, m.text)) ==
            (Ring([Rec(0, RecLen(kept), Msg(m.prio, kept))], 1, 0), Accepted)
  {
  }

  lemma SpoiledDiffers(text: string, t: nat, ptr: Pointers, c: char)
    requires NEXT <= t < |text| + NEXT && c != ptr(0)[0] && forall k | 0 <= k < |text| :: text[k] == c
    ensures Spoiled(text, t, ptr) != text
  {
    var d, b, r := t - NEXT, UpToNul(ptr(0)), Spoiled(text, t, ptr);
    if b == [] {
      assert |r| == d;
    } else {
      assert r[d] == b[0] == ptr(0)[0];
    }
  }
}
