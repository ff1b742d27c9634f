/**
  Persistent reservations over the paths of one multipath map.

  The logical unit follows sections 5.6 and 6.12 of SPC-3 (T10/1416-D): one registered key per
  I_T nexus and an optional persistent reservation.  Each path of the map is one nexus; nexuses
  of other hosts may be registered and may hold the reservation but do not act.

  Every command sent down a path may fail, and a command that is reported as failed may or may
  not have been carried out.  Commands of one thread round reach the unit in any order.
 */
module ScsiTarget {
  import opened Basics

  type Key = nat     // 0 stands for "no key"

  datatype Nexus = Path(index: nat) | Foreign(id: nat)

  datatype Reservation = Reservation(holder: Nexus, rtype: nat)

  datatype Target = Target(regs: seq<Key>, others: map<nat, Key>, resv: Option<Reservation>)

  /** Write Exclusive and Exclusive Access - All Registrants. */
  predicate AllRegistrants(rtype: nat) { rtype == 7 || rtype == 8 }

  datatype Command =
    | Register(key: Key, saKey: Key)
    | RegisterIgnore(saKey: Key)
    | Reserve(key: Key, rtype: nat)
    | Release(key: Key, rtype: nat)
    | Clear(key: Key)
    | Preempt(key: Key, saKey: Key, rtype: nat)

  datatype Status =
    | Success | SyntaxError | IllegalReq | Conflict | DmmpError | ThreadError | Other
    | Retryable | SuccessUnregister | Skip | Sense(code: int)

  function KeyOf(t: Target, n: Nexus): Key {
    match n
    case Path(i) => if i < |t.regs| then t.regs[i] else 0
    case Foreign(id) => if id in t.others then t.others[id] else 0
  }

  /** What READ RESERVATION reports: no reservation, or its key (0 for all registrants) and type. */
  function ReadReservation(t: Target): Option<(Key, nat)> {
    if t.resv.None? then None
    else if AllRegistrants(t.resv.value.rtype) then Some((0, t.resv.value.rtype))
    else Some((KeyOf(t, t.resv.value.holder), t.resv.value.rtype))
  }

  /** A nexus registered with `k` holds the reservation, or all registrants do. */
  predicate HeldUnder(t: Target, k: Key) {
    t.resv.Some? && (AllRegistrants(t.resv.value.rtype) || KeyOf(t, t.resv.value.holder) == k)
  }

  predicate IsHolder(t: Target, i: nat) {
    t.resv.Some? && (AllRegistrants(t.resv.value.rtype) || t.resv.value.holder == Path(i))
  }

  /** Keys after removing every registration of `k`, except that of path `keep`. */
  function DropKey(regs: seq<Key>, k: Key, keep: int): (r: seq<Key>)
    ensures |r| == |regs|
    ensures forall j | 0 <= j < |regs| :: r[j] == if regs[j] == k && j != keep then 0 else regs[j]
  {
    seq(|regs|, j requires 0 <= j < |regs| => if regs[j] == k && j != keep then 0 else regs[j])
  }

  function DropForeign(others: map<nat, Key>, k: Key): map<nat, Key> {
    map id | id in others && others[id] != k :: others[id]
  }

  /** Change the key of path `i`; unregistering the only holder releases the reservation. */
  function SetKey(t: Target, i: nat, k: Key): Target
    requires i < |t.regs|
  {
    var t' := t.(regs := t.regs[i := k]);
    if k != 0 || t.regs[i] == 0 || !IsHolder(t, i) then t'
    else if AllRegistrants(t.resv.value.rtype) &&
            (t.others != map[] || exists j | 0 <= j < |t'.regs| :: t'.regs[j] != 0) then t'
    else t'.(resv := None)
  }

  /** A reservation of all registrants ends with the last of them. */
  function Settled(t: Target): Target {
    if t.resv.Some? && AllRegistrants(t.resv.value.rtype) && t.others == map[] &&
       forall j | 0 <= j < |t.regs| :: t.regs[j] == 0
    then t.(resv := None) else t
  }

  function DoPreempt(t: Target, i: nat, saKey: Key, rtype: nat): (Target, Status)
    requires i < |t.regs|
  {
    var taken := Some(Reservation(Path(i), rtype));
    if t.resv.Some? && AllRegistrants(t.resv.value.rtype) && saKey == 0 then
      (Target(seq(|t.regs|, j requires 0 <= j < |t.regs| => if j == i then t.regs[j] else 0), map[], taken), Success)
    else if saKey == 0 then (t, IllegalReq)
    else if t.resv.Some? && !AllRegistrants(t.resv.value.rtype) && KeyOf(t, t.resv.value.holder) == saKey then
      (Target(DropKey(t.regs, saKey, i), DropForeign(t.others, saKey), taken), Success)
    else if saKey in t.regs || saKey in t.others.Values then
      (Settled(Target(DropKey(t.regs, saKey, -1), DropForeign(t.others, saKey), t.resv)), Success)
    else (t, Conflict)
  }

  /** The commands that only a registered nexus may send. */
  function ExecRegistered(t: Target, i: nat, c: Command): (r: (Target, Status))
    requires i < |t.regs| && !c.Register? && !c.RegisterIgnore?
    ensures |r.0.regs| == |t.regs|
    ensures r.1 != Success ==> r.0 == t
    ensures r.1 == Success || r.1 == Conflict || r.1 == IllegalReq
  {
    match c
    case Reserve(_, rtype) =>
      if t.resv.None? then (t.(resv := Some(Reservation(Path(i), rtype))), Success)
      else if IsHolder(t, i) && t.resv.value.rtype == rtype then (t, Success)
      else (t, Conflict)
    case Release(_, rtype) =>
      if !IsHolder(t, i) then (t, Success)
      else if t.resv.value.rtype != rtype then (t, IllegalReq)
      else (t.(resv := None), Success)
    case Clear(_) => (Target(seq(|t.regs|, j => 0), map[], None), Success)
    case Preempt(_, saKey, rtype) => DoPreempt(t, i, saKey, rtype)
  }

  /** The effect of a PERSISTENT RESERVE OUT command received from path `i`. */
  function Exec(t: Target, i: nat, c: Command): (r: (Target, Status))
    requires i < |t.regs|
    ensures |r.0.regs| == |t.regs|
    ensures r.1 != Success ==> r.0 == t
    ensures r.1 == Success || r.1 == Conflict || r.1 == IllegalReq
  {
    match c
    case Register(key, saKey) => if t.regs[i] != key then (t, Conflict) else (SetKey(t, i, saKey), Success)
    case RegisterIgnore(saKey) => (SetKey(t, i, saKey), Success)
    case _ => if t.regs[i] == 0 || t.regs[i] != c.key then (t, Conflict) else ExecRegistered(t, i, c)
  }

}

module Reservations {
  import opened Basics
  import opened ScsiTarget

  datatype PrFlag = Unset | Set | Unknown

  /** What becomes of a key update: stored, refused, or stored with the reply lost. */
  datatype Fate = Stored | Refused | ReplyLost

  datatype PreemptWork = NoWork | ReleaseIt | ReleaseAndUnregister

  datatype ServiceAction = RegSa | RegIgnoreSa | ReserveSa | ReleaseSa | ClearSa | PreemptSa | OtherSa

  /** Results a path can report instead of Success. */
  predicate DeviceError(st: Status) {
    st == IllegalReq || st == Conflict || st == Other || st == Retryable || st.Sense?
  }

  function UpTo(n: nat): (s: set<nat>)
    ensures forall k: nat :: k in s <==> k < n
  {
    if n == 0 then {} else UpTo(n - 1) + {n - 1}
  }

  predicate Distinct(paths: seq<nat>) {
    forall i, j | 0 <= i < j < |paths| :: paths[i] != paths[j]
  }

  /** Thread results that do not by themselves fail a registration. */
  predicate SoftResult(st: Status) { st == Success || st == Conflict || st == Retryable }

  /** Does this call store a new key in multipathd first? */
  predicate Updates(sa: ServiceAction, fromFile: bool, key: Key, paramKey: Key) {
    fromFile && (sa == RegIgnoreSa || (sa == RegSa && (key == 0 || paramKey == 0 || paramKey == key)))
  }

  /** The given key does not fit the configured one. */
  predicate KeyMismatch(sa: ServiceAction, key: Key, paramKey: Key, saKey: Key, updated: bool) {
    if sa == RegSa || sa == RegIgnoreSa then !updated && saKey != 0 && saKey != key
    else key == 0 || paramKey != key
  }

  /** Every usable path is registered with `k`. */
  ghost predicate AllHave(usable: seq<bool>, regs: seq<Key>, k: Key) {
    |usable| == |regs| && forall i | 0 <= i < |usable| && usable[i] :: regs[i] == k
  }

  /** What a registration answers if nothing fails: some usable path must accept it, or ignore the registered key. */
  ghost function RegisterResult(t: Target, usable: seq<bool>, ignore: bool, pkey: Key): Status {
    if forall i | 0 <= i < |usable| :: !usable[i] then DmmpError
    else if |usable| == |t.regs| && exists i | 0 <= i < |usable| && usable[i] :: ignore || t.regs[i] == pkey
    then Success else Conflict
  }

  /** The unit reports this key for its reservation. */
  predicate ReservedBy(t: Target, k: Key) { ReadReservation(t).Some? && ReadReservation(t).value.0 == k }

  /** A preemption of the reservation: by the holder's key, or by key 0 if all registrants hold it. */
  predicate HolderPreempt(t: Target, c: Command) {
    c.Preempt? && t.resv.Some? &&
    if AllRegistrants(t.resv.value.rtype) then c.saKey == 0
    else c.saKey != 0 && KeyOf(t, t.resv.value.holder) == c.saKey
  }

  /** The same by the very key that holds it, or by one of all registrants. */
  predicate SelfPreempt(t: Target, c: Command) { HolderPreempt(t, c) && (c.saKey == c.key || c.saKey == 0) }

  /** After a preemption through path `q`, of the reservation or not, no other path can repeat it: the key is gone. */
  lemma PreemptOnce(t: Target, q: nat, i: nat, c: Command)
    requires q < |t.regs| && i < |t.regs| && i != q && c.Preempt? && Exec(t, q, c).1 == Success
    ensures Exec(Exec(t, q, c).0, i, c) == (Exec(t, q, c).0, Conflict)
  {
    var t' := Exec(t, q, c).0;
    if c.saKey == 0 {
      assert t'.regs[i] == 0;
    } else if HolderPreempt(t, c) {
      assert t'.regs[q] == c.key && t'.regs == DropKey(t.regs, c.saKey, q);
      assert c.saKey != c.key ==> c.saKey !in t'.regs && c.saKey !in t'.others.Values;
    } else {
      PreemptUnregisters(t, q, c);
      assert c.saKey !in t'.regs && c.saKey !in t'.others.Values;
    }
  }

  /** Every registration with the key k is gone, and nothing else but an all-registrants reservation of nobody. */
  ghost predicate Unregistered(t: Target, t': Target, k: Key) {
    |t'.regs| == |t.regs| && (forall j | 0 <= j < |t.regs| :: t'.regs[j] == if t.regs[j] == k then 0 else t.regs[j]) &&
    (forall id :: id in t'.others <==> id in t.others && t.others[id] != k) &&
    (forall id | id in t'.others :: t'.others[id] == t.others[id]) &&
    t'.resv == if Orphaned(t') && t.resv.Some? && AllRegistrants(t.resv.value.rtype) then None else t.resv
  }

  predicate Orphaned(t: Target) { t.others == map[] && forall j | 0 <= j < |t.regs| :: t.regs[j] == 0 }

  lemma PreemptUnregisters(t: Target, i: nat, c: Command)
    requires i < |t.regs| && c.Preempt? && !HolderPreempt(t, c) && Exec(t, i, c).1 == Success
    ensures c.saKey != 0 && Unregistered(t, Exec(t, i, c).0, c.saKey)
    ensures c.saKey in t.regs || c.saKey in t.others.Values
  {
  }

  /** A conflict that is left to other paths: the kernel holds the path for failed, or another one may be the holder. */
  ghost predicate Passes(t: Target, kernelFailed: seq<bool>, c: Command, i: nat) {
    i < |t.regs| == |kernelFailed| && Exec(t, i, c).1 == Conflict && (kernelFailed[i] || c.Reserve?)
  }

  /** The first usable path whose answer counts. */
  ghost predicate Decides(t: Target, usable: seq<bool>, kernelFailed: seq<bool>, c: Command, i: nat) {
    i < |usable| == |t.regs| == |kernelFailed| && usable[i] && !Passes(t, kernelFailed, c, i) &&
    forall j | 0 <= j < i && usable[j] :: Passes(t, kernelFailed, c, j)
  }

  /** The first n paths have left the command to others. */
  ghost predicate AllPassed(t0: Target, t: Target, usable: seq<bool>, kernelFailed: seq<bool>, c: Command, n: nat,
                            failedPaths: bool, conflict: bool)
  {
    n <= |usable| && t == t0 && (forall j | 0 <= j < n && usable[j] :: Passes(t0, kernelFailed, c, j)) &&
    (failedPaths <==> false in usable[..n]) && (conflict <==> true in usable[..n])
  }

  /** If nothing fails the answer is that of the first usable path that does not leave it to others. */
  ghost predicate Calm(t0: Target, t: Target, usable: seq<bool>, kernelFailed: seq<bool>, c: Command,
                       st: Status, failedPaths: bool)
  {
    (forall i: nat | Decides(t0, usable, kernelFailed, c, i) :: (t, st) == Exec(t0, i, c)) &&
    ((forall i | 0 <= i < |usable| && usable[i] :: Passes(t0, kernelFailed, c, i)) ==>
       t == t0 && st == (if true in usable then Conflict else DmmpError) && (failedPaths <==> false in usable)) &&
    (Feasible(t0, usable, c) ==> st == Success)
  }

  lemma PassedDown(t0: Target, t: Target, usable: seq<bool>, kernelFailed: seq<bool>, c: Command, i: nat,
                   failedPaths: bool, conflict: bool)
    requires i < |usable| && !usable[i] && AllPassed(t0, t, usable, kernelFailed, c, i, failedPaths, conflict)
    ensures AllPassed(t0, t, usable, kernelFailed, c, i + 1, true, conflict)
  {
    assert usable[..i + 1] == usable[..i] + [usable[i]];
  }

  lemma PassedOrDecided(t0: Target, t: Target, t': Target, usable: seq<bool>, kernelFailed: seq<bool>, c: Command,
                        i: nat, failedPaths: bool, conflict: bool, ret: Status)
    requires i < |usable| == |t0.regs| == |kernelFailed| && usable[i]
    requires AllPassed(t0, t, usable, kernelFailed, c, i, failedPaths, conflict) && (t', ret) == Exec(t, i, c)
    ensures ret != Retryable
    ensures if ret == Conflict && (kernelFailed[i] || c.Reserve?)
            then AllPassed(t0, t', usable, kernelFailed, c, i + 1, failedPaths, true)
            else Calm(t0, t', usable, kernelFailed, c, ret, failedPaths)
  {
    assert usable[..i + 1] == usable[..i] + [usable[i]];
    if !Passes(t0, kernelFailed, c, i) {
      assert Decides(t0, usable, kernelFailed, c, i);
      forall j: nat | Decides(t0, usable, kernelFailed, c, j) ensures j == i {
      }
    }
  }

  lemma NoneDecides(t0: Target, t: Target, usable: seq<bool>, kernelFailed: seq<bool>, c: Command,
                    failedPaths: bool, conflict: bool)
    requires |usable| == |t0.regs| == |kernelFailed|
    requires AllPassed(t0, t, usable, kernelFailed, c, |usable|, failedPaths, conflict)
    ensures Calm(t0, t, usable, kernelFailed, c, if conflict then Conflict else DmmpError, failedPaths)
    ensures conflict <==> true in usable
  {
    assert usable[..|usable|] == usable;
  }

  /** RESERVE through path i: the unit has no reservation, or the path holds it with this type. */
  predicate Takes(t: Target, i: nat, rtype: nat) {
    t.resv.None? || (IsHolder(t, i) && t.resv.value.rtype == rtype)
  }

  lemma ReserveVia(t: Target, i: nat, k: Key, rtype: nat)
    requires i < |t.regs| && t.regs[i] == k != 0
    ensures Exec(t, i, Reserve(k, rtype)).1 == if Takes(t, i, rtype) then Success else Conflict
  {
  }

  /** Some usable path gets the reservation. */
  ghost predicate CanTake(t: Target, usable: seq<bool>, rtype: nat) {
    exists i | 0 <= i < |usable| && usable[i] :: Takes(t, i, rtype)
  }

  /**
    When registered paths get what RESERVE asks for: the unit is free, a usable path holds the reservation,
    or a path that is not usable may hold it, if multipathd knows of a reservation under the key.
   */
  ghost predicate CanReserve(t: Target, usable: seq<bool>, k: Key, rtype: nat, prhold: PrFlag) {
    CanTake(t, usable, rtype) || (prhold == Set && false in usable && ReadReservation(t) == Some((k, rtype)))
  }

  lemma ReserveAnswer(t0: Target, t: Target, usable: seq<bool>, kernelFailed: seq<bool>, k: Key, rtype: nat,
                      st: Status, failedPaths: bool)
    requires |usable| == |kernelFailed| && AllHave(usable, t0.regs, k) && k != 0 && true in usable
    requires Calm(t0, t, usable, kernelFailed, Reserve(k, rtype), st, failedPaths)
    ensures st == if CanTake(t0, usable, rtype) then Success else Conflict
    ensures st != Success ==> t == t0 && (failedPaths <==> false in usable)
  {
    var c := Reserve(k, rtype);
    if i :| 0 <= i < |usable| && usable[i] && Takes(t0, i, rtype) {
      ReserveVia(t0, i, k, rtype);
      var j := FirstDecides(t0, usable, kernelFailed, c, i);
      ReserveVia(t0, j, k, rtype);
    } else {
      forall i | 0 <= i < |usable| && usable[i]
        ensures Passes(t0, kernelFailed, c, i)
      {
        ReserveVia(t0, i, k, rtype);
      }
    }
  }

  /** Some path decides if one does not leave the command to others. */
  lemma {:induction false} FirstDecides(t: Target, usable: seq<bool>, kernelFailed: seq<bool>, c: Command, i: nat)
      returns (j: nat)
    requires i < |usable| == |t.regs| == |kernelFailed| && usable[i] && !Passes(t, kernelFailed, c, i)
    ensures Decides(t, usable, kernelFailed, c, j)
  {
    if k :| 0 <= k < i && usable[k] && !Passes(t, kernelFailed, c, k) {
      j := FirstDecides(t, usable, kernelFailed, c, k);
    } else {
      j := i;
    }
  }

  /** There is a usable path, and the unit would carry out the command for each. */
  ghost predicate Feasible(t: Target, usable: seq<bool>, c: Command) {
    true in usable && |usable| == |t.regs| && forall i | 0 <= i < |usable| && usable[i] :: Exec(t, i, c).1 == Success
  }

  /** A preemption of the holder, or of a registered key, by registered paths. */
  lemma PreemptFeasible(t: Target, usable: seq<bool>, c: Command)
    requires c.Preempt? && true in usable && AllHave(usable, t.regs, c.key) && c.key != 0
    requires HolderPreempt(t, c) || (c.saKey != 0 && (c.saKey in t.regs || c.saKey in t.others.Values))
    ensures Feasible(t, usable, c)
  {
  }

  /** The first n paths have been tried: a preemption was carried out by the path `applied`, or not at all. */
  ghost predicate Tried(t0: Target, t: Target, c: Command, n: nat, applied: Option<nat>) {
    c.Preempt? ==>
      if applied.None? then t == t0
      else applied.value < n && applied.value < |t0.regs| && Exec(t0, applied.value, c) == (t, Success)
  }

  /** A command has been carried out by one path, or by none. */
  ghost predicate AtMostOnce(t0: Target, t: Target, usable: seq<bool>, c: Command) {
    |usable| == |t0.regs| && (t == t0 || exists i | 0 <= i < |usable| :: Exec(t0, i, c) == (t, Success))
  }

  lemma TriedOnce(t0: Target, t: Target, usable: seq<bool>, c: Command, n: nat, applied: Option<nat>)
    requires n <= |usable| == |t0.regs| && c.Preempt? && Tried(t0, t, c, n, applied)
    ensures AtMostOnce(t0, t, usable, c)
  {
  }

  lemma TriedStep(t0: Target, t: Target, t': Target, c: Command, i: nat, applied: Option<nat>, success: bool)
      returns (applied': Option<nat>)
    requires i < |t0.regs| == |t.regs| && Tried(t0, t, c, i, applied)
    requires t' == t || t' == Exec(t, i, c).0
    requires success ==> Exec(t, i, c) == (t', Success)
    ensures Tried(t0, t', c, i + 1, applied')
    ensures c.Preempt? && success ==> applied' == Some(i)
  {
    applied' := applied;
    if c.Preempt? {
      if applied.Some? {
        PreemptOnce(t0, applied.value, i, c);
      } else if success || t' != t {
        applied' := Some(i);
      }
    }
  }

  /** Commands that take no registration with the key away. */
  predicate Harmless(c: Command, k: Key) { c.Reserve? || c.Release? || (c.Preempt? && c.saKey != k && c.saKey != 0) }

  lemma HarmlessKeeps(t: Target, i: nat, c: Command, usable: seq<bool>, k: Key)
    requires i < |t.regs| && Harmless(c, k) && AllHave(usable, t.regs, k)
    ensures AllHave(usable, Exec(t, i, c).0.regs, k)
  {
  }

  /** The keys of those who preempt another key stay. */
  lemma PreemptorsStay(t: Target, i: nat, c: Command)
    requires i < |t.regs| && c.Preempt? && c.saKey != c.key && c.saKey != 0
    ensures forall j | 0 <= j < |t.regs| && t.regs[j] == c.key :: Exec(t, i, c).0.regs[j] == c.key
  {
  }

  /** The unit holds a reservation of this type under the key, or for all registrants. */
  predicate Holds(t: Target, k: Key, rtype: nat) {
    t.resv.Some? && t.resv.value.rtype == rtype && (AllRegistrants(rtype) || KeyOf(t, t.resv.value.holder) == k)
  }

  predicate Empty(t: Target) { t.resv.None? && t.others == map[] && forall j | 0 <= j < |t.regs| :: t.regs[j] == 0 }

  /** What a successful command has achieved. */
  lemma Achieved(t: Target, i: nat, c: Command)
    requires i < |t.regs| && Exec(t, i, c).1 == Success
    ensures c.Reserve? ==> Holds(Exec(t, i, c).0, c.key, c.rtype)
    ensures c.Clear? ==> Empty(Exec(t, i, c).0)
    ensures HolderPreempt(t, c) ==> Holds(Exec(t, i, c).0, c.key, c.rtype)
  {
  }

  lemma Won(t0: Target, t: Target, t': Target, i: nat, c: Command)
    requires i < |t.regs| == |t0.regs| && Exec(t, i, c) == (t', Success)
    requires c.Preempt? ==> Exec(t0, i, c) == (t', Success)
    ensures c.Reserve? ==> Holds(t', c.key, c.rtype)
    ensures c.Clear? ==> Empty(t')
    ensures HolderPreempt(t0, c) ==> Holds(t', c.key, c.rtype)
  {
    Achieved(t, i, c);
    if c.Preempt? {
      Achieved(t0, i, c);
    }
  }

  /** Path i is the only one registered with k. */
  ghost predicate OnlyOn(regs: seq<Key>, k: Key, i: nat) {
    i < |regs| && regs[i] == k && k != 0 && forall j | 0 <= j < |regs| && j != i :: regs[j] != k
  }

  /** After the own reservation was preempted one path alone is registered with the key, and holds it. */
  lemma HeldAlone(t: Target, i: nat, c: Command)
    requires i < |t.regs| && SelfPreempt(t, c) && Exec(t, i, c).1 == Success
    ensures var t' := Exec(t, i, c).0; OnlyOn(t'.regs, c.key, i) && t'.resv == Some(Reservation(Path(i), c.rtype))
  {
  }

  lemma ReleasedAlone(t: Target, i: nat, k: Key, rtype: nat)
    requires OnlyOn(t.regs, k, i) && t.resv == Some(Reservation(Path(i), rtype))
    ensures Exec(t, i, Release(k, rtype)) == (t.(resv := None), Success)
  {
  }

  // ---------------------------------------------------------------- what a thread round does

  /** Some path would accept the registration. */
  ghost predicate CanRegister(t: Target, paths: seq<nat>, ignore: bool, pkey: Key) {
    exists k | 0 <= k < |paths| :: paths[k] < |t.regs| && (ignore || t.regs[paths[k]] == pkey)
  }

  /** How a round of registrations or releases can have changed the unit. */
  ghost predicate Moved(t0: Target, t: Target, paths: seq<nat>, c: Command)
    requires c.Register? || c.RegisterIgnore? || c.Release?
  {
    |t.regs| == |t0.regs| && t.others == t0.others && (t.resv == t0.resv || t.resv == None) &&
    if c.Release? then t.regs == t0.regs
    else
      (c.saKey != 0 ==> t.resv == t0.resv) &&
      forall j | 0 <= j < |t.regs| :: t.regs[j] == t0.regs[j] || (j in paths && t.regs[j] == c.saKey)
  }

  /** The effect of the threads `done` that report success. */
  ghost predicate Shown(t: Target, paths: seq<nat>, done: set<nat>, c: Command, status: seq<Status>)
    requires c.Register? || c.RegisterIgnore? || c.Release?
  {
    |status| == |paths| &&
    forall k | k in done ::
      k < |paths| && paths[k] < |t.regs| &&
      (status[k] == Success ==>
         if c.Release? then t.resv.None? || !AllRegistrants(t.resv.value.rtype) else t.regs[paths[k]] == c.saKey)
  }

  /** The threads `done` were answered as the unit would have answered at the start, and so will `pending` be. */
  ghost predicate Answered(t0: Target, t: Target, paths: seq<nat>, pending: set<nat>, done: set<nat>, c: Command,
                           status: seq<Status>)
  {
    |status| == |paths| && |t.regs| == |t0.regs| &&
    (forall k | k in pending + done :: k < |paths| && paths[k] < |t.regs|) &&
    (forall k | k in done :: status[k] == Exec(t0, paths[k], c).1) &&
    (forall k | k in pending :: Exec(t, paths[k], c).1 == Exec(t0, paths[k], c).1) &&
    (c.Release? ==> t.resv == t0.resv || exists k | k in done :: status[k] == Success && IsHolder(t0, paths[k]))
  }

  /** A registration or release through one path changes no answer to another one. */
  lemma OtherAnswer(t: Target, i: nat, j: nat, c: Command)
    requires i < |t.regs| && j < |t.regs| && i != j && (c.Register? || c.RegisterIgnore? || c.Release?)
    ensures Exec(Exec(t, i, c).0, j, c).1 == Exec(t, j, c).1
  {
  }

  lemma ReleasedBySome(t0: Target, t: Target, t': Target, paths: seq<nat>, done: set<nat>, k: nat, c: Command,
                       status: seq<Status>, st: Status)
    requires c.Release? && |status| == |paths| && k < |paths| && paths[k] < |t.regs| == |t0.regs| && k !in done
    requires forall m | m in done :: m < |paths| && paths[m] < |t0.regs|
    requires Moved(t0, t, paths, c) && (t', st) == Exec(t, paths[k], c) && t'.resv != t0.resv
    requires t.resv == t0.resv || exists m | m in done :: status[m] == Success && IsHolder(t0, paths[m])
    ensures exists m | m in done + {k} :: status[k := st][m] == Success && IsHolder(t0, paths[m])
  {
    if t.resv == t0.resv {
      assert st == Success && IsHolder(t0, paths[k]) && k in done + {k};
    } else {
      var m :| m in done && status[m] == Success && IsHolder(t0, paths[m]);
      assert m in done + {k} && status[k := st][m] == Success;
    }
  }

  lemma AnsweredStep(t0: Target, t: Target, t': Target, paths: seq<nat>, pending: set<nat>, done: set<nat>, k: nat,
                     c: Command, status: seq<Status>, st: Status)
    requires c.Register? || c.RegisterIgnore? || c.Release?
    requires Distinct(paths) && k !in pending && k !in done && Answered(t0, t, paths, pending + {k}, done, c, status)
    requires Moved(t0, t, paths, c) && (t', st) == Exec(t, paths[k], c)
    ensures Answered(t0, t', paths, pending, done + {k}, c, status[k := st])
  {
    assert k in pending + {k};
    if c.Release? && t'.resv != t0.resv {
      ReleasedBySome(t0, t, t', paths, done, k, c, status, st);
    }
    PendingAnswers(t0, t, t', paths, pending, k, c);
  }

  lemma PendingAnswers(t0: Target, t: Target, t': Target, paths: seq<nat>, pending: set<nat>, k: nat, c: Command)
    requires (c.Register? || c.RegisterIgnore? || c.Release?) && |t.regs| == |t0.regs| && Distinct(paths)
    requires k !in pending && forall m | m in pending + {k} :: m < |paths| && paths[m] < |t.regs|
    requires forall m | m in pending :: Exec(t, paths[m], c).1 == Exec(t0, paths[m], c).1
    requires t' == Exec(t, paths[k], c).0
    ensures forall m | m in pending :: Exec(t', paths[m], c).1 == Exec(t0, paths[m], c).1
  {
    assert k in pending + {k};
    forall m | m in pending
      ensures Exec(t', paths[m], c).1 == Exec(t0, paths[m], c).1
    {
      assert m in pending + {k};
      OtherAnswer(t, paths[k], paths[m], c);
    }
  }

  /** A release through the path that holds the reservation ends it. */
  ghost predicate HolderReleased(t0: Target, t: Target, paths: seq<nat>, done: set<nat>, status: seq<Status>) {
    |status| == |paths| &&
    forall k | k in done ::
      k < |paths| && paths[k] < |t0.regs| && (status[k] == Success && IsHolder(t0, paths[k]) ==> t.resv.None?)
  }

  /** What threads can report. */
  ghost predicate Results(status: seq<Status>, done: set<nat>) {
    forall k | k in done :: k < |status| && (status[k] == Success || status[k] == ThreadError || DeviceError(status[k]))
  }

  lemma ProgressStart(t: Target, paths: seq<nat>, todo: set<nat>, c: Command, start: seq<Status>, faulted: bool)
    requires c.Register? || c.RegisterIgnore? || c.Release?
    requires |start| == |paths| && (forall k | k in todo :: k < |paths|)
    requires forall k | 0 <= k < |paths| :: paths[k] < |t.regs|
    ensures Progress(t, t, paths, todo, {}, c, start, faulted)
  {
  }

  /** A round under way. */
  ghost predicate Progress(t0: Target, t: Target, paths: seq<nat>, pending: set<nat>, done: set<nat>, c: Command,
                           status: seq<Status>, faulted: bool)
    requires c.Register? || c.RegisterIgnore? || c.Release?
  {
    Moved(t0, t, paths, c) && Shown(t, paths, done, c, status) &&
    (c.Release? ==> HolderReleased(t0, t, paths, done, status)) &&
    (!faulted ==> Answered(t0, t, paths, pending, done, c, status))
  }

  lemma HolderStep(t0: Target, t: Target, t': Target, paths: seq<nat>, done: set<nat>, k: nat, c: Command,
                   status: seq<Status>, st: Status)
    requires c.Release? && k < |paths| && paths[k] < |t.regs| && k !in done
    requires Moved(t0, t, paths, c) && HolderReleased(t0, t, paths, done, status)
    requires t' == t || t' == Exec(t, paths[k], c).0
    requires st == Success ==> Exec(t, paths[k], c) == (t', Success)
    ensures HolderReleased(t0, t', paths, done + {k}, status[k := st])
  {
  }

  lemma ProgressStep(t0: Target, t: Target, t': Target, paths: seq<nat>, pending: set<nat>, done: set<nat>, k: nat,
                     c: Command, status: seq<Status>, st: Status, before: bool, faulted: bool)
    requires c.Register? || c.RegisterIgnore? || c.Release?
    requires Distinct(paths) && k < |paths| && paths[k] < |t.regs| && k !in pending && k !in done
    requires Progress(t0, t, paths, pending + {k}, done, c, status, before)
    requires t' == t || t' == Exec(t, paths[k], c).0
    requires st == Success ==> Exec(t, paths[k], c) == (t', Success)
    requires !faulted ==> !before && (t', st) == Exec(t, paths[k], c)
    ensures Progress(t0, t', paths, pending, done + {k}, c, status[k := st], faulted)
  {
    MovedStep(t0, t, t', paths, k, c);
    ShownStep(t, t', paths, done, k, c, status, st);
    if c.Release? {
      HolderStep(t0, t, t', paths, done, k, c, status, st);
    }
    if !faulted {
      AnsweredStep(t0, t, t', paths, pending, done, k, c, status, st);
    }
  }

  /** What a finished round means. */
  lemma RoundDone(t0: Target, t: Target, paths: seq<nat>, todo: set<nat>, c: Command, status: seq<Status>,
                  faulted: bool)
    requires c.Register? || c.RegisterIgnore? || c.Release?
    requires Progress(t0, t, paths, {}, todo, c, status, faulted)
    ensures |status| == |paths| && forall k | k in todo :: k < |paths| && paths[k] < |t0.regs| == |t.regs|
    ensures !faulted ==> forall k | k in todo :: status[k] == Exec(t0, paths[k], c).1
    ensures !faulted && c.Release? ==>
              t.resv == t0.resv || exists k | k in todo :: status[k] == Success && IsHolder(t0, paths[k])
    ensures c.Release? && (exists k :: k in todo && status[k] == Success && IsHolder(t0, paths[k])) ==> t.resv.None?
    ensures c.Release? && (exists k :: k in todo && status[k] == Success) ==>
              t.resv.None? || !AllRegistrants(t.resv.value.rtype)
    ensures !c.Release? ==> forall k | k in todo && status[k] == Success :: t.regs[paths[k]] == c.saKey
  {
  }

  /** What registered paths can do: clear the unit, preempt its holder or a registered key. */
  ghost predicate CanDo(t: Target, sa: ServiceAction, k: Key, saKey: Key, rtype: nat) {
    match sa
    case ClearSa => true
    case PreemptSa =>
      HolderPreempt(t, Preempt(k, saKey, rtype)) ||
      (saKey != 0 && !ReservedBy(t, saKey) && (saKey in t.regs || saKey in t.others.Values))
    case _ => false
  }

  lemma DoFeasible(t: Target, usable: seq<bool>, sa: ServiceAction, k: Key, saKey: Key, rtype: nat)
    requires true in usable && AllHave(usable, t.regs, k) && k != 0 && CanDo(t, sa, k, saKey, rtype)
    ensures Feasible(t, usable, match sa
                                case PreemptSa => Preempt(k, saKey, rtype)
                                case _ => Clear(k))
  {
    if sa == PreemptSa {
      PreemptFeasible(t, usable, Preempt(k, saKey, rtype));
    }
  }

  /** The reservation under the key has another type. */
  predicate WrongType(t: Target, k: Key, rtype: nat) { HeldUnder(t, k) && t.resv.value.rtype != rtype }

  /** What is left after a round of releases in which nothing failed. */
  ghost predicate ReleasedWell(t0: Target, t: Target, status: seq<Status>, k: Key, rtype: nat) {
    if WrongType(t0, k, rtype) then t.resv == t0.resv && (AllRegistrants(t0.resv.value.rtype) ==> Success !in status)
    else
      Success in status &&
      (ReservedBy(t, k) ==> SelfPreempt(t, Preempt(k, k, rtype)) && ReadReservation(t) == Some((k, rtype)))
  }

  lemma ReleaseRoundMeans(t0: Target, t: Target, usable: seq<bool>, paths: seq<nat>, status: seq<Status>, k: Key,
                          rtype: nat)
    requires k != 0 && AllHave(usable, t0.regs, k) && paths != [] && |status| == |paths|
    requires forall p :: p in paths <==> 0 <= p < |usable| && usable[p]
    requires forall m | 0 <= m < |paths| :: paths[m] < |usable| && status[m] == Exec(t0, paths[m], Release(k, rtype)).1
    requires t.regs == t0.regs && t.others == t0.others && (t.resv == t0.resv || t.resv.None?)
    requires t.resv == t0.resv || exists m | 0 <= m < |paths| :: status[m] == Success && IsHolder(t0, paths[m])
    requires (exists m | 0 <= m < |paths| :: status[m] == Success && IsHolder(t0, paths[m])) ==> t.resv.None?
    ensures ReleasedWell(t0, t, status, k, rtype)
  {
    forall m | 0 <= m < |paths|
      ensures usable[paths[m]] && t0.regs[paths[m]] == k
    {
      assert paths[m] in paths;
    }
    if !WrongType(t0, k, rtype) {
      assert status[0] == Success;
    }
  }

  /** Some paths have the new key, and removing keys may have ended the reservation. */
  ghost predicate Rekeyed(t0: Target, t: Target, k: Key) {
    |t.regs| == |t0.regs| && t.others == t0.others && (t.resv == t0.resv || t.resv.None?) &&
    (k != 0 ==> t.resv == t0.resv) && forall j | 0 <= j < |t.regs| :: t.regs[j] == t0.regs[j] || t.regs[j] == k
  }

  /** The prhold flag after the registered key was changed from pkey to k. */
  ghost function HoldAfter(t: Target, prhold: PrFlag, pkey: Key, k: Key): PrFlag {
    if pkey == 0 || k == 0 then Unset
    else if pkey == k || ReservedBy(t, pkey) || ReservedBy(t, k) then prhold
    else Unset
  }

  /** The old key, if the map may hold the reservation under it. */
  ghost function KeyToIgnore(t: Target, prhold: PrFlag, curr: Key): Key {
    if prhold != Unset && ReservedBy(t, curr) then curr else 0
  }

  /** Clearing prflag takes prhold with it. */
  ghost predicate FlagSet(on: bool, flag: PrFlag, hold: PrFlag, flag': PrFlag, hold': PrFlag) {
    if on then flag' == Set && hold' == hold
    else flag' == Unset && hold' == if flag != Unset then Unset else hold
  }

  /**
    What multipathd has been told by a successful call: from the flags before, the unit before and
    after, and whether all queries were answered.
   */
  ghost predicate FlagsTold(sa: ServiceAction, oldKey: Key, paramKey: Key, saKey: Key, t0: Target, t: Target,
                            flag: PrFlag, hold: PrFlag, flag': PrFlag, hold': PrFlag, queried: bool)
  {
    match sa
    case ReserveSa => hold' == Set && flag' == flag
    case ReleaseSa => hold' == Unset && flag' == flag
    case ClearSa => FlagSet(false, flag, hold, flag', hold')
    case PreemptSa =>
      if ReservedBy(t0, saKey) then hold' == Set && flag' == flag
      else if saKey == paramKey then FlagSet(false, flag, hold, flag', hold')
      else hold' == hold && flag' == flag
    case RegSa => Registered(saKey, paramKey, t, flag, hold, flag', hold', queried)
    case RegIgnoreSa => Registered(saKey, KeyToIgnore(t0, hold, oldKey), t, flag, hold, flag', hold', queried)
    case OtherSa => false
  }

  ghost predicate Registered(saKey: Key, pkey: Key, t: Target, flag: PrFlag, hold: PrFlag, flag': PrFlag, hold': PrFlag,
                             queried: bool)
  {
    if saKey == 0 then flag' == Unset && (hold' == Unset || flag == Unset)
    else flag' == Set && (queried ==> hold' == HoldAfter(t, hold, pkey, saKey))
  }

  lemma MovedStep(t0: Target, t: Target, t': Target, paths: seq<nat>, k: nat, c: Command)
    requires c.Register? || c.RegisterIgnore? || c.Release?
    requires k < |paths| && paths[k] < |t.regs| && Moved(t0, t, paths, c)
    requires t' == t || t' == Exec(t, paths[k], c).0
    ensures Moved(t0, t', paths, c)
  {
    assert paths[k] in paths;
  }

  lemma ShownStep(t: Target, t': Target, paths: seq<nat>, done: set<nat>, k: nat, c: Command,
                  status: seq<Status>, st: Status)
    requires c.Register? || c.RegisterIgnore? || c.Release?
    requires Distinct(paths) && k < |paths| && paths[k] < |t.regs| && k !in done && Shown(t, paths, done, c, status)
    requires t' == t || t' == Exec(t, paths[k], c).0
    requires st == Success ==> Exec(t, paths[k], c) == (t', Success)
    ensures Shown(t', paths, done + {k}, c, status[k := st])
  {
  }

  /** One call of libmpathpersist on one map. */
  class Session {
    // the map as the library sees it
    var usable: seq<bool>             // state is PATH_UP or PATH_GHOST
    const kernelFailed: seq<bool>     // dmstate is PSTATE_FAILED
    var key: Key                      // mpp->reservation_key
    const fromFile: bool              // prkey_source is PRKEY_SOURCE_FILE
    // the logical unit, device mapper and multipathd
    var t: Target
    var suspended: bool
    var prhold: PrFlag
    var prflag: PrFlag
    var storedKey: Key
    // history
    ghost var exposed: bool           // a usable path lacked the key while I/O was possible
    ghost var queryFailed: bool       // some query to multipathd or READ RESERVATION failed
    ghost var flagLost: bool          // some update of a flag, or clearing the key, was refused
    ghost var faulted: bool           // some command, thread or change of the device's state failed

    ghost predicate Valid()
      reads this
    {
      |usable| == |t.regs| == |kernelFailed|
    }

    /** Every usable path is registered with the map's key. */
    ghost predicate Covered()
      reads this
    {
      AllHave(usable, t.regs, key)
    }

    // ------------------------------------------------------------ environment

    /** prout_do_scsi_ioctl */
    method Ioctl(i: nat, c: Command) returns (st: Status)
      requires Valid() && i < |t.regs|
      modifies this`t, this`exposed, this`faulted
      ensures old(faulted) ==> faulted
      ensures Valid() && |t.regs| == |old(t).regs|
      ensures t == old(t) || t == Exec(old(t), i, c).0
      ensures st == Success ==> Exec(old(t), i, c) == (t, Success)
      ensures st == Success || DeviceError(st)
      ensures exposed == (old(exposed) || (!suspended && !Covered()))
      ensures faulted || (t, st) == Exec(old(t), i, c)
    {
      var delivered: bool := *;
      var answered: bool := *;
      st := *;
      if !DeviceError(st) {
        st := Retryable;
      }
      if delivered {
        var (t', result) := Exec(t, i, c);
        t := t';
        if answered {
          st := result;
        }
      }
      faulted := faulted || !delivered || !answered;
      exposed := exposed || (!suspended && !Covered());
    }

    method Suspend() returns (ok: bool)
      requires Valid()
      modifies this`suspended, this`faulted
      ensures old(faulted) ==> faulted
      ensures suspended == (old(suspended) || ok) && (ok || faulted)
    {
      ok := *;
      faulted := faulted || !ok;
      suspended := suspended || ok;
    }

    method Resume() returns (ok: bool)
      requires Valid()
      modifies this`suspended, this`exposed, this`faulted
      ensures old(faulted) ==> faulted
      ensures suspended == (old(suspended) && !ok) && (ok || faulted)
      ensures exposed == (old(exposed) || (!suspended && !Covered()))
    {
      ok := *;
      faulted := faulted || !ok;
      suspended := suspended && !ok;
      exposed := exposed || (!suspended && !Covered());
    }

    method GetPrhold() returns (f: PrFlag)
      modifies this`queryFailed
      ensures f == prhold || (f == Unknown && queryFailed)
      ensures old(queryFailed) ==> queryFailed
    {
      var answered: bool := *;
      queryFailed := queryFailed || !answered;
      f := if answered then prhold else Unknown;
    }

    /** update_prhold; its result is ignored everywhere. */
    method UpdatePrhold(hold: bool)
      modifies this`prhold, this`flagLost
      ensures prhold == (if hold then Set else Unset) || (flagLost && prhold == old(prhold))
      ensures old(flagLost) ==> flagLost
    {
      var fate: Fate := *;
      if fate != Refused {
        prhold := if hold then Set else Unset;
      }
      flagLost := flagLost || fate == Refused;
    }

    /** mpath_prin_activepath with READ RESERVATION: the first usable path that answers. */
    method ReadResv() returns (ok: bool, resp: Option<(Key, nat)>)
      requires Valid()
      modifies this`queryFailed
      ensures ok ==> resp == ReadReservation(t)
      ensures !ok ==> queryFailed
      ensures old(queryFailed) ==> queryFailed
    {
      for i := 0 to |usable| {
        var answered: bool := *;
        var illegal: bool := *;
        if usable[i] && answered {
          return true, ReadReservation(t);
        }
        if usable[i] && illegal {
          break;
        }
      }
      queryFailed := true;
      return false, None;
    }

    // ------------------------------------------------------------ the protocol

    /** The usable paths, in order: the threads that a round starts. */
    method ActivePaths() returns (paths: seq<nat>)
      requires Valid()
      ensures Distinct(paths)
      ensures forall p :: p in paths <==> 0 <= p < |usable| && usable[p]
      ensures forall k | 0 <= k < |paths| :: paths[k] < |usable|
    {
      paths := [];
      for i := 0 to |usable|
        invariant Distinct(paths)
        invariant forall p :: p in paths <==> 0 <= p < i && usable[p]
        invariant forall k | 0 <= k < |paths| :: paths[k] < i
      {
        if usable[i] {
          paths := paths + [i];
        }
      }
    }

    /**
      Start one thread per path in `todo` (indices into `paths`), each sending `c`; any of them may
      fail to start, the others reach the unit in any order.
     */
    method Round(paths: seq<nat>, todo: set<nat>, c: Command, start: seq<Status>) returns (status: seq<Status>)
      requires Valid() && Distinct(paths) && |start| == |paths|
      requires forall k | 0 <= k < |paths| :: paths[k] < |t.regs|
      requires forall k | k in todo :: k < |paths|
      requires c.Register? || c.RegisterIgnore? || c.Release?
      modifies this`t, this`exposed, this`faulted
      ensures old(faulted) ==> faulted
      ensures Valid() && |t.regs| == |old(t).regs|
      ensures |status| == |paths|
      ensures forall k | 0 <= k < |paths| && k !in todo :: status[k] == start[k]
      ensures forall k | k in todo :: status[k] == Success || status[k] == ThreadError || DeviceError(status[k])
      ensures c.Release? ==> t.regs == old(t).regs && (t.resv == old(t).resv || t.resv == None)
      ensures c.Release? && (exists k :: k in todo && status[k] == Success) ==>
                t.resv.None? || !AllRegistrants(t.resv.value.rtype)
      ensures !c.Release? ==> forall k | k in todo && status[k] == Success :: t.regs[paths[k]] == c.saKey
      ensures !c.Release? ==> forall j | 0 <= j < |t.regs| ::
                t.regs[j] == old(t).regs[j] || (j in paths && t.regs[j] == c.saKey)
      ensures !c.Release? && c.saKey != 0 ==> t.resv == old(t).resv
      ensures t.resv == old(t).resv || t.resv == None
      ensures t.others == old(t).others
      ensures old(exposed) ==> exposed
      ensures suspended ==> exposed == old(exposed)
      ensures c.Release? && old(Covered()) ==> exposed == old(exposed)
      // without faults every thread gets the answer that the unit would have given at the start
      ensures !faulted ==> forall k | k in todo :: status[k] == Exec(old(t), paths[k], c).1
      ensures c.Release? && (exists k :: k in todo && status[k] == Success && IsHolder(old(t), paths[k])) ==>
              t.resv.None?
      ensures !faulted && c.Release? ==>
              t.resv == old(t).resv || exists k | k in todo :: status[k] == Success && IsHolder(old(t), paths[k])
    {
      ghost var t0 := t;
      status := RunThreads(paths, todo, c, start);
      RoundDone(t0, t, paths, todo, c, status, faulted);
    }

    /** The loop of a round. */
    method RunThreads(paths: seq<nat>, todo: set<nat>, c: Command, start: seq<Status>) returns (status: seq<Status>)
      requires Valid() && Distinct(paths) && |start| == |paths|
      requires forall k | 0 <= k < |paths| :: paths[k] < |t.regs|
      requires forall k | k in todo :: k < |paths|
      requires c.Register? || c.RegisterIgnore? || c.Release?
      modifies this`t, this`exposed, this`faulted
      ensures Valid() && |status| == |paths|
      ensures forall k | 0 <= k < |paths| && k !in todo :: status[k] == start[k]
      ensures Results(status, todo)
      ensures Progress(old(t), t, paths, {}, todo, c, status, faulted)
      ensures (old(exposed) ==> exposed) && (old(faulted) ==> faulted)
      ensures suspended || (c.Release? && AllHave(usable, old(t).regs, key)) ==> exposed == old(exposed)
    {
      status := start;
      ghost var t0, done: set<nat> := t, {};
      var pending := todo;
      ProgressStart(t, paths, todo, c, start, faulted);
      while pending != {}
        invariant Valid() && |status| == |paths| && done + pending == todo && done !! pending
        invariant forall k | 0 <= k < |paths| && k !in todo :: status[k] == start[k]
        invariant Results(status, done)
        invariant Progress(t0, t, paths, pending, done, c, status, faulted)
        invariant (old(exposed) ==> exposed) && (old(faulted) ==> faulted)
        invariant suspended || (c.Release? && AllHave(usable, t0.regs, key)) ==> exposed == old(exposed)
        decreases pending
      {
        var k :| k in pending;
        ghost var was, rest := pending, pending - {k};
        assert rest + {k} == was;
        pending := pending - {k};
        status := OneThread(paths, k, c, status, t0, pending, done);
        done := done + {k};
      }
      assert done == todo && pending == {};
    }

    /** One thread of a round; it may fail to start. */
    method OneThread(paths: seq<nat>, k: nat, c: Command, before: seq<Status>,
                     ghost t0: Target, ghost pending: set<nat>, ghost done: set<nat>) returns (status: seq<Status>)
      requires Valid() && Distinct(paths) && k < |paths| && paths[k] < |t.regs| && k !in pending && k !in done
      requires (c.Register? || c.RegisterIgnore? || c.Release?)
      requires Progress(t0, t, paths, pending + {k}, done, c, before, faulted)
      modifies this`t, this`exposed, this`faulted
      ensures Valid() && |status| == |before| && status == before[k := status[k]]
      ensures status[k] == Success || status[k] == ThreadError || DeviceError(status[k])
      ensures Progress(t0, t, paths, pending, done + {k}, c, status, faulted)
      ensures (old(exposed) ==> exposed) && (old(faulted) ==> faulted)
      ensures suspended || (c.Release? && AllHave(usable, t0.regs, key)) ==> exposed == old(exposed)
    {
      ghost var was := t;
      var started: bool := *;
      var st := ThreadError;
      if started {
        st := Ioctl(paths[k], c);
      } else {
        faulted := true;
      }
      status := before[k := st];
      ProgressStep(t0, was, t, paths, pending, done, k, c, before, st, old(faulted), faulted);
    }

    /** One path of mpath_prout_common. */
    method TryPath(i: nat, c: Command, ghost t0: Target, ghost before: Option<nat>,
                   ghost failedPaths: bool, ghost conflict: bool)
        returns (ret: Status, ghost applied: Option<nat>)
      requires Valid() && i < |usable| && usable[i] && |t0.regs| == |t.regs| && Tried(t0, t, c, i, before)
      requires faulted || AllPassed(t0, t, usable, kernelFailed, c, i, failedPaths, conflict)
      modifies this`t, this`exposed, this`faulted
      ensures Valid() && |t.regs| == |old(t).regs| && Tried(t0, t, c, i + 1, applied)
      ensures c.Preempt? ==> AtMostOnce(t0, t, usable, c)
      ensures ret == Success || DeviceError(ret)
      ensures ret == Success && c.Preempt? ==> Exec(t0, i, c) == (t, Success)
      ensures ret == Success && c.Reserve? ==> Holds(t, c.key, c.rtype)
      ensures ret == Success && c.Clear? ==> Empty(t)
      ensures ret == Success && HolderPreempt(t0, c) ==> Holds(t, c.key, c.rtype)
      ensures !faulted ==>
                ret != Retryable &&
                if ret == Conflict && (kernelFailed[i] || c.Reserve?)
                then AllPassed(t0, t, usable, kernelFailed, c, i + 1, failedPaths, true)
                else Calm(t0, t, usable, kernelFailed, c, ret, failedPaths)
      ensures (old(exposed) ==> exposed) && (old(faulted) ==> faulted)
      ensures suspended || (Harmless(c, key) && old(Covered())) ==> exposed == old(exposed)
      ensures Harmless(c, key) && old(Covered()) ==> Covered()
    {
      ghost var was := t;
      if Harmless(c, key) && Covered() {
        HarmlessKeeps(t, i, c, usable, key);
      }
      ret := Ioctl(i, c);
      if !faulted {
        PassedOrDecided(t0, was, t, usable, kernelFailed, c, i, failedPaths, conflict, ret);
      }
      applied := TriedStep(t0, was, t, c, i, before, ret == Success);
      if c.Preempt? {
        TriedOnce(t0, t, usable, c, i + 1, applied);
      }
      if ret == Success {
        Won(t0, was, t, i, c);
      }
    }

    /** mpath_prout_common: try the usable paths one after the other. */
    method ProutCommon(c: Command) returns (st: Status, winner: Option<nat>, failedPaths: bool)
      requires Valid()
      modifies this`t, this`exposed, this`faulted
      ensures old(faulted) ==> faulted
      ensures Valid() && |t.regs| == |old(t).regs|
      ensures st == Success || st == DmmpError || DeviceError(st)
      ensures st == Success ==> winner.Some? && winner.value < |usable| && usable[winner.value]
      // a preemption is carried out at most once, by the path that reports success if one does
      ensures c.Preempt? ==> AtMostOnce(old(t), t, usable, c)
      ensures st == Success && c.Preempt? ==> Exec(old(t), winner.value, c) == (t, Success)
      ensures st == Success && HolderPreempt(old(t), c) ==> Holds(t, c.key, c.rtype)
      ensures st == Success && c.Reserve? ==> Holds(t, c.key, c.rtype)
      ensures st == Success && c.Clear? ==> Empty(t)
      ensures old(exposed) ==> exposed
      ensures suspended || (Harmless(c, key) && old(Covered())) ==> exposed == old(exposed)
      ensures Harmless(c, key) && old(Covered()) ==> Covered()
      ensures faulted || Calm(old(t), t, usable, kernelFailed, c, st, failedPaths)
    {
      var found, conflict := false, false;
      failedPaths, winner := false, None;
      ghost var applied: Option<nat> := None;
      ghost var safe := Harmless(c, key) && Covered();
      for i := 0 to |usable|
        invariant Valid() && |t.regs| == |old(t).regs| && Tried(old(t), t, c, i, applied)
        invariant c.Preempt? ==> AtMostOnce(old(t), t, usable, c)
        invariant old(faulted) ==> faulted
        invariant conflict ==> found
        invariant faulted || AllPassed(old(t), t, usable, kernelFailed, c, i, failedPaths, conflict)
        invariant faulted || found == conflict
        invariant old(exposed) ==> exposed
        invariant suspended || safe ==> exposed == old(exposed)
        invariant safe ==> Covered()
      {
        if !usable[i] {
          if !faulted {
            PassedDown(old(t), t, usable, kernelFailed, c, i, failedPaths, conflict);
          }
          failedPaths := true;
          continue;
        }
        found := true;
        var ret;
        ret, applied := TryPath(i, c, old(t), applied, failedPaths, conflict);
        if ret == Success {
          return Success, Some(i), failedPaths;
        }
        if ret == Conflict && (kernelFailed[i] || c.Reserve?) {
          conflict := true;
          continue;
        }
        if ret != Retryable {
          return ret, winner, failedPaths;
        }
        failedPaths := true;
      }
      if !faulted {
        NoneDecides(old(t), t, usable, kernelFailed, c, failedPaths, conflict);
      }
      if found {
        return if conflict then Conflict else Other, winner, failedPaths;
      }
      return DmmpError, winner, failedPaths;
    }

    /** reservation_key_matches: Unknown stands for YNU_UNDEF. */
    method KeyMatches(k: Key) returns (matches: PrFlag, rtype: nat)
      requires Valid()
      modifies this`queryFailed
      ensures old(queryFailed) ==> queryFailed
      ensures matches == Set ==> ReadReservation(t) == Some((k, rtype))
      ensures matches == Unset ==> ReadReservation(t).None? || ReadReservation(t).value.0 != k
      ensures matches == Unknown ==> queryFailed
    {
      var ok, resp := ReadResv();
      rtype := 0;
      if !ok {
        return Unknown, 0;
      }
      if resp.None? {
        return Unset, 0;
      }
      if resp.value.0 == k {
        return Set, resp.value.1;
      }
      return Unset, 0;
    }

    /** check_holding_reservation */
    method CheckHolding(k: Key) returns (holding: bool, rtype: nat)
      requires Valid()
      modifies this`queryFailed
      ensures old(queryFailed) ==> queryFailed
      ensures holding ==> k != 0 && ReadReservation(t) == Some((k, rtype)) && prhold == Set
      ensures !holding && k != 0 && prhold == Set && !queryFailed ==>
                ReadReservation(t).None? || ReadReservation(t).value.0 != k
    {
      holding, rtype := false, 0;
      if k != 0 {
        var f := GetPrhold();
        if f == Set {
          var matches: PrFlag;
          matches, rtype := KeyMatches(k);
          holding := matches == Set;
        }
      }
    }

    /** preempt_missing_path */
    method PreemptMissing(pkey: Key, saKey: Key) returns (ghost sent: Option<Status>)
      requires Valid()
      modifies this`t, this`exposed, this`prhold, this`queryFailed, this`flagLost, this`faulted
      ensures old(faulted) ==> faulted
      ensures Valid() && |t.regs| == |old(t).regs|
      ensures pkey == 0 || saKey == 0 ==> t == old(t) && exposed == old(exposed)
      // a reservation held under the old key is preempted, and a successful preemption moves it to the new one
      ensures sent.None? ==> t == old(t)
      ensures pkey != 0 && saKey != 0 && pkey != saKey && ReservedBy(old(t), pkey) && old(prhold) == Set &&
              !queryFailed ==>
                sent.Some?
      ensures sent.Some? ==> old(prhold) == Set && ReservedBy(old(t), pkey)
      ensures sent == Some(Success) ==> ReservedBy(old(t), pkey) && Holds(t, saKey, ReadReservation(old(t)).value.1)
      ensures forall j | 0 <= j < |t.regs| && old(t).regs[j] == saKey :: t.regs[j] == saKey
      // the map no longer counts as holding the reservation if neither key is found to hold it
      ensures !flagLost && !queryFailed ==> prhold == HoldAfter(t, old(prhold), pkey, saKey)
      ensures prhold == old(prhold) || prhold == Unset
      ensures (pkey == 0 || saKey == 0) && !flagLost ==> prhold == Unset
      ensures old(exposed) ==> exposed
      ensures suspended ==> exposed == old(exposed)
      ensures old(queryFailed) ==> queryFailed
      ensures old(flagLost) ==> flagLost
    {
      sent := None;
      if pkey == 0 || saKey == 0 {
        UpdatePrhold(false);
        return;
      }
      if pkey == saKey {
        return;
      }
      var ok, resp := ReadResv();
      if !ok {
        return;
      }
      if resp.None? {
        UpdatePrhold(false);
        return;
      }
      if resp.value.0 != pkey {
        if resp.value.0 != saKey {
          UpdatePrhold(false);
        }
        return;
      }
      var f := GetPrhold();
      if f != Set {
        return;
      }
      var c := Preempt(saKey, pkey, resp.value.1);
      var st, _, _ := ProutCommon(c);
      sent := Some(st);
      if i :| 0 <= i < |usable| && Exec(old(t), i, c) == (t, Success) {
        PreemptorsStay(old(t), i, c);
      }
    }

    /** check_failed_paths: a path that failed to update must be found unusable. */
    method CheckFailedPaths(paths: seq<nat>, status: seq<Status>) returns (st: Status)
      requires Valid() && |paths| == |status|
      requires forall k | 0 <= k < |paths| :: paths[k] < |usable|
      modifies this`usable, this`faulted
      ensures Valid()
      ensures st == Success || st == Other
      ensures st == Success ==> forall k | 0 <= k < |paths| && status[k] == Retryable :: !usable[paths[k]]
      // it is not success only if a path could not be checked, or was found usable
      ensures st == Other ==> faulted || exists k | 0 <= k < |paths| && status[k] == Retryable :: usable[paths[k]]
      ensures old(faulted) ==> faulted
      ensures st == Success ==> forall j | 0 <= j < |usable| && usable[j] :: old(usable)[j]
    {
      for k := 0 to |paths|
        invariant Valid() && |usable| == |old(usable)| && (old(faulted) ==> faulted)
        invariant forall m | 0 <= m < k && status[m] == Retryable :: !usable[paths[m]]
        invariant forall j | 0 <= j < |usable| && usable[j] :: old(usable)[j]
      {
        if status[k] != Retryable {
          continue;
        }
        var refreshed: bool := *;
        var up: bool := *;
        usable := usable[paths[k] := up];
        faulted := faulted || !refreshed;
        if !refreshed || up {
          return Other;
        }
      }
      return Success;
    }

    /** The first thread round of mpath_prout_reg. */
    method FirstRound(paths: seq<nat>, ignore: bool, pkey: Key, saKey: Key)
        returns (st: Status, status: seq<Status>, hadSuccess: bool, needRetry: bool, retryable: bool)
      requires Valid() && Distinct(paths)
      requires forall k | 0 <= k < |paths| :: paths[k] < |t.regs|
      modifies this`t, this`exposed, this`faulted
      ensures old(faulted) ==> faulted
      ensures Valid() && |t.regs| == |old(t).regs| && |status| == |paths|
      ensures st != SyntaxError && st != SuccessUnregister && st != Skip
      ensures needRetry <==> Conflict in status
      ensures retryable <==> Retryable in status
      ensures st == Success ==> forall k | 0 <= k < |paths| :: SoftResult(status[k])
      ensures forall k | 0 <= k < |paths| && status[k] == Success :: t.regs[paths[k]] == saKey
      ensures Rekeyed(old(t), t, saKey)
      ensures old(exposed) ==> exposed
      ensures suspended ==> exposed == old(exposed)
      ensures hadSuccess <==> Success in status
      ensures (forall k | 0 <= k < |paths| :: SoftResult(status[k])) ==> st == Success
      ensures !faulted ==> forall k | 0 <= k < |paths| ::
                status[k] == if ignore || old(t).regs[paths[k]] == pkey then Success else Conflict
    {
      var c := if ignore then RegisterIgnore(saKey) else Register(pkey, saKey);
      status := Round(paths, UpTo(|paths|), c, seq(|paths|, _ => Skip));
      hadSuccess, needRetry, retryable, st := Summary(status);
      assert forall k | 0 <= k < |paths| :: k in UpTo(|paths|);
    }

    /** The second round: what conflicted or failed is retried with REGISTER AND IGNORE EXISTING KEY. */
    method RetryRound(paths: seq<nat>, first: seq<Status>, saKey: Key)
        returns (st: Status, status: seq<Status>, retryable: bool)
      requires Valid() && Distinct(paths) && |first| == |paths|
      requires forall k | 0 <= k < |paths| :: paths[k] < |t.regs| && SoftResult(first[k])
      requires forall k | 0 <= k < |paths| && first[k] == Success :: t.regs[paths[k]] == saKey
      modifies this`t, this`exposed, this`faulted
      ensures old(faulted) ==> faulted
      ensures Valid() && |t.regs| == |old(t).regs| && |status| == |paths|
      ensures st == Success || st == ThreadError || DeviceError(st)
      ensures st == Success ==>
                forall k | 0 <= k < |paths| :: t.regs[paths[k]] == saKey || (status[k] == Retryable && retryable)
      ensures Rekeyed(old(t), t, saKey)
      ensures old(exposed) ==> exposed
      ensures suspended ==> exposed == old(exposed)
      ensures !faulted ==> st == Success && !retryable
    {
      var again := set k | k in UpTo(|paths|) && first[k] != Success;
      status := Round(paths, again, RegisterIgnore(saKey), seq(|paths|, _ => Skip));
      st, retryable := RetrySummary(status, again);
      forall k | 0 <= k < |paths| && st == Success
        ensures t.regs[paths[k]] == saKey || (status[k] == Retryable && retryable)
      {
        if first[k] == Success {
          assert old(t).regs[paths[k]] == saKey;
        } else {
          assert k in again;
        }
      }
    }

    /** Both rounds; success means that every path has the key or failed in a retryable way. */
    method BothRounds(paths: seq<nat>, ignore: bool, pkey: Key, saKey: Key)
        returns (st: Status, status: seq<Status>, retryable: bool)
      requires Valid() && Distinct(paths)
      requires forall k | 0 <= k < |paths| :: paths[k] < |t.regs|
      modifies this`t, this`exposed, this`faulted
      ensures old(faulted) ==> faulted
      ensures Valid() && |status| == |paths| && Rekeyed(old(t), t, saKey)
      ensures st != SyntaxError && st != SuccessUnregister && st != Skip
      ensures st == Success ==>
                forall k | 0 <= k < |paths| :: t.regs[paths[k]] == saKey || (status[k] == Retryable && retryable)
      ensures old(exposed) ==> exposed
      ensures suspended ==> exposed == old(exposed)
      ensures !faulted && paths != [] ==>
                !retryable && st == if CanRegister(old(t), paths, ignore, pkey) then Success else Conflict
    {
      var hadSuccess, needRetry;
      st, status, hadSuccess, needRetry, retryable := FirstRound(paths, ignore, pkey, saKey);
      assert paths != [] ==> status[0] in status;
      if needRetry && hadSuccess && !ignore && st == Success {
        st, status, retryable := RetryRound(paths, status, saKey);
        needRetry := false;
      }
      if needRetry {
        st := Conflict;
      } else if st == Success && !hadSuccess {
        st := Other;
      }
    }

    /** mpath_prout_reg: register on all usable paths, retry conflicts, check what failed. */
    method ProutReg(ignore: bool, pkey: Key, saKey: Key) returns (st: Status)
      requires Valid()
      modifies this`t, this`exposed, this`usable, this`prhold
      modifies this`queryFailed, this`flagLost, this`faulted
      ensures old(faulted) ==> faulted
      ensures Valid() && |t.regs| == |old(t).regs|
      ensures st != SyntaxError && st != SuccessUnregister && st != Skip
      ensures st == Success ==> AllHave(usable, t.regs, saKey)
      ensures pkey == 0 || saKey == 0 ==> Rekeyed(old(t), t, saKey)
      ensures st == Success && !flagLost && !queryFailed ==> prhold == HoldAfter(t, old(prhold), pkey, saKey)
      ensures st == Success && (pkey == 0 || saKey == 0) && !flagLost ==> prhold == Unset
      ensures prhold == old(prhold) || (prhold == Unset && st == Success)
      ensures old(exposed) ==> exposed
      ensures suspended ==> exposed == old(exposed)
      ensures old(queryFailed) ==> queryFailed
      ensures old(flagLost) ==> flagLost
      // without faults registering succeeds exactly if some usable path accepts it
      ensures !faulted ==> st == RegisterResult(old(t), old(usable), ignore, pkey)
    {
      var paths := ActivePaths();
      if paths == [] {
        assert forall i | 0 <= i < |usable| && usable[i] :: i in paths;
        return DmmpError;
      }
      assert paths[0] in paths;
      var status, retryable;
      st, status, retryable := BothRounds(paths, ignore, pkey, saKey);
      if st == Success && retryable {
        st := CheckFailedPaths(paths, status);
      }
      if st == Success {
        forall j | 0 <= j < |usable| && usable[j]
          ensures t.regs[j] == saKey
        {
          assert j in paths;
        }
        ghost var sent := PreemptMissing(pkey, saKey);
      }
    }

    /** The loop that joins the threads of the first round and sums up their results. */
    method Summary(status: seq<Status>) returns (hadSuccess: bool, needRetry: bool, retryable: bool, st: Status)
      ensures hadSuccess <==> Success in status
      ensures needRetry <==> Conflict in status
      ensures retryable <==> Retryable in status
      ensures st == Success <==> forall k | 0 <= k < |status| :: SoftResult(status[k])
      ensures st == Success || (st in status && !SoftResult(st))
    {
      hadSuccess, needRetry, retryable, st := false, false, false, Success;
      for i := 0 to |status|
        invariant hadSuccess <==> Success in status[..i]
        invariant needRetry <==> Conflict in status[..i]
        invariant retryable <==> Retryable in status[..i]
        invariant st == Success <==> forall k | 0 <= k < i :: SoftResult(status[k])
        invariant st == Success || (st in status && !SoftResult(st))
      {
        assert status[..i + 1] == status[..i] + [status[i]];
        if status[i] == Conflict {
          needRetry := true;
        } else if status[i] == Retryable {
          retryable := true;
        } else if status[i] == Success {
          hadSuccess := true;
        } else if st == Success {
          st := status[i];
        }
      }
      assert status[..|status|] == status;
    }

    /** The same for the second round, whose conflicts are final. */
    method RetrySummary(status: seq<Status>, again: set<nat>) returns (st: Status, retryable: bool)
      requires forall k | k in again :: k < |status|
      requires forall k | 0 <= k < |status| && k !in again :: status[k] == Skip
      requires forall k | k in again :: status[k] == Success || status[k] == ThreadError || DeviceError(status[k])
      ensures st == Success ==> forall k | k in again :: status[k] == Success || (status[k] == Retryable && retryable)
      ensures st == Success || st == ThreadError || DeviceError(st)
      ensures (forall k | k in again :: status[k] == Success) ==> st == Success && !retryable
    {
      st, retryable := Success, false;
      for i := 0 to |status|
        invariant st == Success ==>
                  forall k | k in again && k < i :: status[k] == Success || (status[k] == Retryable && retryable)
        invariant st == Success || st == ThreadError || DeviceError(st)
        invariant (forall k | k in again :: status[k] == Success) ==> st == Success && !retryable
      {
        if status[i] == Skip {
          continue;
        }
        if status[i] == Retryable {
          retryable := true;
        } else if st == Success {
          st := status[i];
        }
      }
    }

    /** What is done with a reservation that was just preempted. */
    method ExtraWork(winner: nat, rtype: nat, work: PreemptWork) returns (rel: Status)
      requires Valid() && winner < |usable| && suspended
      modifies this`t, this`exposed, this`faulted
      ensures Valid() && |t.regs| == |old(t).regs| && exposed == old(exposed) && (old(faulted) ==> faulted)
      ensures rel == Success || DeviceError(rel)
      ensures work == NoWork ==> rel == Success && t == old(t)
      ensures OnlyOn(old(t).regs, key, winner) && old(t).resv == Some(Reservation(Path(winner), rtype)) ==>
                (!faulted ==> rel == Success) &&
                (rel == Success && work == ReleaseIt ==> t == old(t).(resv := None)) &&
                (rel == Success && work == ReleaseAndUnregister ==> t.resv.None? && key !in t.regs)
    {
      rel := Success;
      ghost var held := t;
      if work != NoWork {
        rel := Ioctl(winner, Release(key, rtype));
        if OnlyOn(held.regs, key, winner) && held.resv == Some(Reservation(Path(winner), rtype)) {
          ReleasedAlone(held, winner, key, rtype);
        }
        if rel == Success && work == ReleaseAndUnregister {
          rel := Ioctl(winner, RegisterIgnore(0));
        }
      }
    }

    /** The part of do_preempt_self that runs while the device is suspended. */
    method PreemptSuspended(saKey: Key, rtype: nat, work: PreemptWork) returns (st: Status, rel: Status)
      requires Valid() && suspended
      modifies this`t, this`exposed, this`usable, this`prhold
      modifies this`queryFailed, this`flagLost, this`faulted
      ensures old(faulted) ==> faulted
      ensures Valid() && |t.regs| == |old(t).regs| && exposed == old(exposed)
      ensures st != SyntaxError && st != SuccessUnregister && st != Skip
      ensures rel == Success || DeviceError(rel)
      ensures st == Success && work != ReleaseAndUnregister ==> Covered()
      ensures st == Success && rel == Success && SelfPreempt(old(t), Preempt(key, saKey, rtype)) ==>
                match work
                case NoWork => t.resv.Some? && t.resv.value.rtype == rtype && KeyOf(t, t.resv.value.holder) == key
                case ReleaseIt => t.resv.None?
                case ReleaseAndUnregister => t.resv.None? && key !in t.regs
      ensures old(queryFailed) ==> queryFailed
      ensures old(flagLost) ==> flagLost
      ensures prhold == old(prhold) || (prhold == Unset && work != ReleaseAndUnregister)
      ensures st == Success && work != ReleaseAndUnregister && !flagLost ==> prhold == Unset
      ensures !faulted && true in old(usable) && old(Covered()) && key != 0 &&
              SelfPreempt(old(t), Preempt(key, saKey, rtype)) ==>
                st == rel == Success
    {
      rel := Success;
      ghost var c := Preempt(key, saKey, rtype);
      if SelfPreempt(t, c) && true in usable && Covered() && key != 0 {
        PreemptFeasible(t, usable, c);
      }
      var winner, failed;
      st, winner, failed := ProutCommon(Preempt(key, saKey, rtype));
      if st != Success {
        return;
      }
      if SelfPreempt(old(t), c) {
        HeldAlone(old(t), winner.value, c);
      }
      st, rel := AfterPreempt(winner.value, rtype, work);
    }

    /** The extra work, and registering again. */
    method AfterPreempt(winner: nat, rtype: nat, work: PreemptWork) returns (st: Status, rel: Status)
      requires Valid() && suspended && winner < |usable| && usable[winner]
      modifies this`t, this`exposed, this`usable, this`prhold
      modifies this`queryFailed, this`flagLost, this`faulted
      ensures Valid() && |t.regs| == |old(t).regs| && exposed == old(exposed)
      ensures (old(faulted) ==> faulted) && (old(queryFailed) ==> queryFailed) && (old(flagLost) ==> flagLost)
      ensures st != SyntaxError && st != SuccessUnregister && st != Skip
      ensures rel == Success || DeviceError(rel)
      ensures st == Success && work != ReleaseAndUnregister ==> Covered()
      ensures OnlyOn(old(t).regs, key, winner) && old(t).resv == Some(Reservation(Path(winner), rtype)) ==>
                (!faulted ==> st == rel == Success) &&
                (st == Success && rel == Success ==>
                   match work
                   case NoWork => t.resv.Some? && t.resv.value.rtype == rtype && KeyOf(t, t.resv.value.holder) == key
                   case ReleaseIt => t.resv.None?
                   case ReleaseAndUnregister => t.resv.None? && key !in t.regs)
      ensures prhold == old(prhold) || (prhold == Unset && work != ReleaseAndUnregister)
      ensures st == Success && work != ReleaseAndUnregister && !flagLost ==> prhold == Unset
    {
      st := Success;
      rel := ExtraWork(winner, rtype, work);
      if work != ReleaseAndUnregister {
        st := ProutReg(true, 0, key);
      }
    }

    /** do_preempt_self: suspend, preempt the own reservation, do the extra work, register again, resume. */
    method PreemptSelf(saKey: Key, rtype: nat, work: PreemptWork) returns (st: Status, ghost began: bool)
      requires Valid()
      modifies this`t, this`exposed, this`usable, this`prhold
      modifies this`queryFailed, this`suspended, this`flagLost, this`faulted
      ensures old(faulted) ==> faulted
      ensures Valid() && |t.regs| == |old(t).regs|
      ensures st != SyntaxError && st != SuccessUnregister && st != Skip
      ensures st == Success ==> !suspended
      ensures st == Success && work != ReleaseAndUnregister ==> Covered() && exposed == old(exposed)
      // nothing happens if the map cannot be suspended; else a usable path without the key is exposed
      // exactly if the map was resumed with such a path
      ensures !began ==> st == Other && t == old(t) && usable == old(usable) && exposed == old(exposed)
      ensures began ==> (exposed <==> old(exposed) || (!suspended && !Covered()))
      ensures st == Success && SelfPreempt(old(t), Preempt(key, saKey, rtype)) ==>
                match work
                case NoWork => t.resv.Some? && t.resv.value.rtype == rtype && KeyOf(t, t.resv.value.holder) == key
                case ReleaseIt => t.resv.None?
                case ReleaseAndUnregister => t.resv.None? && key !in t.regs
      ensures old(queryFailed) ==> queryFailed
      ensures old(flagLost) ==> flagLost
      ensures prhold == old(prhold) || (prhold == Unset && work != ReleaseAndUnregister)
      ensures !faulted && true in old(usable) && old(Covered()) && key != 0 &&
              SelfPreempt(old(t), Preempt(key, saKey, rtype)) ==>
                st == Success
    {
      var ok := Suspend();
      began := ok;
      if !ok {
        return Other, began;
      }
      var rel;
      st, rel := PreemptSuspended(saKey, rtype, work);
      ok := Resume();
      if !ok && st == Success {
        st := Other;
      }
      st := if rel != Success then rel else st;
    }

    /** mpath_prout_rel */
    method ProutRel(pkey: Key, rtype: nat, unregister: bool) returns (st: Status)
      requires Valid()
      modifies this`t, this`exposed, this`usable, this`prhold
      modifies this`queryFailed, this`suspended, this`flagLost, this`faulted
      ensures old(faulted) ==> faulted
      ensures Valid() && |t.regs| == |old(t).regs|
      ensures st != SyntaxError && st != Skip
      ensures st == SuccessUnregister ==> unregister
      ensures old(queryFailed) ==> queryFailed
      ensures old(flagLost) ==> flagLost
      // a successful release leaves no reservation under the map's key, even if the holder was down
      ensures st == Success && key != 0 && old(prhold) == Set && !queryFailed ==> !HeldUnder(t, key)
      // and every usable path registered; I/O was never possible on an unregistered path meanwhile
      ensures st == Success && !old(suspended) && old(Covered()) ==> Covered() && exposed == old(exposed) && !suspended
      // or, when asked to, no path registered at all
      ensures st == SuccessUnregister ==> t.resv.None? && key !in t.regs
      ensures prhold == old(prhold) || (prhold == Unset && !unregister)
      // without faults releasing succeeds exactly if the reservation under the key, if any, has the given type
      ensures !faulted && !queryFailed && old(prhold) == Set && pkey == key != 0 && true in old(usable) &&
              old(Covered()) ==>
                (st == Success || st == SuccessUnregister <==> !WrongType(old(t), key, rtype))
    {
      var paths := ActivePaths();
      if paths == [] {
        return DmmpError;
      }
      var status := ReleaseRound(paths, pkey, rtype);
      var allFailed;
      allFailed, st := ReleaseSummary(status);
      if !allFailed {
        st := ReleaseHeld(rtype, unregister);
      }
    }

    /** The release threads. */
    method ReleaseRound(paths: seq<nat>, pkey: Key, rtype: nat) returns (status: seq<Status>)
      requires Valid() && Distinct(paths) && paths != []
      requires forall p :: p in paths <==> 0 <= p < |usable| && usable[p]
      requires forall k | 0 <= k < |paths| :: paths[k] < |t.regs|
      modifies this`t, this`exposed, this`faulted
      ensures Valid() && |status| == |paths| && t.regs == old(t).regs && (old(faulted) ==> faulted)
      ensures t.others == old(t).others
      ensures forall k | 0 <= k < |status| ::
                status[k] == Success || status[k] == ThreadError || DeviceError(status[k])
      ensures Success in status ==> t.resv.None? || !AllRegistrants(t.resv.value.rtype)
      ensures old(Covered()) ==> exposed == old(exposed)
      ensures !faulted && pkey == key != 0 && old(Covered()) ==> ReleasedWell(old(t), t, status, key, rtype)
    {
      status := Round(paths, UpTo(|paths|), Release(pkey, rtype), seq(|paths|, _ => Skip));
      assert forall m | 0 <= m < |paths| :: m in UpTo(|paths|);
      if !faulted && pkey == key != 0 && old(Covered()) {
        ReleaseRoundMeans(old(t), t, usable, paths, status, key, rtype);
      }
    }

    /** What follows if some path has released: a reservation that is still held is preempted first. */
    method ReleaseHeld(rtype: nat, unregister: bool) returns (st: Status)
      requires Valid() && (t.resv.None? || !AllRegistrants(t.resv.value.rtype))
      modifies this`t, this`exposed, this`usable, this`prhold
      modifies this`queryFailed, this`suspended, this`flagLost, this`faulted
      ensures Valid() && |t.regs| == |old(t).regs| && (old(faulted) ==> faulted)
      ensures st != SyntaxError && st != Skip && (st == SuccessUnregister ==> unregister)
      ensures (old(queryFailed) ==> queryFailed) && (old(flagLost) ==> flagLost)
      ensures st == Success && key != 0 && old(prhold) == Set && !queryFailed ==> !HeldUnder(t, key)
      ensures st == Success && !old(suspended) && old(Covered()) ==> Covered() && exposed == old(exposed) && !suspended
      ensures st == SuccessUnregister ==> t.resv.None? && key !in t.regs
      ensures prhold == old(prhold) || (prhold == Unset && !unregister)
      ensures !faulted && !queryFailed && old(prhold) == Set && key != 0 && true in old(usable) && old(Covered()) ==>
                (ReservedBy(old(t), key) && old(t).resv.value.rtype != rtype ==> st == Conflict) &&
                ((ReservedBy(old(t), key) ==>
                    SelfPreempt(old(t), Preempt(key, key, rtype)) && ReadReservation(old(t)) == Some((key, rtype))) ==>
                   st == Success || st == SuccessUnregister)
    {
      var holding, resType := CheckHolding(key);
      if !holding {
        return Success;
      }
      if resType != rtype {
        return Conflict;
      }
      ghost var began;
      st, began := PreemptSelf(key, rtype, if unregister then ReleaseAndUnregister else ReleaseIt);
      if st == Success && unregister {
        return SuccessUnregister;
      }
    }

    /** The loop over the results of the release threads. */
    method ReleaseSummary(status: seq<Status>) returns (allFailed: bool, st: Status)
      requires forall k | 0 <= k < |status| ::
               status[k] == Success || status[k] == ThreadError || DeviceError(status[k])
      ensures allFailed <==> Success !in status
      ensures st == Success || st == ThreadError || DeviceError(st)
      ensures allFailed && status != [] ==> st != Success
      ensures st == Success <==> forall i | 0 <= i < |status| :: status[i] == Success
      // a conflict comes first, else it is the first failure
      ensures st == Conflict <==> Conflict in status
      ensures st != Success && st != Conflict ==>
                exists i | 0 <= i < |status| :: st == status[i] && forall j | 0 <= j < i :: status[j] == Success
    {
      allFailed, st := true, Success;
      for i := 0 to |status|
        invariant allFailed <==> Success !in status[..i]
        invariant st == Success <==> forall j | 0 <= j < i :: status[j] == Success
        invariant st == Success || st == ThreadError || DeviceError(st)
        invariant allFailed && 0 < i ==> st != Success
        invariant st == Conflict <==> Conflict in status[..i]
        invariant st != Success && st != Conflict ==>
                    exists k | 0 <= k < i :: st == status[k] && forall j | 0 <= j < k :: status[j] == Success
      {
        assert status[..i + 1] == status[..i] + [status[i]];
        if status[i] == Success {
          allFailed := false;
        } else if status[i] == Conflict {
          st := Conflict;
        } else if st == Success {
          st := status[i];
        }
      }
      assert status[..|status|] == status;
    }

    // ------------------------------------------------------------ reserve out

    /** A key update in multipathd: it is told whether the key was stored only if the reply arrives. */
    method UpdatePrkey(k: Key, fate: Fate) returns (ok: bool)
      modifies this`storedKey
      ensures ok == (fate == Stored)
      ensures storedKey == if fate == Refused then old(storedKey) else k
    {
      if fate != Refused {
        storedKey := k;
      }
      ok := fate == Stored;
    }

    method RestorePrkey(updated: bool, k: Key, fate: Fate)
      modifies this`storedKey
      ensures storedKey == if updated && fate != Refused then k else old(storedKey)
    {
      if updated {
        var _ := UpdatePrkey(k, fate);
      }
    }

    /** update_prflag; clearing the flag makes multipathd clear prhold too. */
    method UpdatePrflag(on: bool)
      modifies this`prflag, this`prhold, this`flagLost
      ensures || FlagSet(on, old(prflag), old(prhold), prflag, prhold)
              || (flagLost && prflag == old(prflag) && prhold == old(prhold))
      ensures old(flagLost) ==> flagLost
    {
      var fate: Fate := *;
      if fate != Refused {
        if on {
          prflag := Set;
        } else if prflag != Unset {
          prflag, prhold := Unset, Unset;
        }
      }
      flagLost := flagLost || fate == Refused;
    }

    /** set_ignored_key: the current key if it may hold the reservation. */
    method IgnoredKey(curr: Key) returns (k: Key)
      requires Valid()
      modifies this`queryFailed
      ensures k == 0 || k == curr
      ensures !queryFailed ==> k == KeyToIgnore(t, prhold, curr)
      ensures old(queryFailed) ==> queryFailed
    {
      if curr == 0 {
        return 0;
      }
      var f := GetPrhold();
      if f == Unset {
        return 0;
      }
      var matches, _ := KeyMatches(curr);
      return if matches == Unset then 0 else curr;
    }

    /** The registration branch of do_mpath_persistent_reserve_out; `key` is already the new key. */
    method RegisterOut(ignore: bool, rtype: nat, pkey: Key, saKey: Key, oldKey: Key) returns (st: Status)
      requires Valid()
      modifies this`t, this`exposed, this`usable, this`prhold
      modifies this`queryFailed, this`suspended, this`key, this`flagLost, this`faulted
      ensures old(faulted) ==> faulted
      ensures Valid() && key == old(key) && st != SyntaxError
      ensures st == Success && saKey != 0 ==> AllHave(usable, t.regs, saKey)
      ensures st == Success && saKey == 0 && oldKey != 0 ==>
                forall i | 0 <= i < |usable| && usable[i] :: t.regs[i] != oldKey
      // and no reservation stays behind under the old key
      ensures st == Success && saKey == 0 && oldKey != 0 && old(prhold) == Set && !queryFailed ==>
              !ReservedBy(t, oldKey)
      ensures st == Success && saKey != 0 && !flagLost && !queryFailed ==>
              prhold == HoldAfter(t, old(prhold), pkey, saKey)
      ensures prhold == old(prhold) || (prhold == Unset && st == Success)
      ensures old(flagLost) ==> flagLost
      ensures old(queryFailed) ==> queryFailed
      ensures !faulted && saKey != 0 ==> st == RegisterResult(old(t), old(usable), ignore, pkey)
    {
      var holding, heldType := false, rtype;
      if saKey == 0 {
        holding, heldType := CheckHolding(oldKey);
      }
      if holding {
        var newKey := key;
        key := oldKey;
        st := ProutRel(pkey, heldType, true);
        key := newKey;
        if st == Success {
          st := ProutReg(ignore, pkey, saKey);
        } else if st == SuccessUnregister {
          st := Success;
        }
      } else {
        st := ProutReg(ignore, pkey, saKey);
      }
    }

    /** The preempt, reserve and clear branches. */
    method CommonOut(sa: ServiceAction, rtype: nat, pkey: Key, saKey: Key)
        returns (st: Status, preempted: bool, unregistered: bool)
      requires Valid() && (sa == PreemptSa || sa == ReserveSa || sa == ClearSa)
      modifies this`t, this`exposed, this`usable, this`prhold
      modifies this`queryFailed, this`suspended, this`flagLost, this`faulted
      ensures old(faulted) ==> faulted
      ensures Valid() && st != SyntaxError
      ensures st == Success && sa == ReserveSa ==> Holds(t, pkey, rtype)
      ensures st == Success && sa == ClearSa ==> Empty(t)
      ensures st == Success && sa == PreemptSa && pkey == key && HolderPreempt(old(t), Preempt(pkey, saKey, rtype)) ==>
                preempted && Holds(t, pkey, rtype)
      // of a key that holds no reservation only registrations go
      ensures st == Success && sa == PreemptSa && !ReservedBy(old(t), saKey) ==>
                !preempted && unregistered == (saKey == pkey) && Unregistered(old(t), t, saKey)
      ensures st == Success && sa == PreemptSa ==> (preempted <==> ReservedBy(old(t), saKey))
      ensures unregistered ==> sa == PreemptSa && !ReservedBy(old(t), saKey) && saKey == pkey
      ensures st == Success && sa == PreemptSa && !preempted ==> unregistered == (saKey == pkey)
      ensures preempted ==> sa == PreemptSa
      ensures prhold == old(prhold) || (prhold == Unset && preempted)
      ensures old(flagLost) ==> flagLost
      ensures old(queryFailed) ==> queryFailed
      // what registered paths can do succeeds if nothing fails
      ensures !faulted && !queryFailed && true in old(usable) && old(Covered()) && pkey == key != 0 &&
              CanDo(old(t), sa, pkey, saKey, rtype) ==>
                st == Success
      ensures !faulted && !queryFailed && true in old(usable) && old(Covered()) && pkey == key != 0 &&
              sa == ReserveSa ==>
                st == if CanReserve(old(t), old(usable), pkey, rtype, old(prhold)) then Success else Conflict
      ensures !(preempted && unregistered)
      // I/O stays possible on usable paths: none loses its key, except while the map is suspended
      ensures (sa == ReserveSa || (sa == PreemptSa && saKey != key && saKey != 0 && pkey == key)) && old(Covered()) ==>
                Covered() && exposed == old(exposed)
      ensures st == Success && sa == PreemptSa && ReservedBy(old(t), saKey) && (saKey == 0 || saKey == pkey) ==>
                Covered() && exposed == old(exposed)
    {
      preempted, unregistered := false, false;
      if sa == PreemptSa {
        var matches, _ := KeyMatches(saKey);
        if matches == Unknown {
          return Other, false, false;
        }
        if matches == Set {
          preempted := true;
          if saKey == 0 || saKey == pkey {
            ghost var began;
            st, began := PreemptSelf(if saKey == 0 then 0 else key, rtype, NoWork);
            return;
          }
        } else if saKey == pkey {
          unregistered := true;
        }
      }
      st := SendCommon(sa, rtype, pkey, saKey);
    }

    /** The command goes down the paths one after the other; a RESERVE that failed may be held by a failed path. */
    method SendCommon(sa: ServiceAction, rtype: nat, pkey: Key, saKey: Key) returns (st: Status)
      requires Valid() && (sa == PreemptSa || sa == ReserveSa || sa == ClearSa)
      modifies this`t, this`exposed, this`queryFailed, this`faulted
      ensures Valid() && st != SyntaxError
      ensures (old(faulted) ==> faulted) && (old(queryFailed) ==> queryFailed)
      ensures st == Success && sa == ReserveSa ==> Holds(t, pkey, rtype)
      ensures st == Success && sa == ClearSa ==> Empty(t)
      ensures st == Success && sa == PreemptSa ==>
                if HolderPreempt(old(t), Preempt(pkey, saKey, rtype)) then Holds(t, pkey, rtype)
                else Unregistered(old(t), t, saKey)
      ensures !faulted && !queryFailed && true in usable && old(Covered()) && pkey == key != 0 &&
              CanDo(old(t), sa, pkey, saKey, rtype) ==>
                st == Success
      ensures !faulted && !queryFailed && true in usable && old(Covered()) && pkey == key != 0 && sa == ReserveSa ==>
                st == if CanReserve(old(t), usable, pkey, rtype, prhold) then Success else Conflict
      ensures (sa == ReserveSa || (sa == PreemptSa && saKey != key && saKey != 0)) && old(Covered()) ==>
                Covered() && exposed == old(exposed)
    {
      if true in usable && Covered() && pkey == key != 0 && CanDo(t, sa, pkey, saKey, rtype) {
        DoFeasible(t, usable, sa, pkey, saKey, rtype);
      }
      var c := match sa
               case PreemptSa => Preempt(pkey, saKey, rtype)
               case ReserveSa => Reserve(pkey, rtype)
               case _ => Clear(pkey);
      var winner, failed;
      st, winner, failed := ProutCommon(c);
      if sa == PreemptSa && st == Success && !HolderPreempt(old(t), c) {
        PreemptUnregisters(old(t), winner.value, c);
      }
      if sa == ReserveSa && !faulted && true in usable && pkey == key != 0 && old(Covered()) {
        ReserveAnswer(old(t), t, usable, kernelFailed, pkey, rtype, st, failed);
      }
      if sa == ReserveSa && st != Success && failed {
        var holding, resType := CheckHolding(pkey);
        if holding && resType == rtype {
          st := Success;
        }
      }
    }

    /** The update of the map's key, and the checks of the keys that were given. */
    method SettleKey(sa: ServiceAction, paramKey: Key, saKey: Key, update: Fate) returns (st: Status, updated: bool)
      modifies this`key, this`storedKey
      ensures updated == Updates(sa, fromFile, old(key), paramKey)
      ensures key == if updated then saKey else old(key)
      ensures storedKey == if updated && update != Refused then saKey else old(storedKey)
      ensures st == if updated && update != Stored then DmmpError
                    else if KeyMismatch(sa, old(key), paramKey, saKey, updated) then SyntaxError else Success
    {
      updated := Updates(sa, fromFile, key, paramKey);
      if updated {
        key := saKey;
        var ok := UpdatePrkey(key, update);
        if !ok {
          return DmmpError, updated;
        }
      }
      if sa == RegSa || sa == RegIgnoreSa {
        if saKey != 0 && key == 0 {
          return SyntaxError, updated;
        }
        if saKey != 0 && saKey != key {
          return SyntaxError, updated;
        }
      } else {
        if key == 0 {
          return SyntaxError, updated;
        }
        if paramKey != key {
          return SyntaxError, updated;
        }
      }
      st := Success;
    }

    /** The switch over the service actions; for registrations `key` is already the new key. */
    method Act(sa: ServiceAction, rtype: nat, paramKey: Key, saKey: Key, oldKey: Key)
        returns (st: Status, preempted: bool, unregistered: bool)
      requires Valid() && (sa == RegSa || sa == RegIgnoreSa || paramKey == key == oldKey != 0)
      modifies this`t, this`exposed, this`usable, this`prhold
      modifies this`queryFailed, this`suspended, this`key, this`flagLost, this`faulted
      ensures Valid() && key == old(key) && st != SyntaxError
      ensures (old(flagLost) ==> flagLost) && (old(queryFailed) ==> queryFailed) && (old(faulted) ==> faulted)
      ensures sa == OtherSa ==> st == Other
      ensures preempted || unregistered ==> sa == PreemptSa && !(preempted && unregistered)
      // what success means on the unit
      ensures st == Success && (sa == RegSa || sa == RegIgnoreSa) && saKey != 0 ==> AllHave(usable, t.regs, saKey)
      ensures st == Success && (sa == RegSa || sa == RegIgnoreSa) && saKey == 0 && oldKey != 0 ==>
                forall i | 0 <= i < |usable| && usable[i] :: t.regs[i] != oldKey
      ensures st == Success && sa == ReserveSa ==> Holds(t, paramKey, rtype)
      ensures st == Success && sa == ClearSa ==> Empty(t)
      ensures st == Success && sa == PreemptSa && HolderPreempt(old(t), Preempt(paramKey, saKey, rtype)) ==>
                Holds(t, paramKey, rtype)
      ensures st == Success && sa == PreemptSa && !ReservedBy(old(t), saKey) ==> Unregistered(old(t), t, saKey)
      ensures st == Success && sa == ReleaseSa && old(prhold) == Set && !queryFailed ==> !HeldUnder(t, paramKey)
      ensures st == Success && sa == ReleaseSa && !old(suspended) && old(Covered()) ==>
                AllHave(usable, t.regs, paramKey) && exposed == old(exposed)
      ensures (sa == ReserveSa || (sa == PreemptSa && saKey != paramKey && saKey != 0)) && old(Covered()) ==>
                AllHave(usable, t.regs, paramKey) && exposed == old(exposed)
      ensures st == Success && sa == PreemptSa && ReservedBy(old(t), saKey) && (saKey == 0 || saKey == paramKey) ==>
                AllHave(usable, t.regs, paramKey) && exposed == old(exposed)
      // prhold before the final update
      ensures st == Success && (sa == RegSa || sa == RegIgnoreSa) && saKey != 0 && !flagLost && !queryFailed ==>
                var pkey := if sa == RegSa then paramKey else KeyToIgnore(old(t), old(prhold), oldKey);
                prhold == HoldAfter(t, old(prhold), pkey, saKey)
      ensures prhold == old(prhold) || prhold == Unset
      ensures sa == ReserveSa || sa == ClearSa || sa == OtherSa || (sa == PreemptSa && !preempted) ==>
              prhold == old(prhold)
      ensures sa == RegSa || sa == RegIgnoreSa ==> prhold == old(prhold) || st == Success
      ensures st == Success && sa == PreemptSa ==>
                (preempted <==> ReservedBy(old(t), saKey)) && (!preempted ==> unregistered == (saKey == paramKey))
      // what registered paths can do succeeds if nothing fails
      ensures !faulted && !queryFailed && true in old(usable) && old(Covered()) &&
              CanDo(old(t), sa, paramKey, saKey, rtype) ==>
                st == Success
      ensures !faulted && !queryFailed && true in old(usable) && old(Covered()) && sa == ReserveSa ==>
                st == if CanReserve(old(t), old(usable), paramKey, rtype, old(prhold)) then Success else Conflict
      ensures !faulted && !queryFailed && true in old(usable) && old(Covered()) &&
              old(prhold) == Set && sa == ReleaseSa ==>
                (st == Success <==> !WrongType(old(t), paramKey, rtype))
      ensures !faulted && (sa == RegSa || sa == RegIgnoreSa) && saKey != 0 ==>
                st == RegisterResult(old(t), old(usable), sa == RegIgnoreSa, paramKey)
    {
      preempted, unregistered := false, false;
      match sa {
        case RegSa => st := RegisterOut(false, rtype, paramKey, saKey, oldKey);
        case RegIgnoreSa =>
          var pkey := IgnoredKey(oldKey);
          st := RegisterOut(true, rtype, pkey, saKey, oldKey);
        case ReleaseSa => st := ProutRel(paramKey, rtype, false);
        case OtherSa => st := Other;
        case _ => st, preempted, unregistered := CommonOut(sa, rtype, paramKey, saKey);
      }
    }

    /** do_mpath_persistent_reserve_out, from the point where the map and its key are known. */
    method ReserveOut(sa: ServiceAction, rtype: nat, paramKey: Key, saKey: Key, update: Fate, restore: Fate)
        returns (st: Status)
      requires Valid() && (fromFile ==> storedKey == key)
      modifies this
      ensures Valid()
      // the key checks fail exactly on a mismatch, and never once the key has been updated
      ensures st == SyntaxError <==>
              if sa == RegSa then
                saKey != 0 && saKey != old(key) &&
                !(fromFile && (old(key) == 0 || paramKey == 0 || paramKey == old(key)))
              else if sa == RegIgnoreSa then saKey != 0 && saKey != old(key) && !fromFile
              else old(key) == 0 || paramKey != old(key)
      ensures Updates(sa, fromFile, old(key), paramKey) ==> st != SyntaxError
      ensures key == if Updates(sa, fromFile, old(key), paramKey) then saKey else old(key)
      // the stored key after a failing call: rolled back unless the reply to the first update was lost
      // or the restoring update was refused; a successful call keeps the new key
      ensures st != Success && Updates(sa, fromFile, old(key), paramKey) ==>
                storedKey ==
                if update == ReplyLost || (update == Stored && restore == Refused) then saKey else old(storedKey)
      ensures update != Stored && Updates(sa, fromFile, old(key), paramKey) ==> st == DmmpError
      ensures st != Success && !Updates(sa, fromFile, old(key), paramKey) ==> storedKey == old(storedKey)
      ensures st == Success && Updates(sa, fromFile, old(key), paramKey) ==> storedKey == saKey
      ensures !Updates(sa, fromFile, old(key), paramKey) ==>
                storedKey == old(storedKey) || (sa == ClearSa && st == Success && fromFile && storedKey == 0)
      ensures st == Success && sa == ClearSa && fromFile && !flagLost ==> storedKey == 0
      // what success means on the unit
      ensures st == Success && (sa == RegSa || sa == RegIgnoreSa) && saKey != 0 ==> AllHave(usable, t.regs, saKey)
      ensures st == Success && (sa == RegSa || sa == RegIgnoreSa) && saKey == 0 && old(key) != 0 ==>
                forall i | 0 <= i < |usable| && usable[i] :: t.regs[i] != old(key)
      ensures st == Success && sa == ReserveSa ==> Holds(t, old(key), rtype)
      ensures st == Success && sa == ClearSa ==> Empty(t)
      ensures st == Success && sa == PreemptSa && HolderPreempt(old(t), Preempt(paramKey, saKey, rtype)) ==>
                Holds(t, old(key), rtype)
      ensures st == Success && sa == PreemptSa && !ReservedBy(old(t), saKey) ==> Unregistered(old(t), t, saKey)
      ensures st == Success && sa == ReleaseSa && old(prhold) == Set && !queryFailed ==> !HeldUnder(t, old(key))
      ensures st == Success && sa == ReleaseSa && !old(suspended) && old(Covered()) ==>
                AllHave(usable, t.regs, old(key)) && exposed == old(exposed)
      // I/O stays possible on usable paths: none loses its key, except while the map is suspended
      ensures (sa == ReserveSa || (sa == PreemptSa && saKey != old(key) && saKey != 0)) && old(Covered()) ==>
                AllHave(usable, t.regs, old(key)) && exposed == old(exposed)
      ensures st == Success && sa == PreemptSa && ReservedBy(old(t), saKey) && (saKey == 0 || saKey == old(key)) ==>
                AllHave(usable, t.regs, old(key)) && exposed == old(exposed)
      // multipathd's flags after a successful call, if it stored every update of them
      ensures st == Success && !flagLost ==>
              FlagsTold(sa, old(key), paramKey, saKey, old(t), t,
                        old(prflag), old(prhold), prflag, prhold, !queryFailed)
      // and after a failing one
      ensures st != Success ==> prflag == old(prflag)
      ensures st != Success ==> prhold == old(prhold) || (prhold == Unset && (sa == ReleaseSa || sa == PreemptSa))
      ensures (old(flagLost) ==> flagLost) && (old(queryFailed) ==> queryFailed)
      // and if nothing fails, what registered paths can do succeeds
      ensures !faulted && !queryFailed && true in old(usable) && old(Covered()) && paramKey == old(key) != 0 &&
              CanDo(old(t), sa, paramKey, saKey, rtype) ==>
                st == Success
      ensures !faulted && !queryFailed && true in old(usable) && old(Covered()) && paramKey == old(key) != 0 &&
              sa == ReserveSa ==>
                st == if CanReserve(old(t), old(usable), paramKey, rtype, old(prhold)) then Success else Conflict
      ensures !faulted && !queryFailed && true in old(usable) && old(Covered()) && paramKey == old(key) != 0 &&
              old(prhold) == Set && sa == ReleaseSa ==>
                (st == Success <==> !WrongType(old(t), paramKey, rtype))
      ensures !faulted && update == Stored && (sa == RegSa || sa == RegIgnoreSa) && saKey != 0 && st != SyntaxError ==>
                st == RegisterResult(old(t), old(usable), sa == RegIgnoreSa, paramKey)
    {
      var oldKey := key;
      var updated;
      st, updated := SettleKey(sa, paramKey, saKey, update);
      if st != Success {
        return;
      }
      var pathInfo: bool := *;
      if !pathInfo {
        faulted := true;
        RestorePrkey(updated, oldKey, restore);
        return DmmpError;
      }
      var preempted, unregistered;
      st, preempted, unregistered := Act(sa, rtype, paramKey, saKey, oldKey);
      if st != Success {
        RestorePrkey(updated, oldKey, restore);
        return;
      }
      UpdateFlags(sa, saKey != 0, preempted, unregistered);
    }

    /** What a successful call tells multipathd. */
    method UpdateFlags(sa: ServiceAction, registered: bool, preempted: bool, unregistered: bool)
      requires preempted || unregistered ==> sa == PreemptSa && !(preempted && unregistered)
      modifies this`prflag, this`prhold, this`flagLost, this`storedKey
      ensures !flagLost ==>
                match sa
                case RegSa => FlagSet(registered, old(prflag), old(prhold), prflag, prhold)
                case RegIgnoreSa => FlagSet(registered, old(prflag), old(prhold), prflag, prhold)
                case ClearSa => FlagSet(false, old(prflag), old(prhold), prflag, prhold)
                case ReserveSa => prhold == Set && prflag == old(prflag)
                case ReleaseSa => prhold == Unset && prflag == old(prflag)
                case PreemptSa =>
                  if unregistered then FlagSet(false, old(prflag), old(prhold), prflag, prhold)
                  else prhold == (if preempted then Set else old(prhold)) && prflag == old(prflag)
                case OtherSa => prflag == old(prflag) && prhold == old(prhold)
      ensures storedKey == old(storedKey) || (sa == ClearSa && fromFile && storedKey == 0)
      ensures !flagLost && sa == ClearSa && fromFile ==> storedKey == 0
      ensures old(flagLost) ==> flagLost
    {
      match sa {
        case RegSa => UpdatePrflag(registered);
        case RegIgnoreSa => UpdatePrflag(registered);
        case ClearSa =>
          UpdatePrflag(false);
          if fromFile {
            var fate: Fate := *;
            var _ := UpdatePrkey(0, fate);
            flagLost := flagLost || fate == Refused;
          }
        case ReserveSa => UpdatePrhold(true);
        case ReleaseSa => UpdatePrhold(false);
        case PreemptSa =>
          if preempted {
            UpdatePrhold(true);
          } else if unregistered {
            UpdatePrflag(false);
          }
        case OtherSa =>
      }
    }
  }

  /**
    Releasing what was reserved: whatever happens to the paths and the unit in between, after both
    calls succeeded no reservation is left under the key, if multipathd stored the flags and answered
    the queries.
   */
  method ReserveThenRelease(s: Session, rtype: nat, paramKey: Key, usable: seq<bool>, t: Target)
      returns (held: Status, freed: Status)
    requires s.Valid() && (s.fromFile ==> s.storedKey == s.key) && |usable| == |t.regs| == |s.usable|
    modifies s
    ensures held == freed == Success && !s.flagLost && !s.queryFailed ==> !HeldUnder(s.t, paramKey)
    // and the second call does succeed if nothing fails, some path is usable, and no other type is reserved
    ensures held == Success && !s.flagLost && !s.queryFailed && !s.faulted && true in usable &&
            AllHave(usable, t.regs, paramKey) && !WrongType(t, paramKey, rtype) ==>
              freed == Success
  {
    held := s.ReserveOut(ReserveSa, rtype, paramKey, 0, Stored, Stored);
    s.usable, s.t := usable, t;
    freed := Other;
    if held == Success {
      freed := s.ReserveOut(ReleaseSa, rtype, paramKey, 0, Stored, Stored);
    }
  }

  /** A failing call that leaves the new key behind: the update is carried out but its reply is lost. */
  method LostReplyKeepsNewKey(s: Session, rtype: nat, paramKey: Key, saKey: Key, restore: Fate) returns (st: Status)
    requires s.Valid() && s.fromFile && s.storedKey == s.key && saKey != s.key
    modifies s
    ensures st == DmmpError && s.storedKey == saKey != old(s.storedKey)
  {
    st := s.ReserveOut(RegIgnoreSa, rtype, paramKey, saKey, ReplyLost, restore);
  }
}
