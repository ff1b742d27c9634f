/**
  Round-robin ordering of the paths of a group: paths are moved into one list per host adapter and
  host port, then taken out again alternating between adapters.
 */
module PathOrder {

  datatype Protocol = FCP | SAS | ISCSI | SRP | OtherProtocol

  /** `adapter` is the name found in sysfs for the path's host adapter. */
  datatype Path = Path(dev: string, devT: string, scsi: bool, protocol: Protocol, hostNo: int, adapter: string)

  datatype HostGroup = HostGroup(hostNo: int, numPaths: int, paths: seq<Path>)

  datatype AdapterGroup = AdapterGroup(name: string, hosts: seq<HostGroup>, numHosts: int, nextHost: nat)

  // ---------------------------------------------------------------- what the groups hold

  ghost function HostPool(hs: seq<HostGroup>): multiset<Path> {
    if hs == [] then multiset{} else multiset(hs[0].paths) + HostPool(hs[1..])
  }

  ghost function Pool(gs: seq<AdapterGroup>): multiset<Path> {
    if gs == [] then multiset{} else HostPool(gs[0].hosts) + Pool(gs[1..])
  }

  lemma {:induction false} HostPoolAppend(hs: seq<HostGroup>, h: HostGroup)
    ensures HostPool(hs + [h]) == HostPool(hs) + multiset(h.paths)
  {
    if hs == [] {
      assert hs + [h] == [h];
      assert [h][1..] == [];
    } else {
      HostPoolAppend(hs[1..], h);
      assert (hs + [h])[1..] == hs[1..] + [h];
    }
  }

  lemma {:induction false} HostPoolGain(hs: seq<HostGroup>, j: nat, h: HostGroup, extra: multiset<Path>)
    requires j < |hs| && multiset(h.paths) == multiset(hs[j].paths) + extra
    ensures HostPool(hs[j := h]) == HostPool(hs) + extra
  {
    if j == 0 {
      assert hs[0 := h][1..] == hs[1..];
    } else {
      HostPoolGain(hs[1..], j - 1, h, extra);
      assert hs[j := h][1..] == hs[1..][j - 1 := h];
    }
  }

  lemma {:induction false} PoolAppend(gs: seq<AdapterGroup>, g: AdapterGroup)
    ensures Pool(gs + [g]) == Pool(gs) + HostPool(g.hosts)
  {
    if gs == [] {
      assert gs + [g] == [g];
      assert [g][1..] == [];
    } else {
      PoolAppend(gs[1..], g);
      assert (gs + [g])[1..] == gs[1..] + [g];
    }
  }

  lemma {:induction false} PoolGain(gs: seq<AdapterGroup>, a: nat, g: AdapterGroup, extra: multiset<Path>)
    requires a < |gs| && HostPool(g.hosts) == HostPool(gs[a].hosts) + extra
    ensures Pool(gs[a := g]) == Pool(gs) + extra
  {
    if a == 0 {
      assert gs[0 := g][1..] == gs[1..];
    } else {
      PoolGain(gs[1..], a - 1, g, extra);
      assert gs[a := g][1..] == gs[1..][a - 1 := g];
    }
  }

  lemma {:induction false} SomeHost(hs: seq<HostGroup>) returns (h: nat)
    requires HostPool(hs) != multiset{}
    ensures h < |hs| && hs[h].paths != []
  {
    if hs[0].paths != [] {
      h := 0;
    } else {
      h := SomeHost(hs[1..]);
      h := h + 1;
    }
  }

  lemma {:induction false} SomeGroup(gs: seq<AdapterGroup>) returns (a: nat, h: nat)
    requires Pool(gs) != multiset{}
    ensures a < |gs| && h < |gs[a].hosts| && gs[a].hosts[h].paths != []
  {
    if HostPool(gs[0].hosts) != multiset{} {
      a := 0;
      h := SomeHost(gs[0].hosts);
    } else {
      a, h := SomeGroup(gs[1..]);
      a := a + 1;
    }
  }

  lemma {:induction false} HostInPool(hs: seq<HostGroup>, h: nat)
    requires h < |hs| && hs[h].paths != []
    ensures HostPool(hs) != multiset{}
  {
    if h > 0 {
      HostInPool(hs[1..], h - 1);
    } else {
      assert hs[0].paths[0] in multiset(hs[0].paths);
      assert hs[0].paths[0] in HostPool(hs);
    }
  }

  lemma {:induction false} GroupInPool(gs: seq<AdapterGroup>, a: nat, h: nat)
    requires a < |gs| && h < |gs[a].hosts| && gs[a].hosts[h].paths != []
    ensures Pool(gs) != multiset{}
  {
    if a > 0 {
      GroupInPool(gs[1..], a - 1, h);
    } else {
      HostInPool(gs[0].hosts, h);
    }
  }

  // ---------------------------------------------------------------- well-formed groups

  /** The paths of the groups one after the other. */
  ghost function FlatHosts(hs: seq<HostGroup>): seq<Path> {
    if hs == [] then [] else hs[0].paths + FlatHosts(hs[1..])
  }

  ghost function Flat(gs: seq<AdapterGroup>): seq<Path> {
    if gs == [] then [] else FlatHosts(gs[0].hosts) + Flat(gs[1..])
  }

  lemma FlatHostsStep(ps: seq<Path>, hs: seq<HostGroup>)
    requires hs != []
    ensures ps + FlatHosts(hs) == (ps + hs[0].paths) + FlatHosts(hs[1..])
  {
  }

  lemma FlatStep(ps: seq<Path>, gs: seq<AdapterGroup>)
    requires gs != []
    ensures ps + Flat(gs) == (ps + FlatHosts(gs[0].hosts)) + Flat(gs[1..])
  {
  }

  /** The counters are right and every path is in its adapter's group. */
  ghost predicate Counted(h: HostGroup, name: string) {
    h.numPaths == |h.paths| && forall i | 0 <= i < |h.paths| :: h.paths[i].adapter == name
  }

  ghost predicate Sound(g: AdapterGroup) {
    g.numHosts == |g.hosts| && g.nextHost < |g.hosts| &&
    forall j {:trigger g.hosts[j]} | 0 <= j < |g.hosts| :: Counted(g.hosts[j], g.name)
  }

  /** As built, before anything is taken out: the first host group has a path. */
  ghost predicate Fresh(g: AdapterGroup) { Sound(g) && g.nextHost == 0 && g.hosts[0].paths != [] }

  ghost predicate AllSound(gs: seq<AdapterGroup>) { forall a {:trigger gs[a]} | 0 <= a < |gs| :: Sound(gs[a]) }

  ghost predicate AllFresh(gs: seq<AdapterGroup>, from: nat) {
    forall a {:trigger gs[a]} | from <= a < |gs| :: Fresh(gs[a])
  }

  ghost predicate Distinct(gs: seq<AdapterGroup>) {
    forall a, b {:trigger gs[a], gs[b]} | 0 <= a < b < |gs| :: gs[a].name != gs[b].name
  }

  function Names(gs: seq<AdapterGroup>): (r: seq<string>)
    ensures |r| == |gs| && forall a | 0 <= a < |gs| :: r[a] == gs[a].name
  {
    seq(|gs|, a requires 0 <= a < |gs| => gs[a].name)
  }

  /** Steps from x to y going up and around modulo n. */
  ghost function Dist(x: nat, y: nat, n: nat): (d: nat)
    requires x < n && y < n
    ensures d < n && (d == 0 <==> x == y)
  {
    if x <= y then y - x else y + n - x
  }

  /** (x + 1) % n */
  function Next(x: nat, n: nat): (r: nat)
    requires x < n
    ensures r < n && r == (x + 1) % n
    ensures forall y {:trigger Dist(r, y, n)} | 0 <= y < n && y != x :: Dist(r, y, n) == Dist(x, y, n) - 1
  {
    if x + 1 == n then 0 else x + 1
  }

  class PathGroup {
    var paths: seq<Path>
    var adapters: seq<AdapterGroup>
    ghost var failed: bool    // some allocation, or reading an adapter's name, has failed

    constructor (ps: seq<Path>)
      ensures paths == ps && !failed
    {
      paths, adapters, failed := ps, [], false;
    }

    /** An allocation, or reading from sysfs. */
    method Try() returns (ok: bool)
      modifies this`failed
      ensures failed == (old(failed) || !ok)
    {
      ok := *;
      failed := failed || !ok;
    }

    /** All paths, wherever they are. */
    ghost function All(): multiset<Path>
      reads this
    {
      multiset(paths) + Pool(adapters)
    }

    // ------------------------------------------------------------ group_by_host_adapter

    /** The group, as far as it gets: no host group, an empty one, or one with the path. */
    method NewAdapter(pp: Path) returns (ok: bool, g: AdapterGroup)
      modifies this`failed
      ensures ok ==> g == First(pp)
      ensures (old(failed) ==> failed) && (ok || failed || Nameless(pp))
      ensures HostPool(g.hosts) == if ok then multiset{pp} else multiset{}
    {
      g := AdapterGroup(pp.adapter, [], 0, 0);
      ok := Try();
      if !ok { return; }
      g := g.(hosts := [HostGroup(pp.hostNo, 0, [])], numHosts := 1);
      assert g.hosts[1..] == [];
      ok := Try();
      if !ok || Nameless(pp) { return false, g; }
      g := g.(hosts := [HostGroup(pp.hostNo, 1, [pp])]);
      assert g.hosts[1..] == [];
    }

    /** The search for the host group, and a new one where there is none. */
    method AddToGroup(g: AdapterGroup, pp: Path, ghost seen: seq<Path>) returns (ok: bool, g': AdapterGroup)
      requires Fresh(g) && pp.adapter == g.name && HostsOf(g, seen)
      modifies this`failed
      ensures (old(failed) ==> failed) && (ok || failed || Nameless(pp))
      ensures g'.name == g.name && (ok ==> Fresh(g') && HostsOf(g', seen + [pp]))
      ensures HostPool(g'.hosts) == HostPool(g.hosts) + if ok then multiset{pp} else multiset{}
    {
      g' := g;
      ok := Try();
      var storable := ok && !Nameless(pp);
      var j := 0;
      while j < |g.hosts| && g.hosts[j].hostNo != pp.hostNo
        invariant 0 <= j <= |g.hosts| && forall k | 0 <= k < j :: g.hosts[k].hostNo != pp.hostNo
      {
        j := j + 1;
      }
      if j < |g.hosts| {
        if !storable { return false, g; }
        JoinHost(g, j, pp);
        HostsJoin(g, j, pp, seen);
        return true, g.(hosts := g.hosts[j := Joined(g.hosts[j], pp)]);
      }
      var gotHost := Try();
      if !gotHost { return false, g; }
      var h := if storable then HostGroup(pp.hostNo, 1, [pp]) else HostGroup(0, 0, []);
      HostPoolAppend(g.hosts, h);
      MoreFresh(g, h);
      if storable { HostsNew(g, pp, seen); }
      return storable, g.(hosts := g.hosts + [h], numHosts := g.numHosts + 1);
    }

    /** The group takes the path in slot i. */
    method TakeSlot(g: AdapterGroup, i: nat, ghost seen: seq<Path>) returns (ok: bool, g': AdapterGroup)
      requires i < |paths| && Fresh(g) && paths[i].adapter == g.name && HostsOf(g, seen)
      modifies this`paths, this`failed
      ensures (old(failed) ==> failed) && (ok || failed || Nameless(old(paths)[i]))
      ensures g'.name == g.name && (ok ==> Fresh(g') && HostsOf(g', seen + [old(paths)[i]]))
      ensures multiset(paths) + HostPool(g'.hosts) == multiset(old(paths)) + HostPool(g.hosts)
      ensures paths == if ok then old(paths[..i] + paths[i + 1..]) else old(paths)
    {
      ok, g' := AddToGroup(g, paths[i], seen);
      if ok {
        DelSlot(paths, i);
        paths := paths[..i] + paths[i + 1..];
      }
    }

    /** Moves all other paths of the group's adapter into it; `pp` is in it already. */
    method CollectAdapter(first: AdapterGroup, ghost pp: Path) returns (ok: bool, g: AdapterGroup)
      requires Fresh(first) && HostsOf(first, [pp])
      modifies this`paths, this`failed
      ensures (old(failed) ==> failed) && (ok || failed || HasNameless(old(paths)))
      ensures g.name == first.name && |paths| <= |old(paths)|
      ensures multiset(paths) + HostPool(g.hosts) == multiset(old(paths)) + HostPool(first.hosts)
      ensures ok ==> Fresh(g) && HostsOf(g, [pp] + old(paths)) && paths == Without(old(paths), g.name)
    {
      var i := 0;
      g := first;
      ghost var all, ps, k := multiset(paths) + HostPool(first.hosts), paths, 0;
      ghost var seen := [pp];
      while i < |paths|
        invariant i <= |paths| && multiset(paths) + HostPool(g.hosts) == all && Fresh(g) && g.name == first.name
        invariant k + |paths| == i + |ps| && i <= k <= |ps| && Rest(ps, k, paths, i, g.name)
        invariant HostsOf(g, seen) && seen == [pp] + ps[..k]
        invariant old(failed) ==> failed
        decreases |paths| - i
      {
        ghost var before := paths;
        RestHead(ps, k, before, i, g.name, pp);
        ok := Try();
        if !ok { return; }
        if paths[i].adapter == g.name {
          ok, g := TakeSlot(g, i, seen);
          if !ok { return; }
          RestTaken(ps, k, before, i, paths, g.name);
        } else {
          RestPassed(ps, k, paths, i, g.name);
          HostsPass(g, seen, paths[i]);
          i := i + 1;
        }
        seen, k := seen + [ps[k]], k + 1;
      }
      RestDone(ps, k, paths, i, g.name);
      ok := true;
    }

    /**
      The group of the first path's adapter.  Storing it in the vector may fail too, which nobody
      notices: then it is not looked at again, and the paths that it takes are leaked.
     */
    method OneAdapter() returns (ok: bool, storing: Storing, ghost g: AdapterGroup)
      requires paths != []
      modifies this
      ensures |paths| <= |old(paths)| && (ok ==> |paths| < |old(paths)| && storing != NotTried)
      ensures multiset(paths) + (if storing == NotTried then multiset{} else HostPool(g.hosts)) == multiset(old(paths))
      ensures adapters == if storing == Stored then old(adapters) + [g] else old(adapters)
      ensures ok ==> GroupOf(g, old(paths), paths)
      ensures (old(failed) ==> failed) && (ok || failed || HasNameless(old(paths))) && (storing == Unstored ==> failed)
    {
      storing, g := NotTried, AdapterGroup("", [], 0, 0);
      ok := Try();
      if !ok { return; }
      var stored := Try();
      storing := if stored then Stored else Unstored;
      var group;
      ok, group := BuildAdapter();
      g := group;
      if stored {
        adapters := adapters + [group];
      }
    }

    /** The group of the first path's adapter, with all its paths if nothing fails. */
    method BuildAdapter() returns (ok: bool, g: AdapterGroup)
      requires paths != []
      modifies this`paths, this`failed
      ensures (old(failed) ==> failed) && (ok || failed || HasNameless(old(paths)))
      ensures multiset(paths) + HostPool(g.hosts) == multiset(old(paths)) && |paths| <= |old(paths)|
      ensures ok ==> |paths| < |old(paths)| && GroupOf(g, old(paths), paths)
    {
      var pp := paths[0];
      DelFirst(paths);
      ok, g := NewAdapter(pp);
      if ok {
        FirstFresh(pp);
        ghost var before := paths;
        paths := paths[1..];
        ok, g := CollectAdapter(g, pp);
        if ok { WholeGroup(g, before, paths); }
      }
    }

    /** Adding the paths back; one whose slot cannot be allocated is lost, so none if there is memory. */
    method Restore(haveMemory: bool) returns (ghost lost: multiset<Path>)
      modifies this`paths, this`adapters
      ensures haveMemory ==> paths == old(paths) + Flat(old(adapters))
      ensures multiset(paths) + lost == old(All()) && adapters == [] && (haveMemory ==> lost == multiset{})
    {
      lost := multiset{};
      ghost var goal := paths + Flat(adapters);
      while adapters != []
        invariant All() + lost == old(All()) && (haveMemory ==> lost == multiset{})
        invariant haveMemory ==> paths + Flat(adapters) == goal
        decreases |adapters|
      {
        ghost var was := multiset(paths);
        FlatStep(paths, adapters);
        ghost var l := RestoreHosts(adapters[0].hosts, haveMemory);
        ghost var rest := Pool(adapters[1..]);
        assert multiset(paths) + rest + (lost + l) == (multiset(paths) + l) + rest + lost;
        assert was + Pool(adapters) + lost == (was + HostPool(adapters[0].hosts)) + rest + lost;
        lost := lost + l;
        adapters := adapters[1..];
      }
    }

    method RestoreHosts(hs: seq<HostGroup>, haveMemory: bool) returns (ghost lost: multiset<Path>)
      modifies this`paths
      ensures multiset(paths) + lost == multiset(old(paths)) + HostPool(hs) && (haveMemory ==> lost == multiset{})
      ensures haveMemory ==> paths == old(paths) + FlatHosts(hs)
    {
      lost := multiset{};
      var rest := hs;
      ghost var goal := paths + FlatHosts(hs);
      while rest != []
        invariant multiset(paths) + lost + HostPool(rest) == multiset(old(paths)) + HostPool(hs)
        invariant haveMemory ==> lost == multiset{} && paths + FlatHosts(rest) == goal
        decreases |rest|
      {
        ghost var was := multiset(paths);
        FlatHostsStep(paths, rest);
        ghost var l := RestorePaths(rest[0].paths, haveMemory);
        assert multiset(paths) + (lost + l) + HostPool(rest[1..]) == (multiset(paths) + l) + lost + HostPool(rest[1..]);
        assert was + lost + HostPool(rest) == (was + multiset(rest[0].paths)) + lost + HostPool(rest[1..]);
        lost := lost + l;
        rest := rest[1..];
      }
    }

    method RestorePaths(ps: seq<Path>, haveMemory: bool) returns (ghost lost: multiset<Path>)
      modifies this`paths
      ensures multiset(paths) + lost == multiset(old(paths)) + multiset(ps) && (haveMemory ==> lost == multiset{})
      ensures haveMemory ==> paths == old(paths) + ps
    {
      lost := multiset{};
      var rest := ps;
      while rest != []
        invariant multiset(paths) + lost + multiset(rest) == multiset(old(paths)) + multiset(ps)
        invariant haveMemory ==> lost == multiset{} && paths + rest == old(paths) + ps
        decreases |rest|
      {
        DelFirst(rest);
        var ok := *;
        if ok || haveMemory {
          paths := paths + [rest[0]];
        } else {
          lost := lost + multiset{rest[0]};
        }
        rest := rest[1..];
      }
    }

    /** Forms the next group; it is missed if it could not be stored. */
    method FormGroup(ghost before: seq<AdapterGroup>, ghost all: multiset<Path>, ghost start: seq<Path>)
        returns (ok: bool, missed: bool, ghost dropped: seq<AdapterGroup>)
      requires paths != [] && Grouped(adapters, before, paths, all) && Held(adapters, paths, start)
      modifies this
      ensures |dropped| == |before| + (if missed then 1 else 0)
      ensures multiset(paths) + Pool(adapters) + Pool(dropped) == all
      ensures ok ==> Grouped(adapters, dropped, paths, all) && |paths| < |old(paths)| && Within(paths, old(paths))
      ensures ok ==> Held(adapters, paths, start)
      ensures (old(failed) ==> failed) && (missed ==> failed) && (ok || failed || HasNameless(old(paths)))
    {
      ghost var gs, ps := adapters, paths;
      var storing;
      ghost var g;
      ok, storing, g := OneAdapter();
      missed, dropped := storing == Unstored, if storing == Unstored then before + [g] else before;
      Accounted(gs, before, g, multiset(paths), multiset(ps), storing);
      if ok {
        GroupedStep(gs, before, g, ps, paths, storing, all);
        WithinRest(paths, ps);
        HeldStep(gs, g, ps, paths, start, storing == Stored);
      }
    }

    /**
      All paths move into groups with distinct adapters, or are put back, except for those taken by
      groups that could not be stored (`dropped`).
     */
    method GroupByHostAdapter(haveMemory: bool)
        returns (ret: int, unstored: nat, ghost lost: multiset<Path>, ghost dropped: seq<AdapterGroup>)
      requires adapters == []
      modifies this
      ensures (ret == 0 || ret == 1) && unstored == |dropped|
      ensures ret == 0 ==> paths == [] && Pool(adapters) + Pool(dropped) == multiset(old(paths))
      ensures ret == 0 ==> AllFresh(adapters, 0) && Distinct(adapters) && AllFresh(dropped, 0)
      ensures ret == 0 ==> forall a {:trigger adapters[a]} | 0 <= a < |adapters| :: HostsOf(adapters[a], old(paths))
      ensures ret == 1 ==> multiset(paths) + lost + Pool(dropped) == multiset(old(paths)) && adapters == []
      ensures ret == 0 || haveMemory ==> lost == multiset{}
      ensures (old(failed) ==> failed) && (unstored == 0 || failed) && (ret == 0 || failed || HasNameless(old(paths)))
    {
      lost, dropped, unstored := multiset{}, [], 0;
      ghost var all := multiset(paths);
      while paths != []
        invariant unstored == |dropped| && Grouped(adapters, dropped, paths, all) && Held(adapters, paths, old(paths))
        invariant (old(failed) ==> failed) && (unstored == 0 || failed) && Within(paths, old(paths))
        decreases |paths|
      {
        ghost var ps := paths;
        var ok, missed;
        ok, missed, dropped := FormGroup(dropped, all, old(paths));
        if missed { unstored := unstored + 1; }
        if !ok {
          WithinHas(ps, old(paths));
          lost := Restore(haveMemory);
          return 1, unstored, lost, dropped;
        }
        WithinTrans(paths, ps, old(paths));
      }
      ret := 0;
    }

    // ------------------------------------------------------------ order_paths_in_pg_by_alt_adapters

    /** A drained host group is passed over. */
    method Skip(next: nat)
      requires next < |adapters| && Sound(adapters[next])
      modifies this`adapters
      ensures adapters == old(adapters)[next := Advance(old(adapters)[next])]
    {
      adapters := adapters[next := Advance(adapters[next])];
    }

    /** The first path of the adapter's next host group moves to the end of the path group. */
    method Take(next: nat) returns (ok: bool)
      requires next < |adapters| && Sound(adapters[next]) && Due(adapters[next]).numPaths != 0
      modifies this
      ensures !ok ==> paths == old(paths) && adapters == old(adapters)
      ensures ok ==>
              adapters == old(adapters)[next := Taken(old(adapters)[next])] && Due(old(adapters)[next]).paths != []
      ensures ok ==> paths == old(paths) + [Due(old(adapters)[next]).paths[0]]
      ensures (old(failed) ==> failed) && (ok || failed || PoolHasNameless(old(adapters)))
    {
      var g := adapters[next];
      assert Counted(Due(g), g.name);
      var pp := Due(g).paths[0];
      ok := Try();
      if !ok || Nameless(pp) {
        DueInPool(adapters, next);
        return false;
      }
      paths := paths + [pp];
      adapters := adapters[next := Taken(g)];
    }

    /** One pass of the loop, unless a slot cannot be allocated. */
    method Turn(left: nat, next: nat) returns (ok: bool, left': nat, next': nat)
      requires left > 0 && Going(Loop(adapters, paths, left, next))
      modifies this
      ensures ok ==> Loop(adapters, paths, left', next') == Turned(Loop(old(adapters), old(paths), left, next))
      ensures (old(failed) ==> failed) && (ok || failed || PoolHasNameless(old(adapters)))
    {
      left', next', ok := left, next, true;
      if Due(adapters[next]).numPaths == 0 {
        Skip(next);
      } else {
        ok := Take(next);
        if !ok { return; }
        left' := left - 1;
      }
      next' := Next(next, |adapters|);
    }

    /**
      Alternating between the adapters until `total` paths are back.  With at most as many paths as the
      groups hold the loop ends although empty groups are skipped; see LoopEndsExactly for more.
     */
    method OrderByAltAdapters(total: nat) returns (ret: int)
      requires paths == [] && AllFresh(adapters, 0) && (adapters == [] || total <= |Pool(adapters)|)
      modifies this
      ensures ret == 0 || ret == 1
      ensures ret == 0 ==> |paths| == total && multiset(paths) + Pool(adapters) == old(Pool(adapters))
      ensures ret == 0 ==> Alternates(paths, old(Names(adapters)), total)
      ensures ret == 0 && total == |old(Pool(adapters))| ==>
              multiset(paths) == old(Pool(adapters)) && |old(adapters)| <= total
      ensures adapters == [] && total > 0 ==> ret == 1
      ensures ret == 0 && old(adapters) != [] ==> TurnedTo(Loop(old(adapters), [], total, 0), paths)
      ensures (old(failed) ==> failed) &&
              (ret == 0 || failed || PoolHasNameless(old(adapters)) || (old(adapters) == [] && total > 0))
    {
      if adapters == [] && total > 0 { return 1; }
      ghost var names, all := Names(adapters), Pool(adapters);
      ghost var target: (nat, nat) := (0, 0);
      if total > 0 { target := Nonempty(adapters); }
      var left: nat, next: nat := total, 0;
      ghost var start, n := Loop(adapters, [], total, 0), 0;
      assert Running(start, all, names);
      TurnsNone(start);
      while left > 0
        invariant Running(Loop(adapters, paths, left, next), all, names) && |paths| + left == total
        invariant left > 0 ==> Holding(adapters, target)
        invariant (old(failed) ==> failed) && Pool(adapters) <= all
        invariant Going(start) && Turns(n, start) == Loop(adapters, paths, left, next)
        decreases left, HostDist(adapters, target), AdapterDist(adapters, next, target)
      {
        ghost var s := Loop(adapters, paths, left, next);
        TurnedRuns(s, all, names);
        TurnedCloser(s, target);
        var ok;
        ok, left, next := Turn(left, next);
        if !ok { return 1; }
        TurnsSnoc(n, start);
        n := n + 1;
        if 0 < left < s.left { target := Nonempty(adapters); }
      }
      Finished(Loop(adapters, paths, left, next), all, names);
      assert Turns(n, start).left == 0;
      ret := 0;
    }

    // ------------------------------------------------------------ rr_optimize_path_order

    /**
      Result 0 means that the group is a permutation of what it was, up to paths that could not be
      put back after a failed grouping (`lost`) and paths taken by groups that could not be stored
      (`dropped`): exactly if none is lost and no such group had taken a path.  When it was reordered, its
      first paths come from all adapters in turn.  The call never returns when some but not all groups
      could be stored and no later allocation fails.
     */
    method RrOptimizePathOrder(haveMemory: bool)
        returns (outcome: Outcome, unstored: nat, ghost lost: multiset<Path>, ghost dropped: seq<AdapterGroup>,
                 ghost reordered: bool, ghost names: seq<string>, ghost groups: seq<AdapterGroup>)
      modifies this
      ensures unstored == |dropped|
      ensures outcome == Zero ==> WhatIsKept(old(paths), paths, lost, dropped)
      ensures outcome == Zero && haveMemory ==> lost == multiset{}
      ensures reordered ==> outcome == Zero && unstored == 0 && OnePerAdapter(old(paths), paths, names)
      ensures reordered && old(paths) != [] ==> Names(groups) == names && RoundRobin(old(paths), paths, groups)
      ensures outcome == NeverReturns ==> unstored > 0 && paths == [] && adapters != []
      ensures outcome == NeverReturns ==> Endless(adapters, |old(paths)|)
      ensures (exists i :: 0 <= i < |old(paths)| && !Reorderable(old(paths)[i])) ==>
              outcome == Zero && paths == old(paths)
      // without a failure a group of nothing but SCSI paths of the four protocols is reordered
      ensures !failed && (forall i | 0 <= i < |old(paths)| :: CanReorder(old(paths)[i])) ==> reordered
    {
      outcome, unstored, lost, dropped, reordered, names, groups := Zero, 0, multiset{}, [], false, [], [];
      AllKept(paths, paths);
      var total := |paths|;
      for i := 0 to total
        invariant forall k | 0 <= k < i :: Reorderable(paths[k])
      {
        if !Reorderable(paths[i]) { return; }
      }
      var ok := Try();
      if !ok { return; }
      adapters := [];
      var ret;
      ret, unstored, lost, dropped := GroupByHostAdapter(haveMemory);
      if ret != 0 {
        SomeKept(old(paths), paths, lost, dropped);
        return;
      }
      groups := adapters;
      outcome, reordered, names := Reorder(total, unstored, old(paths), dropped);
      if reordered { AllKept(old(paths), paths); }
    }

    /** The second half: what becomes of the groups. */
    method Reorder(total: nat, unstored: nat, ghost before: seq<Path>, ghost dropped: seq<AdapterGroup>)
        returns (outcome: Outcome, ghost reordered: bool, ghost names: seq<string>)
      requires paths == [] && AllFresh(adapters, 0) && Distinct(adapters) && AllFresh(dropped, 0)
      requires Pool(adapters) + Pool(dropped) == multiset(before) && |before| == total && unstored == |dropped|
      requires forall a {:trigger adapters[a]} | 0 <= a < |adapters| :: HostsOf(adapters[a], before)
      modifies this
      ensures outcome == Zero <==> reordered
      ensures !failed && unstored == 0 && !HasNameless(before) ==> reordered
      ensures old(failed) ==> failed
      ensures reordered ==> unstored == 0 && OnePerAdapter(before, paths, names) && names == Names(old(adapters))
      ensures reordered && before != [] ==> RoundRobin(before, paths, old(adapters))
      ensures outcome == NeverReturns ==> unstored > 0 && paths == [] && adapters != []
      ensures outcome == NeverReturns ==> Endless(adapters, total)
    {
      reordered, names := false, Names(adapters);
      if unstored > 0 {
        EndlessUnlessStored(adapters, dropped, before);
        var slots := *;
        outcome := if slots && adapters != [] then NeverReturns else One;
        return;
      }
      NothingDropped(adapters, dropped, before);
      ghost var gs := adapters;
      var ret := OrderByAltAdapters(total);
      reordered := ret == 0;
      if reordered {
        WholeOrder(before, paths, gs);
      }
      outcome := if ret == 0 then Zero else One;
    }
  }

  /** What becomes of a new group: an allocation failed before, the vector took it, or did not. */
  datatype Storing = NotTried | Stored | Unstored

  /**
    The paths are the former ones except those that were lost and those in groups that could not be stored:
    all of them exactly if none was lost and no such group had taken one.
   */
  ghost predicate WhatIsKept(before: seq<Path>, after: seq<Path>, lost: multiset<Path>, dropped: seq<AdapterGroup>) {
    multiset(after) + lost + Pool(dropped) == multiset(before) &&
    (multiset(after) == multiset(before) <==>
     lost == multiset{} && forall a | 0 <= a < |dropped| :: !TookPath(dropped[a]))
  }

  lemma SomeKept(before: seq<Path>, after: seq<Path>, lost: multiset<Path>, dropped: seq<AdapterGroup>)
    requires multiset(after) + lost + Pool(dropped) == multiset(before)
    ensures WhatIsKept(before, after, lost, dropped)
  {
    LeakedExactly(dropped);
    AddsNothing(multiset(after), lost, Pool(dropped));
  }

  lemma AllKept(before: seq<Path>, after: seq<Path>)
    requires multiset(after) == multiset(before)
    ensures WhatIsKept(before, after, multiset{}, [])
  {
  }

  predicate TookPath(g: AdapterGroup) { exists h | 0 <= h < |g.hosts| :: g.hosts[h].paths != [] }

  /** Paths are leaked exactly if a group that was not stored had taken one. */
  lemma LeakedExactly(dropped: seq<AdapterGroup>)
    ensures Pool(dropped) == multiset{} <==> forall a | 0 <= a < |dropped| :: !TookPath(dropped[a])
  {
    if Pool(dropped) != multiset{} {
      var a, h := SomeGroup(dropped);
      assert TookPath(dropped[a]);
    }
    if a :| 0 <= a < |dropped| && TookPath(dropped[a]) {
      var h :| 0 <= h < |dropped[a].hosts| && dropped[a].hosts[h].paths != [];
      GroupInPool(dropped, a, h);
    }
  }

  lemma AddsNothing<T>(x: multiset<T>, y: multiset<T>, z: multiset<T>)
    ensures x + y + z == x <==> y == multiset{} && z == multiset{}
  {
    if x + y + z == x {
      forall e
        ensures y[e] == 0 && z[e] == 0
      {
        assert (x + y + z)[e] == x[e];
      }
    }
  }

  /** Paths after one group was formed: left over, in stored groups, or in groups not stored. */
  lemma Accounted(gs: seq<AdapterGroup>, ds: seq<AdapterGroup>, g: AdapterGroup,
                  after: multiset<Path>, before: multiset<Path>, storing: Storing)
    requires after + (if storing == NotTried then multiset{} else HostPool(g.hosts)) == before
    ensures after + Pool(if storing == Stored then gs + [g] else gs) +
            Pool(if storing == Unstored then ds + [g] else ds) == before + Pool(gs) + Pool(ds)
  {
    PoolAppend(gs, g);
    PoolAppend(ds, g);
  }

  /** What the caller sees. */
  datatype Outcome = Zero | One | NeverReturns

  /** The groups hold the paths of each adapter and host in order, and the result is what the turns take from them. */
  ghost predicate RoundRobin(before: seq<Path>, after: seq<Path>, gs: seq<AdapterGroup>) {
    AllFresh(gs, 0) && Distinct(gs) && (forall a {:trigger gs[a]} | 0 <= a < |gs| :: HostsOf(gs[a], before)) &&
    TurnedTo(Loop(gs, [], |before|, 0), after)
  }

  /** store_path takes no path without any name. */
  predicate Nameless(p: Path) { p.dev == "" && p.devT == "" }

  lemma WithinHas(ps: seq<Path>, qs: seq<Path>)
    requires Within(ps, qs)
    ensures HasNameless(ps) ==> HasNameless(qs)
  {
  }

  lemma WithinTrans(ps: seq<Path>, qs: seq<Path>, rs: seq<Path>)
    requires Within(ps, qs) && Within(qs, rs)
    ensures Within(ps, rs)
  {
    forall n | Foreign(rs, n)
      ensures Foreign(ps, n)
    {
      assert Foreign(qs, n);
    }
  }

  lemma WithinRest(ps: seq<Path>, qs: seq<Path>)
    requires qs != [] && Within(ps, qs[1..])
    ensures Within(ps, qs)
  {
    forall n | Foreign(qs, n)
      ensures Foreign(ps, n)
    {
      assert Foreign(qs[1..], n);
    }
  }

  ghost predicate HasNameless(ps: seq<Path>) { exists p | p in ps :: Nameless(p) }

  ghost predicate PoolHasNameless(gs: seq<AdapterGroup>) { exists p | p in Pool(gs) :: Nameless(p) }

  lemma DueInPool(gs: seq<AdapterGroup>, a: nat)
    requires a < |gs| && Sound(gs[a]) && Due(gs[a]).paths != []
    ensures Due(gs[a]).paths[0] in Pool(gs)
  {
    TakenMoves(gs, a);
  }

  predicate CanReorder(p: Path) {
    p.scsi && (p.protocol == FCP || p.protocol == SAS || p.protocol == ISCSI || p.protocol == SRP) && !Nameless(p)
  }

  predicate Reorderable(p: Path) { p.scsi && p.protocol != OtherProtocol }

  /** The first `|names|` paths come from the adapters `names`, which are all of them, each once. */
  ghost predicate OnePerAdapter(before: seq<Path>, after: seq<Path>, names: seq<string>) {
    multiset(after) == multiset(before) && |names| <= |after| &&
    (forall i | 0 <= i < |names| :: after[i].adapter == names[i]) &&
    (forall i, j | 0 <= i < j < |names| :: names[i] != names[j]) &&
    forall i | 0 <= i < |before| :: before[i].adapter in names
  }

  /** The first n paths, as far as there are names, come from the adapters in turn. */
  ghost predicate Alternates(ps: seq<Path>, names: seq<string>, n: nat) {
    n <= |ps| && forall i | 0 <= i < n && i < |names| :: ps[i].adapter == names[i]
  }

  ghost predicate AllForeign(ps: seq<Path>, gs: seq<AdapterGroup>) {
    forall a {:trigger gs[a]} | 0 <= a < |gs| :: Foreign(ps, gs[a].name)
  }

  lemma FirstFresh(pp: Path)
    ensures Fresh(First(pp)) && HostsOf(First(pp), [pp])
  {
    assert Sel([pp][1..], pp.adapter, pp.hostNo) == [];
  }

  // ---------------------------------------------------------------- what a group holds

  /** The paths of one adapter and host, in order. */
  function Sel(ps: seq<Path>, name: string, no: int): seq<Path> {
    if ps == [] then []
    else (if ps[0].adapter == name && ps[0].hostNo == no then [ps[0]] else []) + Sel(ps[1..], name, no)
  }

  /** The paths of the other adapters, in order. */
  function Without(ps: seq<Path>, name: string): seq<Path> {
    if ps == [] then [] else (if ps[0].adapter == name then [] else [ps[0]]) + Without(ps[1..], name)
  }

  /** One host group for each host that the adapter's paths have, holding them in order. */
  ghost predicate HostsOf(g: AdapterGroup, ps: seq<Path>) {
    (forall h {:trigger g.hosts[h]} | 0 <= h < |g.hosts| :: g.hosts[h].paths == Sel(ps, g.name, g.hosts[h].hostNo)) &&
    (forall h, k {:trigger g.hosts[h], g.hosts[k]} | 0 <= h < k < |g.hosts| ::
       g.hosts[h].hostNo != g.hosts[k].hostNo) &&
    forall p | p in ps && p.adapter == g.name :: HasHost(g.hosts, p.hostNo)
  }

  ghost predicate HasHost(hs: seq<HostGroup>, no: int) { exists h | 0 <= h < |hs| :: hs[h].hostNo == no }

  lemma {:induction false} SelSnoc(ps: seq<Path>, p: Path, name: string, no: int)
    ensures Sel(ps + [p], name, no) == Sel(ps, name, no) + if p.adapter == name && p.hostNo == no then [p] else []
  {
    if ps == [] {
      assert ps + [p] == [p] && [p][1..] == [];
    } else {
      SelSnoc(ps[1..], p, name, no);
      assert (ps + [p])[1..] == ps[1..] + [p];
    }
  }

  lemma {:induction false} WithoutSnoc(ps: seq<Path>, p: Path, name: string)
    ensures Without(ps + [p], name) == Without(ps, name) + if p.adapter == name then [] else [p]
  {
    if ps == [] {
      assert ps + [p] == [p] && [p][1..] == [];
    } else {
      WithoutSnoc(ps[1..], p, name);
      assert (ps + [p])[1..] == ps[1..] + [p];
    }
  }

  lemma {:induction false} SelNone(ps: seq<Path>, name: string, no: int)
    requires forall p | p in ps && p.adapter == name :: p.hostNo != no
    ensures Sel(ps, name, no) == []
  {
    if ps != [] {
      assert ps[0] in ps;
      SelNone(ps[1..], name, no);
    }
  }

  lemma HostsJoin(g: AdapterGroup, j: nat, pp: Path, seen: seq<Path>)
    requires HostsOf(g, seen) && j < |g.hosts| && g.hosts[j].hostNo == pp.hostNo && pp.adapter == g.name
    ensures HostsOf(g.(hosts := g.hosts[j := Joined(g.hosts[j], pp)]), seen + [pp])
  {
    var g' := g.(hosts := g.hosts[j := Joined(g.hosts[j], pp)]);
    forall h | 0 <= h < |g'.hosts|
      ensures g'.hosts[h].paths == Sel(seen + [pp], g.name, g'.hosts[h].hostNo)
    {
      SelSnoc(seen, pp, g.name, g'.hosts[h].hostNo);
      assert g.hosts[h].paths == Sel(seen, g.name, g.hosts[h].hostNo);
    }
    assert g'.hosts[j].hostNo == pp.hostNo;
    StillHosts(g, g', seen, pp);
  }

  /** The hosts of all paths are still there. */
  lemma StillHosts(g: AdapterGroup, g': AdapterGroup, seen: seq<Path>, pp: Path)
    requires g'.name == g.name && |g.hosts| <= |g'.hosts| && HasHost(g'.hosts, pp.hostNo)
    requires forall h {:trigger g.hosts[h]} | 0 <= h < |g.hosts| :: g'.hosts[h].hostNo == g.hosts[h].hostNo
    requires forall p | p in seen && p.adapter == g.name :: HasHost(g.hosts, p.hostNo)
    ensures forall p | p in seen + [pp] && p.adapter == g.name :: HasHost(g'.hosts, p.hostNo)
  {
    forall p | p in seen + [pp] && p.adapter == g.name
      ensures HasHost(g'.hosts, p.hostNo)
    {
      if p != pp {
        var h :| 0 <= h < |g.hosts| && g.hosts[h].hostNo == p.hostNo;
        assert g'.hosts[h].hostNo == p.hostNo;
      }
    }
  }

  lemma HostsNew(g: AdapterGroup, pp: Path, seen: seq<Path>)
    requires HostsOf(g, seen) && pp.adapter == g.name && forall h | 0 <= h < |g.hosts| :: g.hosts[h].hostNo != pp.hostNo
    ensures HostsOf(g.(hosts := g.hosts + [HostGroup(pp.hostNo, 1, [pp])], numHosts := g.numHosts + 1), seen + [pp])
  {
    var n := |g.hosts|;
    var g' := g.(hosts := g.hosts + [HostGroup(pp.hostNo, 1, [pp])], numHosts := g.numHosts + 1);
    forall h | 0 <= h < |g'.hosts|
      ensures g'.hosts[h].paths == Sel(seen + [pp], g.name, g'.hosts[h].hostNo)
    {
      SelSnoc(seen, pp, g.name, g'.hosts[h].hostNo);
      if h == n {
        SelNone(seen, g.name, pp.hostNo);
      } else {
        assert g'.hosts[h] == g.hosts[h];
      }
    }
    assert g'.hosts[n].hostNo == pp.hostNo;
    StillHosts(g, g', seen, pp);
  }

  lemma HostsPass(g: AdapterGroup, seen: seq<Path>, p: Path)
    requires HostsOf(g, seen) && p.adapter != g.name
    ensures HostsOf(g, seen + [p])
  {
    forall h | 0 <= h < |g.hosts|
      ensures g.hosts[h].paths == Sel(seen + [p], g.name, g.hosts[h].hostNo)
    {
      SelSnoc(seen, p, g.name, g.hosts[h].hostNo);
    }
  }

  /** Of ps k have been looked at: those of other adapters are the first i of qs, and then comes the rest. */
  ghost predicate Rest(ps: seq<Path>, k: nat, qs: seq<Path>, i: nat, name: string) {
    k <= |ps| && i <= |qs| && qs[i..] == ps[k..] && qs[..i] == Without(ps[..k], name)
  }

  lemma RestHead(ps: seq<Path>, k: nat, qs: seq<Path>, i: nat, name: string, pp: Path)
    requires Rest(ps, k, qs, i, name) && i < |qs|
    ensures k < |ps| && qs[i] == ps[k] && ps[k] in ps && [pp] + ps[..k] + [ps[k]] == [pp] + ps[..k + 1]
  {
    assert qs[i..][0] == qs[i] && |qs[i..]| == |ps[k..]|;
    assert ps[..k + 1] == ps[..k] + [ps[k]];
  }

  lemma RestTaken(ps: seq<Path>, k: nat, qs: seq<Path>, i: nat, rs: seq<Path>, name: string)
    requires Rest(ps, k, qs, i, name) && i < |qs| && k < |ps| && qs[i] == ps[k] && qs[i].adapter == name
    requires rs == qs[..i] + qs[i + 1..]
    ensures Rest(ps, k + 1, rs, i, name)
  {
    assert ps[..k + 1] == ps[..k] + [ps[k]];
    WithoutSnoc(ps[..k], ps[k], name);
    assert rs[..i] == qs[..i] && rs[i..] == qs[i + 1..] == qs[i..][1..] == ps[k..][1..] == ps[k + 1..];
  }

  lemma RestPassed(ps: seq<Path>, k: nat, qs: seq<Path>, i: nat, name: string)
    requires Rest(ps, k, qs, i, name) && i < |qs| && k < |ps| && qs[i] == ps[k] && qs[i].adapter != name
    ensures Rest(ps, k + 1, qs, i + 1, name)
  {
    assert ps[..k + 1] == ps[..k] + [ps[k]];
    WithoutSnoc(ps[..k], ps[k], name);
    assert qs[..i + 1] == qs[..i] + [qs[i]] && qs[i + 1..] == qs[i..][1..] == ps[k..][1..] == ps[k + 1..];
  }

  lemma RestDone(ps: seq<Path>, k: nat, qs: seq<Path>, i: nat, name: string)
    requires Rest(ps, k, qs, i, name) && i == |qs|
    ensures k == |ps| && ps[..k] == ps && qs == Without(ps, name)
  {
    assert |qs[i..]| == 0 && qs[..i] == qs;
    assert |ps[k..]| == 0;
  }

  lemma {:induction false} WithoutWithin(ps: seq<Path>, name: string)
    ensures Within(Without(ps, name), ps) && Foreign(Without(ps, name), name)
  {
    if ps != [] {
      WithoutWithin(ps[1..], name);
      var r := Without(ps[1..], name);
      forall n | Foreign(ps, n)
        ensures Foreign(Without(ps, name), n)
      {
        assert Foreign(ps[1..], n);
        assert Foreign(r, n);
      }
    }
  }

  lemma WholeGroup(g: AdapterGroup, ps: seq<Path>, ps': seq<Path>)
    requires ps != [] && Fresh(g) && g.name == ps[0].adapter
    requires HostsOf(g, [ps[0]] + ps[1..]) && ps' == Without(ps[1..], g.name)
    ensures GroupOf(g, ps, ps')
  {
    assert ps == [ps[0]] + ps[1..];
    WithoutWithin(ps[1..], g.name);
  }

  /** Taking one adapter's paths away leaves those of the others. */
  lemma {:induction false} SelWithout(ps: seq<Path>, name: string, other: string, no: int)
    requires name != other
    ensures Sel(Without(ps, name), other, no) == Sel(ps, other, no)
  {
    if ps != [] {
      SelWithout(ps[1..], name, other, no);
      if ps[0].adapter == name {
        assert Without(ps, name) == Without(ps[1..], name);
      } else {
        assert Without(ps, name)[1..] == Without(ps[1..], name);
      }
    }
  }

  /** The groups hold the paths of ps in order, and those that are left are the others, in order. */
  ghost predicate Held(gs: seq<AdapterGroup>, left: seq<Path>, ps: seq<Path>) {
    (forall a {:trigger gs[a]} | 0 <= a < |gs| :: HostsOf(gs[a], ps)) &&
    forall n | !Foreign(left, n) :: SameFor(left, ps, n)
  }

  ghost predicate SameFor(left: seq<Path>, ps: seq<Path>, n: string) {
    (forall no :: Sel(left, n, no) == Sel(ps, n, no)) && forall p | p in ps && p.adapter == n :: p in left
  }

  lemma HeldStep(gs: seq<AdapterGroup>, g: AdapterGroup, left: seq<Path>, left': seq<Path>, ps: seq<Path>, stored: bool)
    requires Held(gs, left, ps) && GroupOf(g, left, left')
    ensures Held(if stored then gs + [g] else gs, left', ps)
  {
    assert left[0].adapter == g.name && !Foreign(left, g.name);
    assert SameFor(left, ps, g.name);
    forall h | 0 <= h < |g.hosts|
      ensures g.hosts[h].paths == Sel(ps, g.name, g.hosts[h].hostNo)
    {
      assert g.hosts[h].paths == Sel(left, g.name, g.hosts[h].hostNo);
    }
    forall n | !Foreign(left', n)
      ensures SameFor(left', ps, n)
    {
      LeftSame(left, left', g.name, ps, n);
    }
  }

  lemma LeftSame(left: seq<Path>, left': seq<Path>, name: string, ps: seq<Path>, n: string)
    requires left' == Without(left, name) && !Foreign(left', n) && (!Foreign(left, n) ==> SameFor(left, ps, n))
    ensures SameFor(left', ps, n)
  {
    WithoutWithin(left, name);
    assert !Foreign(left, n) && n != name;
    forall no
      ensures Sel(left', n, no) == Sel(ps, n, no)
    {
      SelWithout(left, name, n, no);
    }
    forall p | p in ps && p.adapter == n
      ensures p in left'
    {
      WithoutKeeps(left, name, p);
    }
  }

  lemma {:induction false} WithoutKeeps(ps: seq<Path>, name: string, p: Path)
    requires p in ps && p.adapter != name
    ensures p in Without(ps, name)
  {
    if p != ps[0] {
      WithoutKeeps(ps[1..], name, p);
    }
  }

  /** Where all paths are while groups are formed: left over, in stored groups, or in groups not stored. */
  ghost predicate Grouped(gs: seq<AdapterGroup>, ds: seq<AdapterGroup>, ps: seq<Path>, all: multiset<Path>) {
    multiset(ps) + Pool(gs) + Pool(ds) == all &&
    AllFresh(gs, 0) && Distinct(gs) && AllForeign(ps, gs) && AllFresh(ds, 0)
  }

  lemma GroupedStep(gs: seq<AdapterGroup>, ds: seq<AdapterGroup>, g: AdapterGroup, ps: seq<Path>, ps': seq<Path>,
                    storing: Storing, all: multiset<Path>)
    requires Grouped(gs, ds, ps, all) && GroupOf(g, ps, ps') && storing != NotTried
    requires multiset(ps') + HostPool(g.hosts) == multiset(ps)
    ensures Grouped(if storing == Stored then gs + [g] else gs, if storing == Unstored then ds + [g] else ds, ps', all)
  {
    Accounted(gs, ds, g, multiset(ps'), multiset(ps), storing);
    if storing == Stored {
      StoredStep(gs, g, ps, ps');
    } else {
      UnstoredStep(gs, ds, g, ps, ps');
    }
  }

  lemma StoredStep(gs: seq<AdapterGroup>, g: AdapterGroup, ps: seq<Path>, ps': seq<Path>)
    requires AllFresh(gs, 0) && Distinct(gs) && AllForeign(ps, gs) && GroupOf(g, ps, ps')
    ensures AllFresh(gs + [g], 0) && Distinct(gs + [g]) && AllForeign(ps', gs + [g])
  {
    assert (gs + [g])[..|gs|] == gs;
    GroupAdded(gs, ps, gs + [g], ps');
  }

  lemma UnstoredStep(gs: seq<AdapterGroup>, ds: seq<AdapterGroup>, g: AdapterGroup, ps: seq<Path>, ps': seq<Path>)
    requires AllForeign(ps, gs) && AllFresh(ds, 0) && GroupOf(g, ps, ps')
    ensures AllForeign(ps', gs) && AllFresh(ds + [g], 0)
  {
    StillForeign(gs, ps, ps');
  }

  lemma StillForeign(gs: seq<AdapterGroup>, ps: seq<Path>, ps': seq<Path>)
    requires ps != [] && AllForeign(ps, gs) && Within(ps', ps[1..])
    ensures AllForeign(ps', gs)
  {
    forall a | 0 <= a < |gs|
      ensures Foreign(ps', gs[a].name)
    {
      assert Foreign(ps, gs[a].name);
      assert Foreign(ps[1..], gs[a].name);
    }
  }

  /** A complete group for the adapter of the first of the paths ps, of which ps' remain. */
  ghost predicate GroupOf(g: AdapterGroup, ps: seq<Path>, ps': seq<Path>) {
    ps != [] && Fresh(g) && g.name == ps[0].adapter && Foreign(ps', g.name) && Within(ps', ps[1..]) &&
    HostsOf(g, ps) && ps' == Without(ps, g.name)
  }

  lemma GroupAdded(gs: seq<AdapterGroup>, ps: seq<Path>, gs': seq<AdapterGroup>, ps': seq<Path>)
    requires ps != [] && AllFresh(gs, 0) && Distinct(gs) && AllForeign(ps, gs)
    requires gs' != [] && gs'[..|gs'| - 1] == gs && GroupOf(gs'[|gs'| - 1], ps, ps')
    ensures AllFresh(gs', 0) && Distinct(gs') && AllForeign(ps', gs')
  {
    forall a | 0 <= a < |gs|
      ensures gs'[a] == gs[a] && Foreign(ps', gs[a].name) && gs[a].name != ps[0].adapter
    {
      assert gs'[..|gs|][a] == gs'[a];
      assert Foreign(ps, gs[a].name);
      assert Foreign(ps[1..], gs[a].name);
    }
  }

  /** The host group whose turn it is. */
  function Due(g: AdapterGroup): HostGroup
    requires g.nextHost < |g.hosts|
  {
    g.hosts[g.nextHost]
  }

  function Advance(g: AdapterGroup): AdapterGroup
    requires Sound(g)
  {
    g.(nextHost := Next(g.nextHost, |g.hosts|))
  }

  function Taken(g: AdapterGroup): AdapterGroup
    requires Sound(g) && Due(g).numPaths != 0
  {
    var h := Due(g);
    assert Counted(h, g.name);
    g.(hosts := g.hosts[g.nextHost := h.(paths := h.paths[1..], numPaths := h.numPaths - 1)],
       nextHost := Next(g.nextHost, |g.hosts|))
  }

  lemma TakenSound(g: AdapterGroup)
    requires Sound(g) && Due(g).numPaths != 0
    ensures Sound(Taken(g)) && Due(g).paths != [] && Due(g).paths[0].adapter == g.name
  {
    assert Counted(Due(g), g.name);
  }

  lemma TakenPool(g: AdapterGroup)
    requires Sound(g) && Due(g).numPaths != 0
    ensures Due(g).paths != [] && HostPool(g.hosts) == HostPool(Taken(g).hosts) + multiset{Due(g).paths[0]}
  {
    var h := Due(g);
    assert Counted(h, g.name);
    DelFirst(h.paths);
    var hs := Taken(g).hosts;
    HostPoolGain(hs, g.nextHost, h, multiset{h.paths[0]});
    assert hs[g.nextHost := h] == g.hosts;
  }

  /** A host group that still has paths, as adapter and host index. */
  ghost predicate Holding(gs: seq<AdapterGroup>, t: (nat, nat)) {
    t.0 < |gs| && t.1 < |gs[t.0].hosts| && gs[t.0].hosts[t.1].paths != []
  }

  lemma Nonempty(gs: seq<AdapterGroup>) returns (t: (nat, nat))
    requires Pool(gs) != multiset{}
    ensures Holding(gs, t)
  {
    var a, h := SomeGroup(gs);
    return (a, h);
  }

  /** Steps of its adapter until the host group is due. */
  ghost function HostDist(gs: seq<AdapterGroup>, t: (nat, nat)): nat {
    if t.0 < |gs| && t.1 < |gs[t.0].hosts| && gs[t.0].nextHost < |gs[t.0].hosts|
    then Dist(gs[t.0].nextHost, t.1, |gs[t.0].hosts|) else 0
  }

  /** Steps until its adapter is due. */
  ghost function AdapterDist(gs: seq<AdapterGroup>, next: nat, t: (nat, nat)): nat {
    if t.0 < |gs| && next < |gs| then Dist(next, t.0, |gs|) else 0
  }

  // ---------------------------------------------------------------- the ordering loop

  /** Its state: the groups, the paths taken out, how many are still wanted, and whose turn it is. */
  datatype Loop = Loop(groups: seq<AdapterGroup>, paths: seq<Path>, left: nat, next: nat)

  ghost predicate Going(s: Loop) {
    AllSound(s.groups) && (s.left > 0 ==> s.next < |s.groups| && Sound(s.groups[s.next]))
  }

  /** One pass, with every allocation succeeding. */
  ghost function Turned(s: Loop): Loop
    requires Going(s)
  {
    if s.left == 0 then s
    else
      var g, n := s.groups[s.next], Next(s.next, |s.groups|);
      assert Counted(Due(g), g.name);
      if Due(g).numPaths == 0 then s.(groups := s.groups[s.next := Advance(g)], next := n)
      else Loop(s.groups[s.next := Taken(g)], s.paths + [Due(g).paths[0]], s.left - 1, n)
  }

  ghost function Turns(n: nat, s: Loop): Loop {
    if n == 0 || !Going(s) then s else Turns(n - 1, Turned(s))
  }

  /** Some number of turns ends with these paths. */
  ghost predicate TurnedTo(s: Loop, paths: seq<Path>) {
    exists n: nat :: Turns(n, s).left == 0 && Turns(n, s).paths == paths
  }

  lemma TurnedGoes(s: Loop)
    requires Going(s)
    ensures Going(Turned(s)) && Names(Turned(s).groups) == Names(s.groups)
  {
    if s.left > 0 {
      var g := s.groups[s.next];
      if Due(g).numPaths == 0 {
        AdvanceSound(s.groups, s.next);
      } else {
        TakenAllSound(s.groups, s.next);
      }
    }
  }

  /** No path appears or disappears, and what is wanted goes down with what is there. */
  lemma TurnedBalance(s: Loop)
    requires Going(s)
    ensures var t := Turned(s);
            multiset(t.paths) + Pool(t.groups) == multiset(s.paths) + Pool(s.groups) &&
            t.left - |Pool(t.groups)| == s.left - |Pool(s.groups)|
  {
    if s.left > 0 {
      var g := s.groups[s.next];
      if Due(g).numPaths == 0 {
        PoolGain(s.groups, s.next, Advance(g), multiset{});
      } else {
        TakenMoves(s.groups, s.next);
      }
    }
  }

  ghost predicate Closer(s: Loop, s': Loop, t: (nat, nat)) {
    HostDist(s'.groups, t) < HostDist(s.groups, t) ||
    (HostDist(s'.groups, t) == HostDist(s.groups, t) &&
     AdapterDist(s'.groups, s'.next, t) < AdapterDist(s.groups, s.next, t))
  }

  /** A path is taken, or a host group that still has paths comes closer. */
  lemma TurnedCloser(s: Loop, t: (nat, nat))
    requires Going(s) && s.left > 0 && Holding(s.groups, t)
    ensures var s' := Turned(s); s'.left < s.left || (s'.left == s.left && Holding(s'.groups, t) && Closer(s, s', t))
  {
    var g := s.groups[s.next];
    assert Counted(Due(g), g.name);
  }

  lemma {:induction false} LoopEnds(s: Loop, t: (nat, nat)) returns (n: nat)
    requires Going(s) && s.left <= |Pool(s.groups)| && (s.left > 0 ==> Holding(s.groups, t))
    ensures Turns(n, s).left == 0
    decreases s.left, HostDist(s.groups, t), AdapterDist(s.groups, s.next, t)
  {
    n := 0;
    if s.left > 0 {
      var s' := Turned(s);
      TurnedGoes(s);
      TurnedBalance(s);
      TurnedCloser(s, t);
      var t' := t;
      if 0 < s'.left < s.left {
        t' := Nonempty(s'.groups);
      }
      n := LoopEnds(s', t');
      n := n + 1;
    }
  }

  /** More paths are wanted than there are. */
  ghost predicate Short(s: Loop) { Going(s) && s.left > |Pool(s.groups)| }

  lemma {:induction false} LoopGoesOn(n: nat, s: Loop)
    requires Short(s)
    ensures Short(Turns(n, s))
  {
    if n == 0 {
      TurnsNone(s);
    } else {
      StillShort(s);
      var t := Turned(s);
      LoopGoesOn(n - 1, t);
      TurnsStep(n, s);
    }
  }

  lemma TurnsNone(s: Loop)
    ensures Turns(0, s) == s
  {
  }

  lemma TurnsStep(n: nat, s: Loop)
    requires n > 0 && Going(s)
    ensures Turns(n, s) == Turns(n - 1, Turned(s))
  {
  }

  lemma StillShort(s: Loop)
    requires Short(s)
    ensures Short(Turned(s))
  {
    TurnedGoes(s);
    TurnedBalance(s);
  }

  lemma {:induction false} TurnsSnoc(n: nat, s: Loop)
    requires Going(s)
    ensures Going(Turns(n, s)) && Turns(n + 1, s) == Turned(Turns(n, s))
  {
    TurnsStep(n + 1, s);
    TurnedGoes(s);
    if n == 0 {
      TurnsNone(s);
      TurnsNone(Turned(s));
    } else {
      TurnsStep(n, s);
      TurnsSnoc(n - 1, Turned(s));
    }
  }

  /** How often it has been the turn of adapter a, among k, in the first n turns. */
  function Visits(n: nat, a: nat, k: nat): nat
    requires k > 0
  {
    if n == 0 then 0 else Visits(n - 1, a, k) + if (n - 1) % k == a then 1 else 0
  }

  /** Where the loop stands after n turns: at adapter n modulo their number, and each adapter at its own next host. */
  ghost predicate InTurn(n: nat, s: Loop) {
    s.groups != [] && s.next == n % |s.groups| &&
    forall a {:trigger s.groups[a]} | 0 <= a < |s.groups| ::
      s.groups[a].hosts != [] && s.groups[a].nextHost == Visits(n, a, |s.groups|) % |s.groups[a].hosts|
  }

  lemma InTurnStep(n: nat, s: Loop)
    requires Going(s) && s.left > 0 && InTurn(n, s)
    ensures InTurn(n + 1, Turned(s))
  {
    var k, g := |s.groups|, s.groups[s.next];
    assert Counted(Due(g), g.name);
    NextVisit(n, k);
    NextVisit(Visits(n, s.next, k), |g.hosts|);
    var t := Turned(s);
    forall a | 0 <= a < |t.groups|
      ensures t.groups[a].hosts != [] && t.groups[a].nextHost == Visits(n + 1, a, k) % |t.groups[a].hosts|
    {
      assert a != s.next ==> t.groups[a] == s.groups[a];
    }
  }

  lemma NextVisit(n: nat, k: nat)
    requires k > 0
    ensures (n % k + 1) % k == (n + 1) % k
  {
    var q, r := n / k, n % k;
    var p := q * k;
    Parts(n, k, q, r, p);
    VisitAfter(n, k, q, r, p);
  }

  lemma VisitAfter(n: nat, k: nat, q: nat, r: nat, p: nat)
    requires p == q * k && n == p + r && r < k
    ensures (r + 1) % k == (n + 1) % k
  {
    if r + 1 == k {
      OneMore(q, k);
      Remainder(n + 1, k, q + 1, 0, p + k);
      Remainder(r + 1, k, 1, 0, k);
    } else {
      Remainder(n + 1, k, q, r + 1, p);
      Remainder(r + 1, k, 0, r + 1, 0);
    }
  }

  lemma Parts(n: nat, k: nat, q: nat, r: nat, p: nat)
    requires k > 0 && q == n / k && r == n % k && p == q * k
    ensures n == p + r && r < k
  {
  }

  lemma OneMore(q: nat, k: nat)
    ensures (q + 1) * k == q * k + k
  {
  }

  lemma Remainder(n: nat, k: nat, q: nat, r: nat, p: nat)
    requires r < k && p == q * k && n == p + r
    ensures n % k == r
  {
    var q', r' := n / k, n % k;
    var p' := q' * k;
    Parts(n, k, q', r', p');
    if q < q' {
      Further(q, q', k, p, p');
    } else if q' < q {
      Further(q', q, k, p', p);
    }
  }

  lemma Further(q: nat, q': nat, k: nat, p: nat, p': nat)
    requires q < q' && p == q * k && p' == q' * k
    ensures p' >= p + k
  {
    OneMore(q, k);
    Monotone(q + 1, q', k);
  }

  lemma {:induction false} Monotone(q: nat, q': nat, k: nat)
    requires q <= q'
    ensures q * k <= q' * k
    decreases q' - q
  {
    if q < q' {
      OneMore(q' - 1, k);
      Monotone(q, q' - 1, k);
    }
  }

  /**
    The loop alternates strictly: turn n belongs to adapter n modulo their number, and there to the host
    whose turn it is by the same rule.  If that host has a path left its first one is taken, else none.
   */
  lemma {:induction false} TurnsAlternate(n: nat, gs: seq<AdapterGroup>, total: nat)
    requires AllFresh(gs, 0) && gs != [] && Turns(n, Loop(gs, [], total, 0)).left > 0
    ensures var t, k := Turns(n, Loop(gs, [], total, 0)), |gs|;
            Going(t) && |t.groups| == k && t.groups[n % k].hosts != [] &&
            var due := t.groups[n % k].hosts[Visits(n, n % k, k) % |t.groups[n % k].hosts|];
            Turns(n + 1, Loop(gs, [], total, 0)).paths == t.paths + if due.paths == [] then [] else [due.paths[0]]
  {
    var s := Loop(gs, [], total, 0);
    assert Sound(gs[0]);
    TurnsSnoc(n, s);
    AlternatesSoFar(n, s);
    var t := Turns(n, s);
    assert Counted(Due(t.groups[t.next]), t.groups[t.next].name);
  }

  lemma {:induction false} AlternatesSoFar(n: nat, s: Loop)
    requires AllFresh(s.groups, 0) && s.groups != [] && s.next == 0 && Turns(n, s).left > 0
    ensures var t := Turns(n, s); Going(t) && |t.groups| == |s.groups| && InTurn(n, t)
  {
    FirstTurn(s);
    if n > 0 {
      TurnsSnoc(n - 1, s);
      AlternatesSoFar(n - 1, s);
      InTurnNext(n - 1, s.groups, Turns(n - 1, s), Turns(n, s));
    }
  }

  lemma InTurnNext(n: nat, gs: seq<AdapterGroup>, t: Loop, u: Loop)
    requires Going(t) && t.left > 0 && |t.groups| == |gs| && InTurn(n, t) && u == Turned(t)
    ensures Going(u) && |u.groups| == |gs| && InTurn(n + 1, u)
  {
    TurnedGoes(t);
    InTurnStep(n, t);
  }

  lemma FirstTurn(s: Loop)
    requires AllFresh(s.groups, 0) && s.groups != [] && s.next == 0
    ensures Going(s) && InTurn(0, s) && Turns(0, s) == s
  {
    assert Sound(s.groups[0]);
    TurnsNone(s);
  }

  /** With every allocation succeeding the loop ends exactly if the groups hold as many paths as are wanted. */
  lemma LoopEndsExactly(s: Loop)
    requires Going(s)
    ensures (exists n: nat :: Turns(n, s).left == 0) <==> s.left <= |Pool(s.groups)|
  {
    if s.left <= |Pool(s.groups)| {
      var t: (nat, nat) := (0, 0);
      if s.left > 0 {
        t := Nonempty(s.groups);
      }
      var n := LoopEnds(s, t);
      assert Turns(n, s).left == 0;
    } else {
      forall n: nat
        ensures Turns(n, s).left > 0
      {
        LoopGoesOn(n, s);
      }
    }
  }

  /** No number of turns ends the loop over these groups. */
  ghost predicate Endless(gs: seq<AdapterGroup>, total: nat) {
    forall n: nat {:trigger Turns(n, Loop(gs, [], total, 0))} :: Turns(n, Loop(gs, [], total, 0)).left > 0
  }

  lemma EndlessUnlessStored(gs: seq<AdapterGroup>, ds: seq<AdapterGroup>, before: seq<Path>)
    requires ds != [] && AllFresh(gs, 0) && AllFresh(ds, 0) && Pool(gs) + Pool(ds) == multiset(before)
    ensures gs != [] ==> Endless(gs, |before|)
  {
    assert |Pool(gs) + Pool(ds)| == |before|;
    GroupInPool(ds, 0, 0);
    NothingStops(gs, |before|);
  }

  lemma NothingDropped(gs: seq<AdapterGroup>, ds: seq<AdapterGroup>, before: seq<Path>)
    requires ds == [] && Pool(gs) + Pool(ds) == multiset(before)
    ensures Pool(gs) == multiset(before) && |Pool(gs)| == |before|
  {
    assert |multiset(before)| == |before|;
  }

  /** What the alternating loop makes of all paths. */
  lemma WholeOrder(before: seq<Path>, after: seq<Path>, gs: seq<AdapterGroup>)
    requires AllFresh(gs, 0) && Distinct(gs) && Pool(gs) == multiset(before) == multiset(after)
    requires forall a {:trigger gs[a]} | 0 <= a < |gs| :: HostsOf(gs[a], before)
    requires Alternates(after, Names(gs), |before|) && |gs| <= |before| == |after|
    requires gs != [] ==> TurnedTo(Loop(gs, [], |before|, 0), after)
    ensures OnePerAdapter(before, after, Names(gs)) && (before != [] ==> RoundRobin(before, after, gs))
  {
    AdaptersCovered(before, gs);
    if before != [] {
      assert before[0].adapter in Names(gs);
    }
  }

  lemma NothingStops(gs: seq<AdapterGroup>, total: nat)
    requires AllFresh(gs, 0) && total > |Pool(gs)|
    ensures gs != [] ==> Endless(gs, total)
  {
    if gs != [] {
      var s := Loop(gs, [], total, 0);
      assert Sound(gs[0]);
      forall n: nat
        ensures Turns(n, s).left > 0
      {
        LoopGoesOn(n, s);
      }
    }
  }

  /** While the loop runs on enough paths: nothing is lost, and the first round takes one path per adapter. */
  ghost predicate Running(s: Loop, all: multiset<Path>, names: seq<string>) {
    Going(s) && Names(s.groups) == names && multiset(s.paths) + Pool(s.groups) == all && s.left <= |Pool(s.groups)| &&
    Alternates(s.paths, names, |s.paths|) &&
    (|s.paths| < |names| ==> s.next == |s.paths| && AllFresh(s.groups, |s.paths|))
  }

  lemma TurnedRuns(s: Loop, all: multiset<Path>, names: seq<string>)
    requires Running(s, all, names) && s.left > 0
    ensures Running(Turned(s), all, names) && |Turned(s).paths| + Turned(s).left == |s.paths| + s.left
  {
    TurnedGoes(s);
    TurnedBalance(s);
    TurnedAlternates(s, Turned(s), names);
  }

  lemma TurnedAlternates(s: Loop, s': Loop, names: seq<string>)
    requires Going(s) && s.left > 0 && Names(s.groups) == names && s' == Turned(s)
    requires Alternates(s.paths, names, |s.paths|)
    requires |s.paths| < |names| ==> s.next == |s.paths| && AllFresh(s.groups, |s.paths|)
    ensures |s'.paths| + s'.left == |s.paths| + s.left && Alternates(s'.paths, names, |s'.paths|)
    ensures |s'.paths| < |names| ==> s'.next == |s'.paths| && AllFresh(s'.groups, |s'.paths|)
  {
    var g := s.groups[s.next];
    assert Counted(Due(g), g.name);
    if |s.paths| < |names| {
      assert Fresh(g);
    }
  }

  lemma Finished(s: Loop, all: multiset<Path>, names: seq<string>)
    requires Running(s, all, names)
    ensures |s.paths| == |all| ==> multiset(s.paths) == all && |names| <= |s.paths|
  {
    assert |multiset(s.paths) + Pool(s.groups)| == |s.paths| + |Pool(s.groups)|;
    if |s.paths| == |all| && |s.paths| < |names| {
      assert Fresh(s.groups[|s.paths|]);
      GroupInPool(s.groups, |s.paths|, 0);
    }
  }

  lemma AdvanceSound(gs: seq<AdapterGroup>, next: nat)
    requires AllSound(gs) && next < |gs| && Sound(gs[next])
    ensures var gs' := gs[next := Advance(gs[next])];
            AllSound(gs') && Names(gs') == Names(gs) && Sound(Advance(gs[next]))
  {
    var g := gs[next];
    forall j | 0 <= j < |g.hosts|
      ensures Counted(Advance(g).hosts[j], g.name)
    {
      assert Counted(g.hosts[j], g.name);
    }
  }

  lemma TakenAllSound(gs: seq<AdapterGroup>, next: nat)
    requires AllSound(gs) && next < |gs| && Sound(gs[next]) && Due(gs[next]).numPaths != 0
    ensures var gs' := gs[next := Taken(gs[next])]; AllSound(gs') && Names(gs') == Names(gs)
  {
    TakenSound(gs[next]);
  }

  lemma TakenMoves(gs: seq<AdapterGroup>, next: nat)
    requires next < |gs| && Sound(gs[next]) && Due(gs[next]).numPaths != 0
    ensures var g := gs[next]; Due(g).paths != [] && Pool(gs) == Pool(gs[next := Taken(g)]) + multiset{Due(g).paths[0]}
  {
    var g := gs[next];
    var gs' := gs[next := Taken(g)];
    TakenPool(g);
    PoolGain(gs', next, g, multiset{Due(g).paths[0]});
    assert gs'[next := g] == gs;
  }

  lemma {:induction false} HostCovers(hs: seq<HostGroup>, name: string, p: Path)
    requires p in HostPool(hs) && forall j {:trigger hs[j]} | 0 <= j < |hs| :: Counted(hs[j], name)
    ensures p.adapter == name
  {
    if p in multiset(hs[0].paths) {
      assert Counted(hs[0], name);
    } else {
      HostCovers(hs[1..], name, p);
    }
  }

  lemma {:induction false} PoolCovers(gs: seq<AdapterGroup>, p: Path)
    requires p in Pool(gs) && AllSound(gs)
    ensures exists a :: 0 <= a < |gs| && gs[a].name == p.adapter
  {
    if p in HostPool(gs[0].hosts) {
      assert Sound(gs[0]);
      HostCovers(gs[0].hosts, gs[0].name, p);
    } else {
      PoolCovers(gs[1..], p);
      var a :| 0 <= a < |gs[1..]| && gs[1..][a].name == p.adapter;
      assert gs[a + 1].name == p.adapter;
    }
  }

  /** Every path's adapter has a group. */
  lemma AdaptersCovered(ps: seq<Path>, gs: seq<AdapterGroup>)
    requires Pool(gs) == multiset(ps) && AllFresh(gs, 0)
    ensures forall i | 0 <= i < |ps| :: ps[i].adapter in Names(gs)
  {
    forall i | 0 <= i < |ps|
      ensures ps[i].adapter in Names(gs)
    {
      assert ps[i] in multiset(ps);
      assert AllSound(gs);
      PoolCovers(gs, ps[i]);
      var a :| 0 <= a < |gs| && gs[a].name == ps[i].adapter;
      assert Names(gs)[a] == ps[i].adapter;
    }
  }

  /** The adapter group made for its first path. */
  function First(pp: Path): AdapterGroup { AdapterGroup(pp.adapter, [HostGroup(pp.hostNo, 1, [pp])], 1, 0) }

  ghost predicate Foreign(ps: seq<Path>, name: string) { forall i | 0 <= i < |ps| :: ps[i].adapter != name }

  /** No other adapters than before. */
  ghost predicate Within(ps: seq<Path>, qs: seq<Path>) {
    (forall p | p in ps :: p in qs) && forall n {:trigger Foreign(ps, n)} | Foreign(qs, n) :: Foreign(ps, n)
  }

  lemma DelFirst(ps: seq<Path>)
    requires ps != []
    ensures multiset(ps) == multiset{ps[0]} + multiset(ps[1..])
  {
    assert ps == [ps[0]] + ps[1..];
  }

  lemma DelSlot(ps: seq<Path>, i: nat)
    requires i < |ps|
    ensures multiset(ps) == multiset(ps[..i] + ps[i + 1..]) + multiset{ps[i]}
  {
    assert ps == ps[..i] + [ps[i]] + ps[i + 1..];
  }

  function Joined(h: HostGroup, pp: Path): HostGroup { h.(paths := h.paths + [pp], numPaths := h.numPaths + 1) }

  lemma JoinHost(g: AdapterGroup, j: nat, pp: Path)
    requires Fresh(g) && j < |g.hosts| && pp.adapter == g.name
    ensures Fresh(g.(hosts := g.hosts[j := Joined(g.hosts[j], pp)]))
    ensures HostPool(g.hosts[j := Joined(g.hosts[j], pp)]) == HostPool(g.hosts) + multiset{pp}
  {
    var h := Joined(g.hosts[j], pp);
    assert Counted(g.hosts[j], g.name);
    StillFresh(g, j, h);
    HostPoolGain(g.hosts, j, h, multiset{pp});
  }

  lemma StillFresh(g: AdapterGroup, j: nat, h: HostGroup)
    requires Fresh(g) && j < |g.hosts| && Counted(h, g.name) && h.paths != []
    ensures Fresh(g.(hosts := g.hosts[j := h]))
  {
  }

  lemma MoreFresh(g: AdapterGroup, h: HostGroup)
    requires Fresh(g) && Counted(h, g.name)
    ensures Fresh(g.(hosts := g.hosts + [h], numHosts := g.numHosts + 1))
  {
  }
}
