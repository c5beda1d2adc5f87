// The registry of managed processes: several maps, a counter and an order list that must
// agree through every start, exit, deletion and eviction.
module Registries {
  import opened Options

  datatype State = Starting | Running | Exited | Failed | Lost {
    predicate Active() { this == Starting || this == Running }
  }

  // A pid of zero means the process never got one.
  datatype Info = Info(id: string, name: string, state: State, pid: nat)

  const MAX_TRACKED := 4096

  // ----- how the parts agree

  // The order lists every tracked process once.
  ghost predicate Listed(processes: map<string, Info>, order: seq<string>) {
    && (forall i, j | 0 <= i < j < |order| :: order[i] != order[j])
    && (forall id :: id in order <==> id in processes)
    && (forall id | id in processes :: processes[id].id == id)
  }

  function ActiveIds(processes: map<string, Info>): set<string> {
    set id | id in processes && processes[id].state.Active()
  }

  // The active names are exactly the names of active processes, one process each.
  ghost predicate NamesActive(processes: map<string, Info>, activeNames: map<string, string>) {
    && (forall name | name in activeNames ::
          activeNames[name] in ActiveIds(processes) && processes[activeNames[name]].name == name)
    && (forall id | id in ActiveIds(processes) ::
          processes[id].name in activeNames && activeNames[processes[id].name] == id)
  }

  // The newest tracked process with a name.
  function NewestNamed(processes: map<string, Info>, order: seq<string>, name: string): Option<string> {
    if order == [] then None
    else
      var last := order[|order| - 1];
      if last in processes && processes[last].name == name then Some(last)
      else NewestNamed(processes, order[..|order| - 1], name)
  }

  function NewestWithPid(processes: map<string, Info>, order: seq<string>, pid: nat): Option<string> {
    if order == [] then None
    else
      var last := order[|order| - 1];
      if last in processes && processes[last].pid == pid then Some(last)
      else NewestWithPid(processes, order[..|order| - 1], pid)
  }

  function Find<K, V>(m: map<K, V>, key: K): Option<V> {
    if key in m then Some(m[key]) else None
  }

  // Looking a name up finds the newest tracked process of that name.
  ghost predicate NamesNewest(processes: map<string, Info>, order: seq<string>, byName: map<string, string>) {
    forall name :: Find(byName, name) == NewestNamed(processes, order, name)
  }

  // Looking a pid up finds a tracked process that has or had it, if there is any.
  ghost predicate PidsTracked(processes: map<string, Info>, byPID: map<nat, string>) {
    && (forall pid | pid in byPID :: pid > 0 && byPID[pid] in processes && processes[byPID[pid]].pid == pid)
    && (forall id | id in processes && processes[id].pid > 0 :: processes[id].pid in byPID)
  }

  ghost predicate Agree(processes: map<string, Info>, order: seq<string>, activeNames: map<string, string>,
      byName: map<string, string>, byPID: map<nat, string>)
  {
    && Listed(processes, order)
    && NamesActive(processes, activeNames)
    && NamesNewest(processes, order, byName)
    && PidsTracked(processes, byPID)
  }

  // ----- removing one process

  function Without(order: seq<string>, id: string): seq<string> {
    if order == [] then []
    else if order[0] == id then order[1..]
    else [order[0]] + Without(order[1..], id)
  }

  lemma {:induction false} WithoutAt(order: seq<string>, id: string, k: nat)
    requires k < |order| && order[k] == id && id !in order[..k]
    ensures Without(order, id) == order[..k] + order[k + 1..]
  {
    if k > 0 {
      WithoutAt(order[1..], id, k - 1);
    }
  }

  lemma WithoutLists(processes: map<string, Info>, order: seq<string>, id: string)
    requires Listed(processes, order) && id in processes
    ensures Listed(processes - {id}, Without(order, id))
    ensures |Without(order, id)| == |order| - 1
  {
    hide Without;
    var k :| 0 <= k < |order| && order[k] == id;
    WithoutAt(order, id, k);
    var rest := order[..k] + order[k + 1..];
    assert forall i | 0 <= i < |rest| :: rest[i] == order[if i < k then i else i + 1];
    forall x
      ensures x in rest <==> x in processes - {id}
    {
      if x in processes && x != id {
        var i :| 0 <= i < |order| && order[i] == x;
        assert rest[if i < k then i else i - 1] == x;
      }
    }
  }

  // Skipping an untracked id does not change what is newest.
  lemma {:induction false} NewestSkips(processes: map<string, Info>, a: seq<string>, id: string,
        b: seq<string>, name: string)
    requires id !in processes
    ensures NewestNamed(processes, a + b, name) == NewestNamed(processes, a + [id] + b, name)
    decreases |b|
  {
    if b == [] {
      assert a + b == a && (a + [id] + b)[..|a|] == a;
    } else {
      var init := b[..|b| - 1];
      NewestSkips(processes, a, id, init, name);
      assert (a + b)[..|a + b| - 1] == a + init;
      assert (a + [id] + b)[..|a| + |b|] == a + [id] + init;
    }
  }

  // Another process's removal does not change what is newest.
  lemma {:induction false} NewestStays(processes: map<string, Info>, order: seq<string>, id: string, name: string)
    requires NewestNamed(processes, order, name) != Some(id)
    ensures NewestNamed(processes - {id}, order, name) == NewestNamed(processes, order, name)
  {
    if order != [] {
      var last := order[|order| - 1];
      if !(last in processes && processes[last].name == name) {
        NewestStays(processes, order[..|order| - 1], id, name);
      }
    }
  }

  lemma NewestAfterRemoval(processes: map<string, Info>, order: seq<string>, id: string, name: string)
    requires Listed(processes, order) && id in processes
    ensures NewestNamed(processes - {id}, Without(order, id), name) == NewestNamed(processes - {id}, order, name)
  {
    hide NewestNamed, Without;
    assert id in order;
    var k :| 0 <= k < |order| && order[k] == id;
    WithoutAt(order, id, k);
    NewestSkips(processes - {id}, order[..k], id, order[k + 1..], name);
    assert order[..k] + [id] + order[k + 1..] == order;
  }

  lemma {:induction false} NewestIsTracked(processes: map<string, Info>, order: seq<string>, name: string)
    ensures var r := NewestNamed(processes, order, name);
      && (r.Some? ==> r.value in order && r.value in processes && processes[r.value].name == name)
      && (r.None? ==> forall id | id in order && id in processes :: processes[id].name != name)
  {
    if order != [] {
      NewestIsTracked(processes, order[..|order| - 1], name);
    }
  }

  lemma {:induction false} PidIsTracked(processes: map<string, Info>, order: seq<string>, pid: nat)
    ensures var r := NewestWithPid(processes, order, pid);
      && (r.Some? ==> r.value in order && r.value in processes && processes[r.value].pid == pid)
      && (r.None? ==> forall id | id in order && id in processes :: processes[id].pid != pid)
  {
    if order != [] {
      PidIsTracked(processes, order[..|order| - 1], pid);
    }
  }

  // The map after the entry that led to a removed process is gone or led elsewhere.
  function Redirect<K>(m: map<K, string>, key: K, id: string, next: Option<string>): map<K, string> {
    if Find(m, key) != Some(id) then m
    else if next.Some? then m[key := next.value]
    else m - {key}
  }

  lemma RemovalAgrees(processes: map<string, Info>, order: seq<string>, activeNames: map<string, string>,
      byName: map<string, string>, byPID: map<nat, string>, id: string)
    requires Agree(processes, order, activeNames, byName, byPID) && id in processes
    ensures var rest, info := processes - {id}, processes[id];
      Agree(rest, Without(order, id), Redirect(activeNames, info.name, id, None),
        Redirect(byName, info.name, id, NewestNamed(rest, order, info.name)),
        Redirect(byPID, info.pid, id, NewestWithPid(rest, order, info.pid)))
  {
    var rest, info := processes - {id}, processes[id];
    WithoutLists(processes, order, id);
    NamesAfterRemoval(processes, activeNames, id);
    NewestNamesAfterRemoval(processes, order, byName, id);
    PidsAfterRemoval(processes, order, byPID, id);
  }

  lemma NamesAfterRemoval(processes: map<string, Info>, activeNames: map<string, string>, id: string)
    requires NamesActive(processes, activeNames) && id in processes
    ensures NamesActive(processes - {id}, Redirect(activeNames, processes[id].name, id, None))
  {
  }

  lemma NewestNamesAfterRemoval(processes: map<string, Info>, order: seq<string>, byName: map<string, string>,
        id: string)
    requires Listed(processes, order) && NamesNewest(processes, order, byName) && id in processes
    ensures NamesNewest(processes - {id}, Without(order, id),
              Redirect(byName, processes[id].name, id, NewestNamed(processes - {id}, order, processes[id].name)))
  {
    hide Listed, Without;
    var rest, info := processes - {id}, processes[id];
    var after := Redirect(byName, info.name, id, NewestNamed(rest, order, info.name));
    forall name
      ensures Find(after, name) == NewestNamed(rest, Without(order, id), name)
    {
      NewestAfterRemoval(processes, order, id, name);
      NewestIsTracked(processes, order, name);
      if NewestNamed(processes, order, name) != Some(id) {
        NewestStays(processes, order, id, name);
      }
    }
  }

  lemma PidsAfterRemoval(processes: map<string, Info>, order: seq<string>, byPID: map<nat, string>, id: string)
    requires Listed(processes, order) && PidsTracked(processes, byPID) && id in processes
    ensures PidsTracked(processes - {id},
              Redirect(byPID, processes[id].pid, id, NewestWithPid(processes - {id}, order, processes[id].pid)))
  {
    hide NewestWithPid;
    PidIsTracked(processes - {id}, order, processes[id].pid);
  }

  // ----- counting the active processes

  lemma ActiveAfterRemoval(processes: map<string, Info>, id: string)
    requires id in processes
    ensures ActiveIds(processes - {id}) == ActiveIds(processes) - {id}
  {
  }

  lemma {:induction false} DistinctCount(order: seq<string>)
    requires forall i, j | 0 <= i < j < |order| :: order[i] != order[j]
    ensures |set id | id in order| == |order|
  {
    if order != [] {
      var init, last := order[..|order| - 1], order[|order| - 1];
      DistinctCount(init);
      assert (set id | id in order) == (set id | id in init) + {last};
    }
  }

  // As long as not every tracked process is active, one of them is terminal.
  lemma SomeTerminal(processes: map<string, Info>, order: seq<string>)
    requires Listed(processes, order) && |ActiveIds(processes)| < |order|
    ensures exists id | id in order :: !processes[id].state.Active()
  {
    DistinctCount(order);
    var ids := set id | id in order;
    assert ActiveIds(processes) <= ids && ActiveIds(processes) != ids;
    var id :| id in ids && id !in ActiveIds(processes);
  }

  // ----- adding and changing one process

  function Put(m: map<string, string>, active: bool, name: string, id: string): map<string, string> {
    if active then m[name := id] else m
  }

  function PutPid(byPID: map<nat, string>, pid: nat, id: string): map<nat, string> {
    if pid > 0 then byPID[pid := id] else byPID
  }

  lemma AdditionAgrees(processes: map<string, Info>, order: seq<string>, activeNames: map<string, string>,
      byName: map<string, string>, byPID: map<nat, string>, info: Info)
    requires Agree(processes, order, activeNames, byName, byPID) && info.id !in processes
    requires info.state.Active() ==> info.name !in activeNames
    ensures Agree(processes[info.id := info], order + [info.id],
              Put(activeNames, info.state.Active(), info.name, info.id),
              byName[info.name := info.id], PutPid(byPID, info.pid, info.id))
    ensures ActiveIds(processes[info.id := info])
      == ActiveIds(processes) + (if info.state.Active() then {info.id} else {})
  {
    hide Listed, NamesNewest, NamesActive, PidsTracked;
    AdditionNewest(processes, order, byName, info);
    AdditionListed(processes, order, info);
    AdditionActive(processes, activeNames, info);
    AdditionPids(processes, byPID, info);
  }

  lemma AdditionActive(processes: map<string, Info>, activeNames: map<string, string>, info: Info)
    requires NamesActive(processes, activeNames) && info.id !in processes
    requires info.state.Active() ==> info.name !in activeNames
    ensures NamesActive(processes[info.id := info], Put(activeNames, info.state.Active(), info.name, info.id))
    ensures ActiveIds(processes[info.id := info])
      == ActiveIds(processes) + (if info.state.Active() then {info.id} else {})
  {
    var more := processes[info.id := info];
    assert ActiveIds(more) == ActiveIds(processes) + (if info.state.Active() then {info.id} else {});
  }

  lemma AdditionPids(processes: map<string, Info>, byPID: map<nat, string>, info: Info)
    requires PidsTracked(processes, byPID) && info.id !in processes
    ensures PidsTracked(processes[info.id := info], PutPid(byPID, info.pid, info.id))
  {
  }

  lemma EmptyAgrees()
    ensures Agree(map[], [], map[], map[], map[])
  {
  }

  lemma AdditionListed(processes: map<string, Info>, order: seq<string>, info: Info)
    requires Listed(processes, order) && info.id !in processes
    ensures Listed(processes[info.id := info], order + [info.id])
  {
  }

  lemma AdditionNewest(processes: map<string, Info>, order: seq<string>, byName: map<string, string>, info: Info)
    requires Listed(processes, order) && NamesNewest(processes, order, byName) && info.id !in processes
    ensures NamesNewest(processes[info.id := info], order + [info.id], byName[info.name := info.id])
  {
    var more := processes[info.id := info];
    forall name
      ensures Find(byName[info.name := info.id], name) == NewestNamed(more, order + [info.id], name)
    {
      assert (order + [info.id])[..|order|] == order;
      assert Find(byName, name) == NewestNamed(processes, order, name);
      NewestSame(processes, more, order, name);
    }
  }

  // Only which ids of the order are tracked, and under which name, decides what is newest.
  lemma {:induction false} NewestSame(processes: map<string, Info>, other: map<string, Info>,
        order: seq<string>, name: string)
    requires forall id | id in order :: id in processes && id in other && processes[id].name == other[id].name
    ensures NewestNamed(processes, order, name) == NewestNamed(other, order, name)
  {
    if order != [] {
      NewestSame(processes, other, order[..|order| - 1], name);
    }
  }

  // A process gets its pid, and its name stays.
  lemma RunningAgrees(processes: map<string, Info>, order: seq<string>, activeNames: map<string, string>,
      byName: map<string, string>, byPID: map<nat, string>, id: string, pid: nat)
    requires Agree(processes, order, activeNames, byName, byPID) && id in processes && pid > 0
    requires processes[id].state == Starting && processes[id].pid == 0
    ensures var after := processes[id := processes[id].(state := Running, pid := pid)];
      Agree(after, order, activeNames, byName, byPID[pid := id]) && ActiveIds(after) == ActiveIds(processes)
  {
    var after := processes[id := processes[id].(state := Running, pid := pid)];
    assert ActiveIds(after) == ActiveIds(processes);
    forall name
      ensures Find(byName, name) == NewestNamed(after, order, name)
    {
      NewestSame(processes, after, order, name);
    }
  }

  // A process ends, and its name becomes free.
  lemma EndAgrees(processes: map<string, Info>, order: seq<string>, activeNames: map<string, string>,
      byName: map<string, string>, byPID: map<nat, string>, id: string, state: State)
    requires Agree(processes, order, activeNames, byName, byPID) && id in processes
    requires processes[id].state.Active() && !state.Active()
    ensures var after := processes[id := processes[id].(state := state)];
      && Agree(after, order, Redirect(activeNames, processes[id].name, id, None), byName, byPID)
      && ActiveIds(after) == ActiveIds(processes) - {id} && id in ActiveIds(processes)
  {
    var after := processes[id := processes[id].(state := state)];
    assert ActiveIds(after) == ActiveIds(processes) - {id};
    forall name
      ensures Find(byName, name) == NewestNamed(after, order, name)
    {
      NewestSame(processes, after, order, name);
    }
  }

  // The longest-tracked terminal process.
  function OldestTerminal(processes: map<string, Info>, order: seq<string>): Option<string> {
    if order == [] then None
    else if order[0] in processes && !processes[order[0]].state.Active() then Some(order[0])
    else OldestTerminal(processes, order[1..])
  }

  // ----- the registry

  datatype Started = Accepted | ShuttingDown | ActiveLimit | NameInUse | HistoryLimit
  datatype Deleted = Removed | NotFound | StillActive | LogsObserved | StoreFailed
  datatype Reference = NoReference | ById(id: string) | ByName(name: string) | ByPid(pid: int)

  class Registry {
    const maxProcesses: nat
    var closing: bool
    var active: nat
    var processes: map<string, Info>
    var activeNames: map<string, string>
    var byName: map<string, string>
    var byPID: map<nat, string>
    var order: seq<string>

    ghost predicate Consistent()
      reads this
    {
      Agree(processes, order, activeNames, byName, byPID)
    }

    ghost predicate Valid()
      reads this
    {
      && Consistent()
      && active == |ActiveIds(processes)| <= maxProcesses <= MAX_TRACKED
      && |order| <= MAX_TRACKED
    }

    // The newest tracked process with a name, or with a pid.
    method FindNewest(wanted: Info, byPid: bool) returns (found: Option<string>)
      ensures found == if byPid then NewestWithPid(processes, order, wanted.pid)
        else NewestNamed(processes, order, wanted.name)
    {
      var index := |order|;
      assert order[..|order|] == order;
      while index > 0
        invariant 0 <= index <= |order|
        invariant NewestWithPid(processes, order, wanted.pid) == NewestWithPid(processes, order[..index], wanted.pid)
          || !byPid
        invariant NewestNamed(processes, order, wanted.name) == NewestNamed(processes, order[..index], wanted.name)
          || byPid
      {
        index := index - 1;
        assert order[..index + 1][..index] == order[..index];
        if order[index] in processes {
          var candidate := processes[order[index]];
          if (if byPid then candidate.pid == wanted.pid else candidate.name == wanted.name) {
            return Some(order[index]);
          }
        }
      }
      found := None;
    }

    // Forgets one process everywhere.
    method Remove(id: string)
      requires Consistent() && id in processes
      modifies `processes, `activeNames, `byName, `byPID, `order
      ensures Consistent()
      ensures processes == old(processes) - {id} && order == Without(old(order), id) && |order| == |old(order)| - 1
      ensures activeNames.Keys <= old(activeNames.Keys)
    {
      hide Agree, NewestNamed, NewestWithPid, Without, Redirect, Find;
      var info := processes[id];
      RemovalAgrees(processes, order, activeNames, byName, byPID, id);
      RemovalIds(processes, order, activeNames, byName, byPID, id);
      processes := processes - {id};
      RedirectSteps(activeNames, info.name, id, None);
      if Find(activeNames, info.name) == Some(id) {
        activeNames := activeNames - {info.name};
      }
      var newest := FindNewest(info, false);
      RedirectSteps(byName, info.name, id, newest);
      if Find(byName, info.name) == Some(id) {
        byName := byName - {info.name};
        if newest.Some? {
          byName := byName[info.name := newest.value];
        }
      }
      newest := FindNewest(info, true);
      RedirectSteps(byPID, info.pid, id, newest);
      if Find(byPID, info.pid) == Some(id) {
        byPID := byPID - {info.pid};
        if newest.Some? {
          byPID := byPID[info.pid := newest.value];
        }
      }
      RemoveFromOrder(id);
    }

    method RemoveFromOrder(id: string)
      requires id in order
      modifies `order
      ensures order == Without(old(order), id)
    {
      for index := 0 to |order|
        invariant order == old(order) && id !in order[..index]
      {
        if order[index] == id {
          WithoutAt(order, id, index);
          order := order[..index] + order[index + 1..];
          return;
        }
      }
    }

    // Starts from the records found on disk, oldest first: none is active any more, and
    // only the newest are tracked.
    constructor (maxProcesses: nat, found: seq<Info>)
      requires maxProcesses <= MAX_TRACKED
      requires forall i, j | 0 <= i < j < |found| :: found[i].id != found[j].id
      requires forall i | 0 <= i < |found| :: found[i].state != Starting && found[i].state != Running
      ensures Valid() && this.maxProcesses == maxProcesses && active == 0 && !closing
      ensures forall i | 0 <= i < |found| :: found[i].id in processes <==> |found| - MAX_TRACKED <= i
    {
      hide Agree;
      this.maxProcesses := maxProcesses;
      closing, active, processes, activeNames, byName, byPID, order := false, 0, map[], map[], map[], map[], [];
      new;
      EmptyAgrees();
      var loaded := if |found| > MAX_TRACKED then found[|found| - MAX_TRACKED..] else found;
      for k := 0 to |loaded|
        invariant Consistent() && activeNames == map[] && ActiveIds(processes) == {} && |order| == k
        invariant active == 0 && !closing
        invariant forall id :: id in processes <==> exists i | 0 <= i < k :: loaded[i].id == id
      {
        var info := loaded[k];
        AdditionAgrees(processes, order, activeNames, byName, byPID, info);
        processes := processes[info.id := info];
        byName := byName[info.name := info.id];
        if info.pid > 0 {
          byPID := byPID[info.pid := info.id];
        }
        order := order + [info.id];
      }
    }

    // Makes room for one more record. Not every tracked process can be active, so there
    // is always one to forget, and the limit is never reported.
    method MakeHistorySpace() returns (ok: bool)
      requires Consistent() && |order| <= MAX_TRACKED && |ActiveIds(processes)| < MAX_TRACKED
      modifies `processes, `activeNames, `byName, `byPID, `order
      ensures ok && Consistent() && |order| < MAX_TRACKED
      ensures ActiveIds(processes) == old(ActiveIds(processes)) && activeNames.Keys <= old(activeNames.Keys)
      ensures |old(order)| < MAX_TRACKED ==> processes == old(processes) && order == old(order)
      ensures |old(order)| == MAX_TRACKED ==>
        && OldestTerminal(old(processes), old(order)).Some?
        && processes == old(processes) - {OldestTerminal(old(processes), old(order)).value}
    {
      hide Agree, ActiveIds, OldestTerminal, Without;
      while |order| >= MAX_TRACKED
        invariant Consistent() && |order| <= MAX_TRACKED && ActiveIds(processes) == old(ActiveIds(processes))
        invariant activeNames.Keys <= old(activeNames.Keys)
        invariant |order| == |old(order)| ==> processes == old(processes) && order == old(order)
        invariant |old(order)| < MAX_TRACKED ==> |order| == |old(order)|
        invariant |order| < |old(order)| == MAX_TRACKED ==>
          && OldestTerminal(old(processes), old(order)).Some?
          && processes == old(processes) - {OldestTerminal(old(processes), old(order)).value}
        decreases |order|
      {
        VictimExists(processes, order, activeNames, byName, byPID);
        var victim := FindTerminal();
        if victim.None? {
          return false;
        }
        ActiveAfterRemoval(processes, victim.value);
        Remove(victim.value);
      }
      ok := true;
    }

    method FindTerminal() returns (found: Option<string>)
      ensures found == OldestTerminal(processes, order)
    {
      assert order[0..] == order;
      for index := 0 to |order|
        invariant OldestTerminal(processes, order) == OldestTerminal(processes, order[index..])
      {
        if order[index] in processes && !processes[order[index]].state.Active() {
          return Some(order[index]);
        }
        assert order[index..][1..] == order[index + 1..];
      }
      found := None;
    }

    // Reserves a name and a slot for a process about to be launched.
    method Start(id: string, name: string) returns (r: Started)
      requires Valid() && id !in processes
      modifies this
      ensures Valid() && closing == old(closing)
      ensures r == if old(closing) then ShuttingDown
                   else if old(active) >= maxProcesses then ActiveLimit
                   else if name in old(activeNames) then NameInUse
                   else Accepted
      ensures r != Accepted ==> processes == old(processes) && order == old(order) && active == old(active)
      ensures r == Accepted ==>
        && id in processes && processes[id] == Info(id, name, Starting, 0) && Find(byName, name) == Some(id)
        && active == old(active) + 1 && ActiveIds(processes) == old(ActiveIds(processes)) + {id}
        && (|old(order)| < MAX_TRACKED ==> processes == old(processes)[id := processes[id]])
        && (|old(order)| == MAX_TRACKED ==>
          && OldestTerminal(old(processes), old(order)).Some?
          && processes == (old(processes) - {OldestTerminal(old(processes), old(order)).value})[id := processes[id]])
    {
      hide Agree, ActiveIds, OldestTerminal, Without;
      if closing {
        return ShuttingDown;
      }
      if active >= maxProcesses {
        return ActiveLimit;
      }
      if name in activeNames {
        return NameInUse;
      }
      var ok := MakeHistorySpace();
      if !ok {
        return HistoryLimit;
      }
      var info := Info(id, name, Starting, 0);
      AdditionAgrees(processes, order, activeNames, byName, byPID, info);
      IdIsInactive(processes, id);
      processes := processes[id := info];
      activeNames := activeNames[name := id];
      byName := byName[name := id];
      order := order + [id];
      active := active + 1;
      r := Accepted;
    }

    // The record could not be created on disk: the reservation is undone.
    method CreateFailed(id: string)
      requires Valid() && id in processes && processes[id].state == Starting
      modifies this
      ensures Valid() && closing == old(closing)
      ensures processes == old(processes) - {id} && active == old(active) - 1
    {
      hide Agree, Without;
      ActiveAfterRemoval(processes, id);
      assert id in ActiveIds(processes);
      Remove(id);
      active := active - 1;
    }

    // A launched process ended, or the executable never started.
    method End(id: string, state: State)
      requires Valid() && id in processes && processes[id].state.Active() && !state.Active()
      modifies this
      ensures Valid() && closing == old(closing) && order == old(order) && byName == old(byName) && byPID == old(byPID)
      ensures processes == old(processes)[id := old(processes)[id].(state := state)] && active == old(active) - 1
      ensures old(processes)[id].name !in activeNames
    {
      hide Agree, Redirect;
      EndAgrees(processes, order, activeNames, byName, byPID, id, state);
      RedirectSteps(activeNames, processes[id].name, id, None);
      NameIsActive(processes, order, activeNames, byName, byPID, id);
      processes := processes[id := processes[id].(state := state)];
      if active > 0 {
        active := active - 1;
      }
      if Find(activeNames, processes[id].name) == Some(id) {
        activeNames := activeNames - {processes[id].name};
      }
    }

    method StartFailed(id: string)
      requires Valid() && id in processes && processes[id].state == Starting
      modifies this
      ensures Valid() && closing == old(closing) && order == old(order) && byName == old(byName) && byPID == old(byPID)
      ensures processes == old(processes)[id := old(processes)[id].(state := Failed)] && active == old(active) - 1
      ensures old(processes)[id].name !in activeNames
    {
      hide Agree;
      End(id, Failed);
    }

    method NowRunning(id: string, pid: nat)
      requires Valid() && id in processes && processes[id].state == Starting && processes[id].pid == 0 && pid > 0
      modifies this
      ensures Valid() && closing == old(closing) && order == old(order) && active == old(active)
      ensures processes == old(processes)[id := old(processes)[id].(state := Running, pid := pid)]
      ensures Find(byPID, pid) == Some(id) && activeNames == old(activeNames) && byName == old(byName)
    {
      hide Agree;
      RunningAgrees(processes, order, activeNames, byName, byPID, id, pid);
      processes := processes[id := processes[id].(state := Running, pid := pid)];
      byPID := byPID[pid := id];
    }

    method Reap(id: string)
      requires Valid() && id in processes && processes[id].state == Running
      modifies this
      ensures Valid() && closing == old(closing) && order == old(order) && byName == old(byName) && byPID == old(byPID)
      ensures processes == old(processes)[id := old(processes)[id].(state := Exited)] && active == old(active) - 1
      ensures old(processes)[id].name !in activeNames
    {
      hide Agree;
      End(id, Exited);
    }

    method BeginShutdown()
      requires Valid()
      modifies `closing
      ensures Valid() && closing
    {
      hide Agree;
      closing := true;
    }

    // The process a reference means: by id, the newest of a name, or one with the pid.
    method Lookup(reference: Reference) returns (found: Option<string>)
      requires Valid()
      ensures found.Some? ==> found.value in processes
      ensures reference.NoReference? ==> found == None
      ensures reference.ById? ==>
        found == if reference.id != "" && reference.id in processes then Some(reference.id) else None
      ensures reference.ByName? && reference.name != "" ==> found == NewestNamed(processes, order, reference.name)
      ensures reference.ByPid? ==>
        (found.Some? ==> found.value in processes && processes[found.value].pid == reference.pid)
      ensures reference.ByPid? && reference.pid > 0 && found.None? ==>
        forall id | id in processes :: processes[id].pid != reference.pid
    {
      var id: Option<string> := None;
      match reference {
        case NoReference => return None;
        case ById(wanted) =>
          if wanted == "" {
            return None;
          }
          id := Some(wanted);
        case ByName(name) =>
          if name == "" {
            return None;
          }
          id := Find(byName, name);
          NewestIsTracked(processes, order, name);
        case ByPid(pid) =>
          if pid <= 0 {
            return None;
          }
          id := Find(byPID, pid);
      }
      found := if id.Some? && id.value in processes then id else None;
    }

    // Deletes one terminal process; anything else is left alone.
    method Delete(reference: Reference, observed: bool, storeFails: bool) returns (r: Deleted)
      requires Valid()
      modifies this
      ensures Valid() && closing == old(closing) && active == old(active)
      ensures ActiveIds(processes) == old(ActiveIds(processes))
      ensures r != Removed ==> processes == old(processes) && order == old(order)
      ensures r == Removed ==> exists id ::
        id in old(processes) && !old(processes)[id].state.Active() && processes == old(processes) - {id}
      ensures reference.ById? && reference.id != "" ==>
        && r == (if reference.id !in old(processes) then NotFound
                 else if old(processes)[reference.id].state.Active() then StillActive
                 else if observed then LogsObserved
                 else if storeFails then StoreFailed
                 else Removed)
        && (r == Removed ==> processes == old(processes) - {reference.id})
      ensures reference.ByName? && reference.name != "" && r == Removed ==>
        var newest := NewestNamed(old(processes), old(order), reference.name);
        newest.Some? && processes == old(processes) - {newest.value}
    {
      hide Agree, Without, NewestNamed;
      var found := Lookup(reference);
      if found.None? {
        return NotFound;
      }
      if processes[found.value].state.Active() {
        return StillActive;
      }
      if observed {
        return LogsObserved;
      }
      if storeFails {
        return StoreFailed;
      }
      ActiveAfterRemoval(processes, found.value);
      assert ActiveIds(processes) - {found.value} == ActiveIds(processes);
      Remove(found.value);
      r := Removed;
    }
  }

  // When the history is full, one of its processes is terminal.
  lemma VictimExists(processes: map<string, Info>, order: seq<string>, activeNames: map<string, string>,
      byName: map<string, string>, byPID: map<nat, string>)
    requires Agree(processes, order, activeNames, byName, byPID) && |ActiveIds(processes)| < |order|
    ensures var r := OldestTerminal(processes, order);
      r.Some? && r.value in processes && r.value !in ActiveIds(processes)
  {
    hide NamesActive, NamesNewest, PidsTracked;
    SomeTerminal(processes, order);
    OldestIsTerminal(processes, order);
  }

  lemma {:induction false} OldestIsTerminal(processes: map<string, Info>, order: seq<string>)
    requires exists id | id in order :: id in processes && !processes[id].state.Active()
    ensures var r := OldestTerminal(processes, order);
      r.Some? && r.value in processes && r.value !in ActiveIds(processes)
  {
    if !(order[0] in processes && !processes[order[0]].state.Active()) {
      OldestIsTerminal(processes, order[1..]);
    }
  }

  lemma IdIsInactive(processes: map<string, Info>, id: string)
    ensures id !in processes ==> id !in ActiveIds(processes)
  {
  }

  lemma NameIsActive(processes: map<string, Info>, order: seq<string>, activeNames: map<string, string>,
      byName: map<string, string>, byPID: map<nat, string>, id: string)
    requires Agree(processes, order, activeNames, byName, byPID) && id in processes && processes[id].state.Active()
    ensures Find(activeNames, processes[id].name) == Some(id)
  {
    hide Listed, NamesNewest, PidsTracked;
    assert id in ActiveIds(processes);
  }

  lemma RedirectSteps<K>(m: map<K, string>, key: K, id: string, next: Option<string>)
    ensures Redirect(m, key, id, next)
         == if Find(m, key) != Some(id) then m
            else if next.Some? then (m - {key})[key := next.value]
            else m - {key}
  {
  }

  lemma RemovalIds(processes: map<string, Info>, order: seq<string>, activeNames: map<string, string>,
      byName: map<string, string>, byPID: map<nat, string>, id: string)
    requires Agree(processes, order, activeNames, byName, byPID) && id in processes
    ensures processes[id].id == id && id in order && |Without(order, id)| == |order| - 1
  {
    hide NamesActive, NamesNewest, PidsTracked;
    WithoutLists(processes, order, id);
  }

  // ----- whole runs

  datatype Step =
    | Start(id: string, name: string)
    | CreateFailed(id: string)
    | StartFailed(id: string)
    | NowRunning(id: string, pid: nat)
    | Reap(id: string)
    | Delete(reference: Reference, observed: bool, storeFails: bool)
    | BeginShutdown

  // How a process tracked at both ends of a step may have changed: its name stays, a
  // terminal process stays as it is, and a running one can only have exited.
  ghost predicate Moves(before: map<string, Info>, after: map<string, Info>) {
    forall id | id in before && id in after ::
      && after[id].name == before[id].name
      && (!before[id].state.Active() ==> after[id] == before[id])
      && (before[id].state == Running ==> after[id].state in {Running, Exited} && after[id].pid == before[id].pid)
  }

  // Nothing but its own failed creation makes the registry forget an active process.
  ghost predicate KeepsActive(before: map<string, Info>, after: map<string, Info>, step: Step) {
    forall id | id in ActiveIds(before) && step != CreateFailed(id) :: id in after
  }

  // One step of the service, if it applies.
  method Apply(registry: Registry, step: Step) returns (refused: bool)
    requires registry.Valid()
    modifies registry
    ensures registry.Valid() && !refused
    ensures Moves(old(registry.processes), registry.processes)
    ensures KeepsActive(old(registry.processes), registry.processes, step)
  {
    hide registry.Consistent, OldestTerminal, Without, Agree;
    refused := false;
    match step
    case Start(id, name) =>
      if id !in registry.processes {
        var r := registry.Start(id, name);
        refused := r == HistoryLimit;
      }
    case CreateFailed(id) =>
      if id in registry.processes && registry.processes[id].state == Starting {
        registry.CreateFailed(id);
      }
    case StartFailed(id) =>
      if id in registry.processes && registry.processes[id].state == Starting {
        registry.StartFailed(id);
      }
    case NowRunning(id, pid) =>
      if id in registry.processes && registry.processes[id].state == Starting && registry.processes[id].pid == 0
        && pid > 0 {
        registry.NowRunning(id, pid);
      }
    case Reap(id) =>
      if id in registry.processes && registry.processes[id].state == Running {
        registry.Reap(id);
      }
    case Delete(reference, observed, storeFails) =>
      var _ := registry.Delete(reference, observed, storeFails);
    case BeginShutdown => registry.BeginShutdown();
  }

  // The processes tracked before the first step and after each.
  ghost predicate RunOf(trace: seq<map<string, Info>>, steps: seq<Step>) {
    && |trace| == |steps| + 1
    && forall i | 0 <= i < |steps| :: Moves(trace[i], trace[i + 1]) && KeepsActive(trace[i], trace[i + 1], steps[i])
  }

  ghost predicate TrackedFrom(trace: seq<map<string, Info>>, i: nat, j: nat, id: string) {
    i <= j < |trace| && forall k | i <= k <= j :: id in trace[k]
  }

  // A process that ended stays as it is for as long as it is tracked, and no process is
  // ever tracked under another name.
  ghost predicate EndedStay(trace: seq<map<string, Info>>) {
    forall i: nat, j: nat, id | TrackedFrom(trace, i, j, id) ::
      trace[j][id].name == trace[i][id].name && (!trace[i][id].state.Active() ==> trace[j][id] == trace[i][id])
  }

  // An active process is tracked until it ends, unless its own creation fails.
  ghost predicate ActiveAreTracked(trace: seq<map<string, Info>>, steps: seq<Step>) {
    forall i: nat, j: nat, id | ActiveUntil(trace, i, j, id) && CreateFailed(id) !in steps ::
      TrackedFrom(trace, i, j, id)
  }

  ghost predicate ActiveUntil(trace: seq<map<string, Info>>, i: nat, j: nat, id: string) {
    && i <= j < |trace| && id in trace[i]
    && forall k | i <= k < j && id in trace[k] :: trace[k][id].state.Active()
  }

  lemma {:induction false} EndedStays(trace: seq<map<string, Info>>, steps: seq<Step>, i: nat, j: nat, id: string)
    requires RunOf(trace, steps) && TrackedFrom(trace, i, j, id)
    ensures trace[j][id].name == trace[i][id].name
    ensures !trace[i][id].state.Active() ==> trace[j][id] == trace[i][id]
    decreases j - i
  {
    if i < j {
      EndedStays(trace, steps, i, j - 1, id);
      assert Moves(trace[j - 1], trace[j - 1 + 1]);
    }
  }

  lemma {:induction false} ActiveIsTracked(trace: seq<map<string, Info>>, steps: seq<Step>, i: nat, j: nat, id: string)
    requires RunOf(trace, steps) && ActiveUntil(trace, i, j, id) && CreateFailed(id) !in steps
    ensures TrackedFrom(trace, i, j, id)
    decreases j - i
  {
    if i < j {
      ActiveIsTracked(trace, steps, i, j - 1, id);
      assert id in trace[j - 1] && id in ActiveIds(trace[j - 1]);
      assert KeepsActive(trace[j - 1], trace[j - 1 + 1], steps[j - 1]);
    }
  }

  // Over every run the registry stays consistent, the history limit is never reported, ended
  // processes stay as they are while they are tracked, and active ones stay tracked. `trace`
  // is what was tracked before the first step and after each.
  method Run(maxProcesses: nat, found: seq<Info>, steps: seq<Step>)
    returns (registry: Registry, refused: bool, ghost trace: seq<map<string, Info>>)
    requires maxProcesses <= MAX_TRACKED
    requires forall i, j | 0 <= i < j < |found| :: found[i].id != found[j].id
    requires forall i | 0 <= i < |found| :: found[i].state != Starting && found[i].state != Running
    ensures registry.Valid() && !refused
    ensures RunOf(trace, steps) && trace[|steps|] == registry.processes
    ensures EndedStay(trace) && ActiveAreTracked(trace, steps)
  {
    hide Agree, Moves, KeepsActive, TrackedFrom;
    registry := new Registry(maxProcesses, found);
    refused, trace := false, [registry.processes];
    for i := 0 to |steps|
      invariant registry.Valid() && !refused && fresh(registry)
      invariant |trace| == i + 1 && trace[i] == registry.processes
      invariant forall j | 0 <= j < i :: Moves(trace[j], trace[j + 1]) && KeepsActive(trace[j], trace[j + 1], steps[j])
    {
      refused := Apply(registry, steps[i]);
      trace := trace + [registry.processes];
    }
    RunFacts(trace, steps);
  }

  lemma RunFacts(trace: seq<map<string, Info>>, steps: seq<Step>)
    requires RunOf(trace, steps)
    ensures EndedStay(trace) && ActiveAreTracked(trace, steps)
  {
    hide RunOf;
    forall i: nat, j: nat, id | TrackedFrom(trace, i, j, id)
      ensures trace[j][id].name == trace[i][id].name && (!trace[i][id].state.Active() ==> trace[j][id] == trace[i][id])
    {
      EndedStays(trace, steps, i, j, id);
    }
    forall i: nat, j: nat, id | ActiveUntil(trace, i, j, id) && CreateFailed(id) !in steps
      ensures TrackedFrom(trace, i, j, id)
    {
      ActiveIsTracked(trace, steps, i, j, id);
    }
  }
}
