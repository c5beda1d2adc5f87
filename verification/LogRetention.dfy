// Keeping all process logs together within one size: logs past their age give up
// everything, then the others give up their oldest segments in turn.
module LogRetention {
  import opened Options
  import opened LogSegment
  import opened LogStore
  import opened ProcessLogs

  function Sum(sizes: seq<nat>): nat {
    if sizes == [] then 0 else Sum(sizes[..|sizes| - 1]) + sizes[|sizes| - 1]
  }

  lemma {:induction false} SumWith(sizes: seq<nat>, i: nat, size: nat)
    requires i < |sizes|
    ensures Sum(sizes[i := size]) + sizes[i] == Sum(sizes) + size
  {
    var init := sizes[..|sizes| - 1];
    if i < |init| {
      SumWith(init, i, size);
      assert sizes[i := size][..|sizes| - 1] == init[i := size];
    } else {
      assert sizes[i := size][..|sizes| - 1] == init;
    }
  }

  // ----- what a turn each, in order, comes to

  // How many segments a log may give up: none while observed, and never the active one.
  function Spare(segs: seq<Segment>, active: bool, observed: bool): (n: nat)
    ensures n <= |segs|
  {
    if observed || segs == [] then 0 else |segs| - if active then 1 else 0
  }

  // What is left of a log that can spare that many segments after a number of turns.
  function Left(segs: seq<Segment>, spare: nat, turns: nat): seq<Segment>
    requires spare <= |segs|
  {
    segs[if turns < spare then turns else spare..]
  }

  // Turns the log at index j had when `at` logs took theirs in the round after `rounds` whole ones.
  function Turns(rounds: nat, at: nat, j: nat): nat {
    rounds + if j < at then 1 else 0
  }

  ghost predicate Fitting(all: seq<seq<Segment>>, spares: seq<nat>) {
    |spares| == |all| && forall j | 0 <= j < |all| :: spares[j] <= |all[j]|
  }

  ghost function SizesAt(all: seq<seq<Segment>>, spares: seq<nat>, rounds: nat, at: nat): seq<nat>
    requires Fitting(all, spares)
  {
    seq(|all|, j requires 0 <= j < |all| => DiskBytes(Left(all[j], spares[j], Turns(rounds, at, j))))
  }

  ghost function TotalAt(all: seq<seq<Segment>>, spares: seq<nat>, rounds: nat, at: nat): nat
    requires Fitting(all, spares)
  {
    Sum(SizesAt(all, spares, rounds, at))
  }

  // At every earlier point of the rounds the logs took more than the limit.
  ghost predicate OverBefore(all: seq<seq<Segment>>, spares: seq<nat>, rounds: nat, at: nat, maxTotal: nat)
    requires Fitting(all, spares)
  {
    forall r: nat, i: nat | r < rounds || (r == rounds && i < at) :: TotalAt(all, spares, r, i) > maxTotal || i > |all|
  }

  // No log can spare another segment.
  ghost predicate Exhausted(spares: seq<nat>, rounds: nat, at: nat) {
    forall j | 0 <= j < |spares| :: spares[j] <= Turns(rounds, at, j)
  }

  lemma NextTurn(all: seq<seq<Segment>>, spares: seq<nat>, rounds: nat, i: nat)
    requires Fitting(all, spares) && i < |all|
    ensures TotalAt(all, spares, rounds, i + 1) + DiskBytes(Left(all[i], spares[i], rounds))
         == TotalAt(all, spares, rounds, i) + DiskBytes(Left(all[i], spares[i], rounds + 1))
  {
    hide DiskBytes, Left, Sum;
    var sizes := SizesAt(all, spares, rounds, i);
    SumWith(sizes, i, DiskBytes(Left(all[i], spares[i], rounds + 1)));
    assert SizesAt(all, spares, rounds, i + 1) == sizes[i := DiskBytes(Left(all[i], spares[i], rounds + 1))];
  }

  lemma NextRound(all: seq<seq<Segment>>, spares: seq<nat>, rounds: nat)
    requires Fitting(all, spares)
    ensures TotalAt(all, spares, rounds, |all|) == TotalAt(all, spares, rounds + 1, 0)
    ensures Exhausted(spares, rounds, |all|) == Exhausted(spares, rounds + 1, 0)
  {
    hide DiskBytes, Left;
    assert SizesAt(all, spares, rounds, |all|) == SizesAt(all, spares, rounds + 1, 0);
  }

  // ----- the logs

  ghost predicate AllValid(logs: seq<ProcessLog>)
    reads logs
  {
    && (forall i | 0 <= i < |logs| :: logs[i].Valid())
    && (forall i, j | 0 <= i < j < |logs| :: logs[i] != logs[j])
  }

  // The logs hold what is left of `all` at a point of the rounds.
  ghost predicate Stands(logs: seq<ProcessLog>, all: seq<seq<Segment>>, spares: seq<nat>, rounds: nat, at: nat)
    reads logs
  {
    && Fitting(all, spares) && |all| == |logs|
    && (forall j | 0 <= j < |logs| :: spares[j] == Spare(all[j], logs[j].active, logs[j].observers > 0))
    && (forall j | 0 <= j < |logs| :: logs[j].segments == Left(all[j], spares[j], Turns(rounds, at, j)))
  }

  // Retention leaves a log being observed alone, and never changes what was written.
  twostate predicate OnlyTrimmed(log: ProcessLog)
    reads log
  {
    && log.observers == old(log.observers) && log.records == old(log.records) && log.next == old(log.next)
    && log.active == old(log.active) && log.finalized == old(log.finalized)
    && (old(log.observers) > 0 ==> log.segments == old(log.segments) && log.earliest == old(log.earliest))
  }

  lemma FirstIsMeasured(segs: seq<Segment>)
    requires segs != []
    ensures DiskBytes(segs[1..]) <= DiskBytes(segs)
  {
  }

  lemma LeftOnce(segs: seq<Segment>, active: bool, observed: bool, turns: nat)
    requires active ==> Left(segs, Spare(segs, active, observed), turns) != []
    ensures var spare := Spare(segs, active, observed); var now := Left(segs, spare, turns);
      if !observed && now != [] && !(active && |now| == 1)
      then turns < spare && Left(segs, spare, turns + 1) == now[1..]
      else spare <= turns && Left(segs, spare, turns + 1) == now
  {
  }

  // One log's turn: it gives up its oldest segment, if it can.
  method TrimOne(logs: seq<ProcessLog>, i: nat, ghost all: seq<seq<Segment>>, ghost spares: seq<nat>, ghost rounds: nat)
    returns (freed: nat, removed: bool)
    requires i < |logs| && AllValid(logs) && Stands(logs, all, spares, rounds, i)
    modifies logs[i]
    ensures AllValid(logs) && Stands(logs, all, spares, rounds, i + 1) && OnlyTrimmed(logs[i])
    ensures removed <==> rounds < spares[i]
    ensures TotalAt(all, spares, rounds, i + 1) + freed == TotalAt(all, spares, rounds, i)
    ensures !removed ==> freed == 0
  {
    hide ProcessLog.Valid, DiskBytes, Left, TotalAt;
    ActiveHasSegment(logs[i]);
    LeftOnce(all[i], logs[i].active, logs[i].observers > 0, rounds);
    NextTurn(all, spares, rounds, i);
    if logs[i].segments != [] {
      FirstIsMeasured(logs[i].segments);
    }
    var before := DiskBytes(logs[i].segments);
    removed := logs[i].TrimOldest();
    freed := if removed then before - DiskBytes(logs[i].segments) else 0;
  }

  lemma ActiveHasSegment(log: ProcessLog)
    requires log.Valid()
    ensures log.active ==> log.segments != []
  {
    hide IsStore;
  }

  ghost predicate SomeGave(spares: seq<nat>, rounds: nat, at: nat) {
    exists j :: 0 <= j < at && j < |spares| && rounds < spares[j]
  }

  lemma NobodyGave(spares: seq<nat>, rounds: nat, i: nat)
    ensures SomeGave(spares, rounds, i + 1) <==> SomeGave(spares, rounds, i) || (i < |spares| && rounds < spares[i])
    ensures !SomeGave(spares, rounds, 0)
  {
  }

  lemma StandsFits(logs: seq<ProcessLog>, all: seq<seq<Segment>>, spares: seq<nat>, rounds: nat, at: nat)
    requires Stands(logs, all, spares, rounds, at)
    ensures Fitting(all, spares) && |all| == |logs|
  {
  }

  // One round: every log that can spare a segment gives up exactly one, in order, up to
  // the log after which the total fits.
  method TrimRound(logs: seq<ProcessLog>, total: nat, maxTotal: nat,
                   ghost all: seq<seq<Segment>>, ghost spares: seq<nat>, ghost rounds: nat)
    returns (left: nat, removed: bool, ghost at: nat)
    requires AllValid(logs) && Stands(logs, all, spares, rounds, 0)
      && total == TotalAt(all, spares, rounds, 0) > maxTotal
    requires OverBefore(all, spares, rounds, 0, maxTotal)
    modifies set i | 0 <= i < |logs| :: logs[i]
    ensures AllValid(logs) && Stands(logs, all, spares, rounds, at) && at <= |logs|
    ensures left == TotalAt(all, spares, rounds, at) && OverBefore(all, spares, rounds, at, maxTotal)
    ensures left <= maxTotal || at == |logs|
    ensures removed <==> SomeGave(spares, rounds, at)
    ensures forall i | 0 <= i < |logs| :: OnlyTrimmed(logs[i])
  {
    hide AllValid, TotalAt, Left, Spare, OverBefore, Stands, SomeGave;
    StandsFits(logs, all, spares, rounds, 0);
    NobodyGave(spares, rounds, 0);
    left, removed, at := total, false, 0;
    for i := 0 to |logs|
      invariant AllValid(logs) && Stands(logs, all, spares, rounds, i)
      invariant Fitting(all, spares) && |all| == |logs|
      invariant left == TotalAt(all, spares, rounds, i) > maxTotal && OverBefore(all, spares, rounds, i, maxTotal)
      invariant removed <==> SomeGave(spares, rounds, i)
      invariant forall j | 0 <= j < |logs| :: OnlyTrimmed(logs[j])
    {
      Distinct(logs);
      OverAlso(all, spares, rounds, i, maxTotal);
      NobodyGave(spares, rounds, i);
      var freed, trimmed := TrimOne(logs, i, all, spares, rounds);
      left := left - freed;
      if trimmed {
        removed := true;
        if left <= maxTotal {
          at := i + 1;
          return;
        }
      }
    }
    at := |logs|;
  }

  lemma OverAlso(all: seq<seq<Segment>>, spares: seq<nat>, rounds: nat, i: nat, maxTotal: nat)
    requires Fitting(all, spares) && OverBefore(all, spares, rounds, i, maxTotal)
      && TotalAt(all, spares, rounds, i) > maxTotal
    ensures OverBefore(all, spares, rounds, i + 1, maxTotal)
  {
    hide TotalAt;
  }

  lemma OverNextRound(all: seq<seq<Segment>>, spares: seq<nat>, rounds: nat, maxTotal: nat)
    requires Fitting(all, spares) && OverBefore(all, spares, rounds, |all|, maxTotal)
      && TotalAt(all, spares, rounds, |all|) > maxTotal
    ensures OverBefore(all, spares, rounds + 1, 0, maxTotal)
  {
    hide TotalAt;
  }

  lemma Distinct(logs: seq<ProcessLog>)
    requires AllValid(logs)
    ensures forall i, j | 0 <= i < j < |logs| :: logs[i] != logs[j]
  {
  }

  // ----- the pass

  // A log with what retention goes by: its process's state and times.
  datatype Candidate = Candidate(log: ProcessLog, active: bool, created: int, exited: Option<int>)

  predicate Aged(c: Candidate, retention: int, now: int) {
    retention > 0 && !c.active && c.exited.Some? && now - c.exited.value >= retention
  }

  // The order logs take turns in: ended processes first, the oldest first.
  predicate Before(a: Candidate, b: Candidate) {
    (!a.active && b.active) || (a.active == b.active && a.created < b.created)
  }

  ghost predicate InOrder(cs: seq<Candidate>) {
    forall i, j | 0 <= i < j < |cs| :: !Before(cs[j], cs[i])
  }

  method Insert(cs: seq<Candidate>, c: Candidate) returns (more: seq<Candidate>)
    requires InOrder(cs) && DistinctLogs(cs) && forall x | x in cs :: x.log != c.log
    ensures InOrder(more) && DistinctLogs(more) && multiset(more) == multiset(cs) + multiset{c}
    ensures forall x :: x in more <==> x in cs || x == c
  {
    hide InOrder, Before, DistinctLogs;
    var i := |cs|;
    while i > 0 && Before(c, cs[i - 1])
      invariant 0 <= i <= |cs|
      invariant forall j | i <= j < |cs| :: Before(c, cs[j])
    {
      i := i - 1;
    }
    more := cs[..i] + [c] + cs[i..];
    assert cs == cs[..i] + cs[i..];
    InsertKeepsOrder(cs, i, c);
    InsertKeepsDistinct(cs, i, c);
  }

  lemma InsertKeepsDistinct(cs: seq<Candidate>, i: nat, c: Candidate)
    requires DistinctLogs(cs) && i <= |cs| && forall x | x in cs :: x.log != c.log
    ensures DistinctLogs(cs[..i] + [c] + cs[i..])
  {
  }

  lemma InsertKeepsOrder(cs: seq<Candidate>, i: nat, c: Candidate)
    requires InOrder(cs) && i <= |cs|
    requires i > 0 ==> !Before(c, cs[i - 1])
    requires forall j | i <= j < |cs| :: Before(c, cs[j])
    ensures InOrder(cs[..i] + [c] + cs[i..])
  {
    forall j | 0 <= j < i
      ensures !Before(c, cs[j])
    {
      assert j < i - 1 ==> !Before(cs[i - 1], cs[j]);
    }
    forall j | i <= j < |cs|
      ensures !Before(cs[j], c)
    {
      assert Before(c, cs[j]);
    }
  }

  method SortCandidates(cs: seq<Candidate>) returns (sorted: seq<Candidate>)
    requires DistinctLogs(cs)
    ensures InOrder(sorted) && DistinctLogs(sorted) && multiset(sorted) == multiset(cs)
    ensures forall x :: x in sorted <==> x in cs
  {
    sorted := [];
    for i := 0 to |cs|
      invariant InOrder(sorted) && DistinctLogs(sorted) && multiset(sorted) == multiset(cs[..i])
      invariant forall x :: x in sorted <==> x in cs[..i]
    {
      hide InOrder;
      assert cs[..i + 1] == cs[..i] + [cs[i]];
      sorted := Insert(sorted, cs[i]);
    }
    assert cs[..|cs|] == cs;
  }

  function LogsOf(cs: seq<Candidate>): seq<ProcessLog> {
    seq(|cs|, i requires 0 <= i < |cs| => cs[i].log)
  }

  ghost predicate DistinctLogs(cs: seq<Candidate>) {
    forall i, j | 0 <= i < j < |cs| :: cs[i].log != cs[j].log
  }

  // Gives up everything of the logs past their age.
  method ExpireAged(cs: seq<Candidate>, retention: int, now: int)
    requires AllValid(LogsOf(cs))
    modifies set i | 0 <= i < |cs| :: cs[i].log
    ensures AllValid(LogsOf(cs))
    ensures forall i | 0 <= i < |cs| :: OnlyTrimmed(cs[i].log)
    ensures forall i | 0 <= i < |cs| :: var log := cs[i].log;
      var expires := Aged(cs[i], retention, now) && log.finalized && log.observers == 0;
      log.segments == (if expires then [] else old(log.segments)) && log.expired == (expires || old(log.expired))
  {
    hide ProcessLog.Valid;
    assert forall i | 0 <= i < |cs| :: LogsOf(cs)[i] == cs[i].log;
    for i := 0 to |cs|
      invariant AllValid(LogsOf(cs))
      invariant forall j | 0 <= j < |cs| :: OnlyTrimmed(cs[j].log)
      invariant forall j | 0 <= j < i :: var log := cs[j].log;
        var expires := Aged(cs[j], retention, now) && log.finalized && log.observers == 0;
        log.segments == (if expires then [] else old(log.segments)) && log.expired == (expires || old(log.expired))
      invariant forall j | i <= j < |cs| ::
        cs[j].log.segments == old(cs[j].log.segments) && cs[j].log.expired == old(cs[j].log.expired)
    {
      if Aged(cs[i], retention, now) {
        var _ := cs[i].log.Expire();
      }
    }
  }

  // The logs' sizes, measured one by one.
  method Measure(logs: seq<ProcessLog>, ghost all: seq<seq<Segment>>, ghost spares: seq<nat>) returns (total: nat)
    requires Stands(logs, all, spares, 0, 0)
    ensures total == TotalAt(all, spares, 0, 0)
  {
    hide DiskBytes;
    total := 0;
    ghost var sizes := SizesAt(all, spares, 0, 0);
    for i := 0 to |logs|
      invariant total == Sum(sizes[..i])
    {
      assert sizes[..i + 1][..i] == sizes[..i];
      total := total + DiskBytes(logs[i].segments);
    }
    assert sizes[..|logs|] == sizes;
  }

  ghost function SegmentsOf(logs: seq<ProcessLog>): seq<seq<Segment>>
    reads logs
  {
    seq(|logs|, i requires 0 <= i < |logs| reads logs => logs[i].segments)
  }

  ghost function SparesOf(logs: seq<ProcessLog>): seq<nat>
    reads logs
  {
    seq(|logs|, i requires 0 <= i < |logs| reads logs => Spare(logs[i].segments, logs[i].active, logs[i].observers > 0))
  }

  // Logs give up segments in rounds until the total fits or no log can spare one: no
  // segment more than that, and what each gives is what its turns come to.
  method TrimAll(logs: seq<ProcessLog>, maxTotal: nat) returns (ghost rounds: nat, ghost at: nat)
    requires AllValid(logs)
    modifies set i | 0 <= i < |logs| :: logs[i]
    ensures AllValid(logs) && at <= |logs| && Stands(logs, old(SegmentsOf(logs)), old(SparesOf(logs)), rounds, at)
    ensures OverBefore(old(SegmentsOf(logs)), old(SparesOf(logs)), rounds, at, maxTotal)
    ensures TotalAt(old(SegmentsOf(logs)), old(SparesOf(logs)), rounds, at) <= maxTotal
            || Exhausted(old(SparesOf(logs)), rounds, at)
    ensures forall i | 0 <= i < |logs| :: OnlyTrimmed(logs[i])
  {
    hide AllValid, TotalAt, Left, Spare, OverBefore, Stands, SegmentsOf, SparesOf;
    ghost var all, spares := SegmentsOf(logs), SparesOf(logs);
    AtTheStart(logs, maxTotal);
    ghost var most := BoundOf(spares);
    var total := Measure(logs, all, spares);
    rounds, at := 0, 0;
    while total > maxTotal
      invariant at == 0 && AllValid(logs) && Fitting(all, spares) && |all| == |logs|
        && Stands(logs, all, spares, rounds, 0)
      invariant total == TotalAt(all, spares, rounds, 0) && OverBefore(all, spares, rounds, 0, maxTotal)
      invariant forall i | 0 <= i < |logs| :: OnlyTrimmed(logs[i])
      decreases if rounds <= most then 1 + most - rounds else 0
    {
      var removed;
      total, removed, at := TrimRound(logs, total, maxTotal, all, spares, rounds);
      if total <= maxTotal || !removed {
        return;
      }
      OverNextRound(all, spares, rounds, maxTotal);
      NextRound(all, spares, rounds);
      StandsNext(logs, all, spares, rounds);
      rounds, at := rounds + 1, 0;
    }
  }

  lemma AtTheStart(logs: seq<ProcessLog>, maxTotal: nat)
    ensures Stands(logs, SegmentsOf(logs), SparesOf(logs), 0, 0) && Fitting(SegmentsOf(logs), SparesOf(logs))
    ensures OverBefore(SegmentsOf(logs), SparesOf(logs), 0, 0, maxTotal) && |SegmentsOf(logs)| == |logs|
  {
    hide TotalAt;
  }

  lemma StandsNext(logs: seq<ProcessLog>, all: seq<seq<Segment>>, spares: seq<nat>, rounds: nat)
    requires Stands(logs, all, spares, rounds, |logs|)
    ensures Stands(logs, all, spares, rounds + 1, 0)
  {
    hide Left, Spare;
  }

  lemma {:induction false} BoundOf(spares: seq<nat>) returns (most: nat)
    ensures forall j | 0 <= j < |spares| :: spares[j] <= most
  {
    most := 0;
    if spares != [] {
      most := BoundOf(spares[..|spares| - 1]);
      most := most + spares[|spares| - 1];
    }
  }

  // What a log holds for the rounds: nothing once it is past its age.
  twostate function Unaged(c: Candidate, retention: int, now: int): seq<Segment>
    reads c.log
  {
    if Aged(c, retention, now) && old(c.log.finalized) && old(c.log.observers) == 0 then [] else old(c.log.segments)
  }

  // Retention over all logs. Logs past their age are emptied; then, if the rest takes too
  // much, the logs take turns, those of ended processes first and the oldest first.
  method EnforceLogRetention(cs: seq<Candidate>, retention: int, now: int, maxTotal: nat)
    returns (order: seq<Candidate>, ghost all: seq<seq<Segment>>, ghost spares: seq<nat>, ghost rounds: nat,
        ghost at: nat)
    requires AllValid(LogsOf(cs))
    modifies set i | 0 <= i < |cs| :: cs[i].log
    ensures AllValid(LogsOf(order)) && InOrder(order) && multiset(order) == multiset(cs)
    ensures |all| == |order| && Stands(LogsOf(order), all, spares, rounds, at)
    ensures forall i, j | 0 <= i < |order| && 0 <= j < |cs| && order[i] == cs[j] ::
      all[i] == Unaged(cs[j], retention, now)
    ensures OverBefore(all, spares, rounds, at, maxTotal)
    ensures TotalAt(all, spares, rounds, at) <= maxTotal || Exhausted(spares, rounds, at)
    ensures forall i | 0 <= i < |cs| :: OnlyTrimmed(cs[i].log)
  {
    hide TotalAt, Stands, OverBefore, Exhausted;
    ExpireAged(cs, retention, now);
    DistinctCandidates(cs);
    order := SortCandidates(cs);
    SameLogs(cs, order);
    all, spares := SegmentsOf(LogsOf(order)), SparesOf(LogsOf(order));
    rounds, at := TrimAll(LogsOf(order), maxTotal);
  }

  lemma DistinctCandidates(cs: seq<Candidate>)
    requires AllValid(LogsOf(cs))
    ensures DistinctLogs(cs)
  {
    forall i, j | 0 <= i < j < |cs|
      ensures cs[i].log != cs[j].log
    {
      assert LogsOf(cs)[i] != LogsOf(cs)[j];
    }
  }

  lemma SameLogs(cs: seq<Candidate>, order: seq<Candidate>)
    requires AllValid(LogsOf(cs)) && DistinctLogs(order) && forall x :: x in order <==> x in cs
    ensures AllValid(LogsOf(order))
    ensures forall i | 0 <= i < |order| :: LogsOf(order)[i] in LogsOf(cs)
    ensures forall k | 0 <= k < |cs| :: cs[k].log in LogsOf(order)
  {
    hide ProcessLog.Valid;
    var a, b := LogsOf(cs), LogsOf(order);
    forall i | 0 <= i < |order|
      ensures b[i].Valid() && b[i] in a
    {
      assert order[i] in cs;
      var k :| 0 <= k < |cs| && cs[k] == order[i];
      assert a[k] == b[i];
    }
    forall k | 0 <= k < |cs|
      ensures cs[k].log in b
    {
      assert cs[k] in order;
      var i :| 0 <= i < |order| && order[i] == cs[k];
      assert b[i] == cs[k].log;
    }
  }
}
