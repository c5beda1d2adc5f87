// The static policy of tool scripts: what the analysis of a script's syntax tree accepts,
// and what that guarantees about every evaluation.
module ScriptPolicy {
  import opened Options

  // ----- the host functions a script can call

  datatype Effect = Read | Mutate | Destructive {
    function Rank(): nat {
      match this case Read => 0 case Mutate => 1 case Destructive => 2
    }
  }

  datatype Definition = Definition(name: string, capability: string, effect: Effect, arity: nat)

  function HostCatalog(): map<string, Definition> {
    map[
      "controller_info" := Definition("controller_info", "controller.read", Read, 0),
      "file_stat" := Definition("file_stat", "files.read", Read, 1),
      "file_list" := Definition("file_list", "files.read", Read, 1),
      "file_tree" := Definition("file_tree", "files.read", Read, 1),
      "file_read_text" := Definition("file_read_text", "files.read", Read, 2),
      "file_read_range" := Definition("file_read_range", "files.read", Read, 4),
      "file_search" := Definition("file_search", "files.read", Read, 1),
      "file_write_text" := Definition("file_write_text", "files.write", Destructive, 4),
      "file_apply_patch" := Definition("file_apply_patch", "files.write", Destructive, 3),
      "file_mkdir" := Definition("file_mkdir", "files.write", Mutate, 3),
      "file_move" := Definition("file_move", "files.write", Destructive, 3),
      "file_chmod" := Definition("file_chmod", "files.write", Mutate, 2),
      "file_remove" := Definition("file_remove", "files.delete", Destructive, 2),
      "process_start" := Definition("process_start", "processes.start", Mutate, 1),
      "process_list" := Definition("process_list", "processes.read", Read, 1),
      "process_get" := Definition("process_get", "processes.read", Read, 1),
      "process_signal" := Definition("process_signal", "processes.signal", Destructive, 3),
      "process_delete" := Definition("process_delete", "processes.delete", Destructive, 1),
      "process_logs" := Definition("process_logs", "processes.read", Read, 4),
      "process_logs_since" := Definition("process_logs_since", "processes.read", Read, 4),
      "process_template_list" := Definition("process_template_list", "process_templates.read", Read, 0),
      "process_template_get" := Definition("process_template_get", "process_templates.read", Read, 1),
      "process_template_start" := Definition("process_template_start", "process_templates.start", Mutate, 1)
    ]
  }

  // Every function is listed under its own name, with an arity the runtime can bind.
  lemma CatalogIsConsistent(name: string)
    requires name in HostCatalog()
    ensures HostCatalog()[name].name == name && HostCatalog()[name].arity <= 4
  {
  }

  // ----- syntax trees

  datatype Node =
    | Absent
    | Leaf
    | Identifier(name: string)
    | Unary(node: Node)
    | Binary(operator: string, left: Node, right: Node)
    | Chain(node: Node)
    | Member(node: Node, property: Node)
    | Slice(node: Node, from: Node, to: Node)
    | Call(callee: Node, arguments: seq<Node>)
    | Builtin(name: string, arguments: seq<Node>)
    | Predicate(node: Node)
    | Declare(value: Node, expr: Node)
    | Sequence(nodes: seq<Node>)
    | Conditional(cond: Node, exp1: Node, exp2: Node)
    | Array(nodes: seq<Node>)
    | Map(pairs: seq<Node>)
    | Pair(key: Node, value: Node)
  {
    function Children(): (r: seq<Node>)
      ensures forall i | 0 <= i < |r| :: r[i] < this
    {
      match this
      case Absent => []
      case Leaf => []
      case Identifier(_) => []
      case Unary(n) => [n]
      case Binary(_, l, r) => [l, r]
      case Chain(n) => [n]
      case Member(n, p) => [n, p]
      case Slice(n, f, t) => [n, f, t]
      case Call(c, a) => [c] + a
      case Builtin(_, a) => a
      case Predicate(n) => [n]
      case Declare(v, e) => [v, e]
      case Sequence(ns) => ns
      case Conditional(c, a, b) => [c, a, b]
      case Array(ns) => ns
      case Map(ps) => ps
      case Pair(k, v) => [k, v]
    }

    // The host function a call node calls by name, if it does.
    function HostName(): Option<string> {
      if Call? && callee.Identifier? && callee.name in HostCatalog() then Some(callee.name) else None
    }
  }

  // ----- what a tree contains; each function's partner covers its first k children

  // The number of nodes.
  function Count(n: Node): nat
    decreases n, |n.Children()| + 1
  {
    if n.Absent? then 0 else 1 + CountFirst(n, |n.Children()|)
  }

  function CountFirst(n: Node, k: nat): nat
    requires k <= |n.Children()|
    decreases n, k
  {
    if k == 0 then 0 else CountFirst(n, k - 1) + Count(n.Children()[k - 1])
  }

  // The number of collection calls.
  function Collections(n: Node): nat
    decreases n, |n.Children()| + 1
  {
    (if n.Builtin? then 1 else 0) + CollectionsFirst(n, |n.Children()|)
  }

  function CollectionsFirst(n: Node, k: nat): nat
    requires k <= |n.Children()|
    decreases n, k
  {
    if k == 0 then 0 else CollectionsFirst(n, k - 1) + Collections(n.Children()[k - 1])
  }

  // A call site: the function called and where in the tree the call stands.
  datatype Site = Site(name: string, path: seq<nat>)

  // The host call sites, innermost and leftmost first.
  function Sites(n: Node, path: seq<nat>): (r: seq<Site>)
    decreases n, |n.Children()| + 1
  {
    SitesFirst(n, path, |n.Children()|) + (if n.HostName().Some? then [Site(n.HostName().value, path)] else [])
  }

  function SitesFirst(n: Node, path: seq<nat>, k: nat): (r: seq<Site>)
    requires k <= |n.Children()|
    decreases n, k
  {
    if k == 0 then [] else SitesFirst(n, path, k - 1) + Sites(n.Children()[k - 1], path + [k - 1])
  }

  // What a node may be at a depth inside so many predicates.
  const MAX_DEPTH := 64

  predicate NodeAllowed(n: Node, depth: nat, predicates: nat) {
    && depth <= MAX_DEPTH
    && (n.HostName().Some? ==> predicates == 0 && |n.arguments| == HostCatalog()[n.HostName().value].arity)
    && !(n.Binary? && n.operator == "..")
    && !(n.Call? && n.callee == Identifier("repeat"))
    && !(n.Builtin? && n.name == "repeat")
    && !(n.Predicate? && predicates >= 2)
  }

  function Inside(n: Node, predicates: nat): nat {
    if n.Predicate? then predicates + 1 else predicates
  }

  // Every node of the tree is allowed where it stands.
  predicate Allowed(n: Node, depth: nat, predicates: nat)
    decreases n, |n.Children()| + 1
  {
    n.Absent? || (NodeAllowed(n, depth, predicates) && AllowedFirst(n, depth, predicates, |n.Children()|))
  }

  predicate AllowedFirst(n: Node, depth: nat, predicates: nat, k: nat)
    requires k <= |n.Children()|
    decreases n, k
  {
    k == 0 || (AllowedFirst(n, depth, predicates, k - 1)
      && Allowed(n.Children()[k - 1], depth + 1, Inside(n, predicates)))
  }

  predicate IsMutating(name: string) {
    name in HostCatalog() && HostCatalog()[name].effect != Read
  }

  function Mutating(sites: seq<Site>): (r: seq<Site>) {
    if sites == [] then []
    else
      var last := sites[|sites| - 1];
      Mutating(sites[..|sites| - 1]) + (if IsMutating(last.name) then [last] else [])
  }

  function Names(sites: seq<Site>): set<string> {
    set s <- sites :: s.name
  }

  function Capabilities(names: set<string>): set<string> {
    set name | name in names && name in HostCatalog() :: HostCatalog()[name].capability
  }

  function Max(a: nat, b: nat): nat { if a < b then b else a }

  function Strongest(sites: seq<Site>): nat {
    if sites == [] then 0
    else
      var last := sites[|sites| - 1].name;
      Max(Strongest(sites[..|sites| - 1]), if last in HostCatalog() then HostCatalog()[last].effect.Rank() else 0)
  }

  lemma {:induction false} SitesAdd(a: seq<Site>, b: seq<Site>)
    ensures Mutating(a + b) == Mutating(a) + Mutating(b)
    ensures Names(a + b) == Names(a) + Names(b)
    ensures Strongest(a + b) == Max(Strongest(a), Strongest(b))
  {
    hide HostCatalog, IsMutating;
    if b == [] {
      assert a + b == a;
    } else {
      SitesAdd(a, b[..|b| - 1]);
      assert (a + b)[..|a + b| - 1] == a + b[..|b| - 1];
    }
  }

  // ----- what the analysis counts

  datatype Tally = Tally(
    nodes: nat, collections: nat, hostCalls: nat, mutations: nat, names: set<string>, strongest: nat)
  {
    function Plus(o: Tally): Tally {
      Tally(nodes + o.nodes, collections + o.collections, hostCalls + o.hostCalls, mutations + o.mutations,
        names + o.names, Max(strongest, o.strongest))
    }
  }

  ghost function TallyAt(n: Node, path: seq<nat>): Tally {
    var sites := Sites(n, path);
    Tally(Count(n), Collections(n), |sites|, |Mutating(sites)|, Names(sites), Strongest(sites))
  }

  ghost function TallyFirst(n: Node, path: seq<nat>, k: nat): Tally
    requires k <= |n.Children()|
  {
    var sites := SitesFirst(n, path, k);
    Tally(CountFirst(n, k), CollectionsFirst(n, k), |sites|, |Mutating(sites)|, Names(sites), Strongest(sites))
  }

  lemma TallyGrows(n: Node, path: seq<nat>, k: nat)
    requires k < |n.Children()|
    ensures TallyFirst(n, path, k + 1) == TallyFirst(n, path, k).Plus(TallyAt(n.Children()[k], path + [k]))
  {
    hide Mutating, Names, Strongest;
    SitesAdd(SitesFirst(n, path, k), Sites(n.Children()[k], path + [k]));
  }

  // What a node adds to what its children add.
  function Own(n: Node): Tally {
    var called := n.HostName();
    Tally(1, if n.Builtin? then 1 else 0, if called.Some? then 1 else 0,
      if called.Some? && IsMutating(called.value) then 1 else 0,
      if called.Some? then {called.value} else {},
      if called.Some? then HostCatalog()[called.value].effect.Rank() else 0)
  }

  lemma TallyWhole(n: Node, path: seq<nat>)
    requires !n.Absent?
    ensures TallyAt(n, path) == Own(n).Plus(TallyFirst(n, path, |n.Children()|))
  {
    hide HostCatalog, Mutating, Names, Strongest, IsMutating, SitesFirst, CountFirst, CollectionsFirst, Node.Children;
    var own := if n.HostName().Some? then [Site(n.HostName().value, path)] else [];
    OneSite(own);
    SitesAdd(SitesFirst(n, path, |n.Children()|), own);
  }

  lemma OneSite(own: seq<Site>)
    requires |own| <= 1
    ensures own == [] ==> Mutating(own) == [] && Names(own) == {} && Strongest(own) == 0
    ensures own != [] ==>
      && Mutating(own) == (if IsMutating(own[0].name) then own else [])
      && Names(own) == {own[0].name}
      && Strongest(own) == if own[0].name in HostCatalog() then HostCatalog()[own[0].name].effect.Rank() else 0
  {
    hide HostCatalog;
    if own != [] {
      assert own == [own[0]] && own[..0] == [];
    }
  }

  // ----- the analysis

  datatype Error =
    | TooDeep
    | WrongArity(name: string)
    | InPredicate(name: string)
    | RangeOperator
    | Repeats
    | PredicatesTooDeep

  class ScriptAnalysis {
    var nodes: nat
    var mutations: nat
    var hostCalls: nat
    var collectionCalls: nat
    var mutationName: string
    var strongest: Effect
    var required: set<string>
    var hostNames: set<string>
    var err: Option<Error>

    constructor ()
      ensures err.None? && Agrees() && Seen() == Tally(0, 0, 0, 0, {}, 0)
    {
      nodes, mutations, hostCalls, collectionCalls, mutationName := 0, 0, 0, 0, "";
      strongest, required, hostNames, err := Read, {}, {}, None;
    }

    ghost function Seen(): Tally
      reads this
    {
      Tally(nodes, collectionCalls, hostCalls, mutations, hostNames, strongest.Rank())
    }

    // The required capabilities are those of the functions seen; the mutation's name is one of them.
    ghost predicate Agrees()
      reads this
    {
      && required == Capabilities(hostNames)
      && (mutations > 0 ==> mutationName in hostNames && IsMutating(mutationName))
    }

    // Adds a host call's share to the counts, and checks it.
    method CountCall(n: Node, predicates: nat)
      requires err.None? && Agrees() && n.HostName().Some?
      modifies this
      ensures err.None? <==> predicates == 0 && |n.arguments| == HostCatalog()[n.callee.name].arity
      ensures err.None? ==> Agrees() && Seen() == old(Seen()).Plus(Own(n).(nodes := 0))
    {
      hide HostCatalog;
      var definition := HostCatalog()[n.callee.name];
      CatalogIsConsistent(n.callee.name);
      hostCalls := hostCalls + 1;
      if |n.arguments| != definition.arity {
        err := Some(WrongArity(definition.name));
        return;
      }
      required, hostNames := required + {definition.capability}, hostNames + {definition.name};
      if definition.effect.Rank() > strongest.Rank() {
        strongest := definition.effect;
      }
      if predicates > 0 {
        err := Some(InPredicate(definition.name));
        return;
      }
      if definition.effect != Read {
        mutations, mutationName := mutations + 1, definition.name;
      }
    }

    // Adds a node's own share to the counts, and checks it.
    method Enter(n: Node, depth: nat, predicates: nat)
      requires err.None? && Agrees() && !n.Absent?
      modifies this
      ensures err.None? <==> NodeAllowed(n, depth, predicates)
      ensures err.None? ==> Agrees() && Seen() == old(Seen()).Plus(Own(n))
    {
      hide HostCatalog, IsMutating, Capabilities;
      nodes := nodes + 1;
      if depth > MAX_DEPTH {
        err := Some(TooDeep);
        return;
      }
      if n.HostName().Some? {
        CountCall(n, predicates);
        if err.Some? {
          return;
        }
      }
      match n
      case Binary(operator, _, _) =>
        if operator == ".." {
          err := Some(RangeOperator);
        }
      case Call(callee, _) =>
        if callee == Identifier("repeat") {
          err := Some(Repeats);
        }
      case Builtin(name, _) =>
        if name == "repeat" {
          err := Some(Repeats);
        } else {
          collectionCalls := collectionCalls + 1;
        }
      case Predicate(_) =>
        if predicates >= 2 {
          err := Some(PredicatesTooDeep);
        }
      case _ =>
    }

    // Walks one tree: fails exactly if some node is not allowed where it stands, and
    // otherwise counts what the tree contains.
    method Walk(n: Node, depth: nat, predicates: nat, ghost path: seq<nat>)
      requires err.None? ==> Agrees()
      modifies this
      ensures old(err).Some? ==> err == old(err)
      ensures old(err).None? ==> (err.None? <==> Allowed(n, depth, predicates))
      ensures err.None? ==> Agrees() && Seen() == old(Seen()).Plus(TallyAt(n, path))
      decreases n
    {
      hide *;
      if n.Absent? || err.Some? {
        NothingAbsent(Seen(), depth, predicates, path);
        return;
      }
      WalkStarts(Seen(), n, depth, predicates, path);
      Enter(n, depth, predicates);
      if err.Some? {
        return;
      }
      var children := n.Children();
      for i := 0 to |children|
        invariant err.None? <==> AllowedFirst(n, depth, predicates, i)
        invariant err.None? ==> Agrees() && Seen() == old(Seen()).Plus(Own(n)).Plus(TallyFirst(n, path, i))
      {
        WalkGoesOn(old(Seen()).Plus(Own(n)), n, depth, predicates, path, i);
        Walk(children[i], depth + 1, Inside(n, predicates), path + [i]);
      }
      WalkEnds(old(Seen()), n, depth, predicates, path);
    }
  }

  lemma NothingAbsent(seen: Tally, depth: nat, predicates: nat, path: seq<nat>)
    ensures Allowed(Absent, depth, predicates) && seen.Plus(TallyAt(Absent, path)) == seen
  {
  }

  lemma WalkStarts(seen: Tally, n: Node, depth: nat, predicates: nat, path: seq<nat>)
    requires !n.Absent?
    ensures AllowedFirst(n, depth, predicates, 0) && seen.Plus(TallyFirst(n, path, 0)) == seen
    ensures seen.Plus(Own(n)).Plus(TallyFirst(n, path, 0)) == seen.Plus(Own(n))
    ensures Allowed(n, depth, predicates) ==> NodeAllowed(n, depth, predicates)
  {
    hide HostCatalog, Own, NodeAllowed;
  }

  lemma WalkGoesOn(seen: Tally, n: Node, depth: nat, predicates: nat, path: seq<nat>, k: nat)
    requires k < |n.Children()|
    ensures AllowedFirst(n, depth, predicates, k + 1) <==>
      AllowedFirst(n, depth, predicates, k) && Allowed(n.Children()[k], depth + 1, Inside(n, predicates))
    ensures seen.Plus(TallyFirst(n, path, k + 1))
      == seen.Plus(TallyFirst(n, path, k)).Plus(TallyAt(n.Children()[k], path + [k]))
  {
    hide HostCatalog, NodeAllowed, TallyAt, TallyFirst, Node.Children, Inside;
    TallyGrows(n, path, k);
  }

  lemma WalkEnds(seen: Tally, n: Node, depth: nat, predicates: nat, path: seq<nat>)
    requires !n.Absent?
    ensures Allowed(n, depth, predicates) <==>
      NodeAllowed(n, depth, predicates) && AllowedFirst(n, depth, predicates, |n.Children()|)
    ensures seen.Plus(Own(n)).Plus(TallyFirst(n, path, |n.Children()|)) == seen.Plus(TallyAt(n, path))
  {
    hide HostCatalog, NodeAllowed, TallyAt, TallyFirst, Own;
    TallyWhole(n, path);
  }

  // ----- compiling a script

  // The name called by the last expression of a script; empty if that is not a call by name.
  function FinalName(n: Node): string
    decreases n
  {
    match n
    case Declare(_, expr) => FinalName(expr)
    case Sequence(nodes) => if nodes == [] then "" else FinalName(nodes[|nodes| - 1])
    case Call(callee, _) => if callee.Identifier? then callee.name else ""
    case _ => ""
  }

  method FinalHostCall(tree: Node) returns (name: string)
    ensures name == FinalName(tree)
  {
    var node := tree;
    while true
      invariant FinalName(node) == FinalName(tree)
      decreases node
    {
      match node
      case Declare(_, expr) => node := expr;
      case Sequence(nodes) =>
        if |nodes| == 0 {
          return "";
        }
        node := nodes[|nodes| - 1];
      case Call(callee, _) =>
        return if callee.Identifier? then callee.name else "";
      case _ =>
        return "";
    }
  }

  const MAX_NODES := 20000
  const MAX_CALL_SITES := 16
  const MAX_COLLECTIONS := 32

  datatype Policy = Policy(capabilities: set<string>, strongest: Effect, mutation: string)
  datatype Compiled = Accepted(policy: Policy) | Refused

  // What a script has to be for the capabilities it declares.
  ghost predicate Acceptable(tree: Node, declared: set<string>) {
    var sites := Sites(tree, []);
    && Allowed(tree, 0, 0)
    && Count(tree) <= MAX_NODES && |sites| <= MAX_CALL_SITES && Collections(tree) <= MAX_COLLECTIONS
    && (Mutating(sites) == [] || (|Mutating(sites)| == 1 && FinalName(tree) == Mutating(sites)[0].name))
    && Capabilities(Names(sites)) == declared
  }

  method Compile(tree: Node, declared: set<string>) returns (r: Compiled)
    ensures r.Accepted? <==> Acceptable(tree, declared)
    ensures r.Accepted? ==> var sites := Sites(tree, []);
      && r.policy.capabilities == declared && r.policy.strongest.Rank() == Strongest(sites)
      && (Mutating(sites) != [] ==> r.policy.mutation == Mutating(sites)[0].name)
  {
    hide HostCatalog, Allowed, Sites, Capabilities, Names, Strongest, FinalName, Count, Collections, Mutating,
        IsMutating;
    var analysis := new ScriptAnalysis();
    analysis.Walk(tree, 0, 0, []);
    if analysis.err.Some? {
      return Refused;
    }
    assert analysis.hostNames == Names(Sites(tree, []));
    if analysis.mutations == 1 {
      OnlyMutation(Sites(tree, []), analysis.mutationName);
    }
    if analysis.nodes > MAX_NODES || analysis.hostCalls > MAX_CALL_SITES || analysis.collectionCalls > MAX_COLLECTIONS
      || analysis.mutations > 1 {
      return Refused;
    }
    if analysis.mutations == 1 {
      var final := FinalHostCall(tree);
      if final != analysis.mutationName {
        return Refused;
      }
    }
    if analysis.required != declared {
      return Refused;
    }
    r := Accepted(Policy(analysis.required, analysis.strongest, analysis.mutationName));
  }

  lemma {:induction false} MutatingAre(sites: seq<Site>, s: Site)
    ensures s in Mutating(sites) <==> s in sites && IsMutating(s.name)
  {
    hide IsMutating;
    if sites != [] {
      MutatingAre(sites[..|sites| - 1], s);
    }
  }

  lemma OnlyMutation(sites: seq<Site>, name: string)
    requires |Mutating(sites)| == 1 && name in Names(sites) && IsMutating(name)
    ensures Mutating(sites)[0].name == name
  {
    hide IsMutating, Mutating;
    var s :| s in sites && s.name == name;
    MutatingAre(sites, s);
  }

  // ----- evaluation

  // A host call as it is made at run time, with how many arguments.
  datatype Event = Event(site: Site, arguments: nat)

  // What evaluating part of a script did. Every choice comes from an oracle: in which order
  // operands are evaluated, which of them a short circuit skips, which branch is taken, how
  // often a predicate runs, and where the evaluation fails; it also fails when the oracle
  // runs out.
  datatype Run = Run(trace: seq<Event>, failed: bool, rest: seq<nat>)

  function Eval(n: Node, path: seq<nat>, oracle: seq<nat>): Run
    decreases n, |n.Children()| + 1, 0
  {
    var inner := EvalChildren(n, path, Indices(0, |n.Children()|), oracle);
    if inner.failed || n.HostName().None? then inner
    else inner.(trace := inner.trace + [Event(Site(n.HostName().value, path), |n.arguments|)])
  }

  function Indices(from: nat, to: nat): seq<nat>
    requires from <= to
  {
    seq(to - from, i requires 0 <= i < to - from => from + i)
  }

  // A declared value comes before what it is declared for, and a sequence goes in order.
  predicate Ordered(n: Node) { n.Declare? || n.Sequence? }

  // Evaluates the children still left, each as often as the oracle says; only the body of a
  // predicate runs more than once.
  function EvalChildren(n: Node, path: seq<nat>, left: seq<nat>, oracle: seq<nat>): Run
    requires forall i | 0 <= i < |left| :: left[i] < |n.Children()|
    decreases n, |left|, 0
  {
    if left == [] then Run([], false, oracle)
    else if |oracle| < 2 then Run([], true, [])
    else
      var at := if Ordered(n) then 0 else oracle[0] % |left|;
      var child := EvalTimes(n.Children()[left[at]], path + [left[at]], Times(n, oracle[1]), oracle[2..]);
      if child.failed then child
      else
        var others := EvalChildren(n, path, left[..at] + left[at + 1..], child.rest);
        others.(trace := child.trace + others.trace)
  }

  function Times(n: Node, choice: nat): nat {
    if n.Predicate? then choice else if choice == 0 then 0 else 1
  }

  function EvalTimes(n: Node, path: seq<nat>, times: nat, oracle: seq<nat>): Run
    decreases n, |n.Children()| + 2, times
  {
    if times == 0 then Run([], false, oracle)
    else
      var before := EvalTimes(n, path, times - 1, oracle);
      if before.failed then before
      else
        var last := Eval(n, path, before.rest);
        last.(trace := before.trace + last.trace)
  }

  // ----- what an evaluation can call

  // Calls of a trace: each at a place of its own, and with the arity it is declared with.
  ghost predicate Once(trace: seq<Event>) {
    forall i, j | 0 <= i < j < |trace| :: trace[i].site.path != trace[j].site.path
  }

  ghost predicate WellCalled(trace: seq<Event>) {
    forall e | e in trace :: e.site.name in HostCatalog() && e.arguments == HostCatalog()[e.site.name].arity
  }

  ghost predicate Safe(trace: seq<Event>, sites: seq<Site>) {
    Once(trace) && WellCalled(trace) && forall e | e in trace :: e.site in sites
  }

  lemma NothingIsSafe(sites: seq<Site>)
    ensures Safe([], sites)
    ensures forall t | Safe(t, []) :: t == []
  {
    forall t | Safe(t, [])
      ensures t == []
    {
      SafeCounts(t, []);
    }
  }

  lemma SafeMore(trace: seq<Event>, a: seq<Site>, b: seq<Site>)
    requires Safe(trace, a) && forall s | s in a :: s in b
    ensures Safe(trace, b)
  {
  }

  // Calls made at different places can follow one another.
  lemma SafeJoin(t: seq<Event>, u: seq<Event>, sites: seq<Site>)
    requires Safe(t, sites) && Safe(u, sites)
    requires forall e, f | e in t && f in u :: e.site.path != f.site.path
    ensures Safe(t + u, sites)
  {
    var all := t + u;
    forall i, j | 0 <= i < j < |all|
      ensures all[i].site.path != all[j].site.path
    {
      if i < |t| <= j {
        assert all[i] in t && all[j] in u;
      }
    }
  }

  // Nothing inside a predicate calls the host.
  lemma {:induction false} NoSitesInPredicates(n: Node, depth: nat, predicates: nat, path: seq<nat>)
    requires Allowed(n, depth, predicates) && predicates > 0
    ensures Sites(n, path) == []
    decreases n, |n.Children()| + 1
  {
    hide HostCatalog;
    if !n.Absent? {
      NoSitesFirst(n, depth, predicates, path, |n.Children()|);
    }
  }

  lemma {:induction false} NoSitesFirst(n: Node, depth: nat, predicates: nat, path: seq<nat>, k: nat)
    requires k <= |n.Children()| && AllowedFirst(n, depth, predicates, k) && Inside(n, predicates) > 0
    ensures SitesFirst(n, path, k) == []
    decreases n, k
  {
    hide HostCatalog, NodeAllowed;
    if k > 0 {
      NoSitesFirst(n, depth, predicates, path, k - 1);
      NoSitesInPredicates(n.Children()[k - 1], depth + 1, Inside(n, predicates), path + [k - 1]);
    }
  }

  // No two sites stand at the same place.
  ghost predicate Distinct(sites: seq<Site>) {
    forall i, j | 0 <= i < j < |sites| :: sites[i].path != sites[j].path
  }

  lemma {:induction false} SitesAreDistinct(n: Node, path: seq<nat>)
    ensures Distinct(Sites(n, path))
    ensures forall s | s in Sites(n, path) :: path <= s.path
    decreases n, |n.Children()| + 1
  {
    hide HostCatalog;
    SitesFirstDistinct(n, path, |n.Children()|);
  }

  lemma {:induction false} SitesFirstDistinct(n: Node, path: seq<nat>, k: nat)
    requires k <= |n.Children()|
    ensures Distinct(SitesFirst(n, path, k))
    ensures forall s | s in SitesFirst(n, path, k) :: path < s.path && s.path[|path|] < k
    decreases n, k
  {
    hide HostCatalog, Sites;
    if k > 0 {
      SitesFirstDistinct(n, path, k - 1);
      SitesAreDistinct(n.Children()[k - 1], path + [k - 1]);
    }
  }

  // The sites of a child are sites of its parent, at places that start with the child's.
  lemma {:induction false} ChildSites(n: Node, path: seq<nat>, k: nat, i: nat)
    requires i < k <= |n.Children()|
    ensures forall s | s in Sites(n.Children()[i], path + [i]) ::
      s in SitesFirst(n, path, k) && path < s.path && s.path[|path|] == i
    decreases k
  {
    hide HostCatalog, Sites;
    SitesAreDistinct(n.Children()[i], path + [i]);
    if i < k - 1 {
      ChildSites(n, path, k - 1, i);
    }
  }

  lemma OwnSites(n: Node, path: seq<nat>)
    ensures var all := SitesFirst(n, path, |n.Children()|);
      Sites(n, path) == all + if n.HostName().Some? then [Site(n.HostName().value, path)] else []
  {
  }

  // Whatever the oracle, an allowed tree calls only its sites, each at most once, with the
  // arity they are declared with.
  lemma {:induction false} EvalIsSafe(n: Node, depth: nat, predicates: nat, path: seq<nat>, oracle: seq<nat>)
    requires Allowed(n, depth, predicates)
    ensures Safe(Eval(n, path, oracle).trace, Sites(n, path))
    decreases n, |n.Children()| + 1, 0
  {
    hide HostCatalog, Allowed, AllowedFirst, NodeAllowed, Safe, EvalChildren, SitesFirst, Sites, Node.Children,
        WellCalled;
    NodeIsAllowed(n, depth, predicates);
    var all := Indices(0, |n.Children()|);
    EvalChildrenIsSafe(n, depth, predicates, path, all, oracle);
    var inner := EvalChildren(n, path, all, oracle);
    OwnSites(n, path);
    SafeMore(inner.trace, SitesFirst(n, path, |n.Children()|), Sites(n, path));
    if n.HostName().Some? && !inner.failed {
      var call := Event(Site(n.HostName().value, path), |n.arguments|);
      OneCall(call, Sites(n, path));
      SafeJoin(inner.trace, [call], Sites(n, path));
    }
  }

  lemma OneCall(e: Event, sites: seq<Site>)
    requires e.site in sites && e.site.name in HostCatalog() && e.arguments == HostCatalog()[e.site.name].arity
    ensures Safe([e], sites)
  {
    hide HostCatalog;
  }

  lemma NodeIsAllowed(n: Node, depth: nat, predicates: nat)
    requires Allowed(n, depth, predicates)
    ensures n.HostName().Some? ==>
      n.Call? && n.HostName().value in HostCatalog() && |n.arguments| == HostCatalog()[n.HostName().value].arity
    ensures AllowedFirst(n, depth, predicates, |n.Children()|)
  {
    hide HostCatalog;
  }

  lemma {:induction false} ChildIsAllowed(n: Node, depth: nat, predicates: nat, k: nat, i: nat)
    requires i < k <= |n.Children()| && AllowedFirst(n, depth, predicates, k)
    ensures Allowed(n.Children()[i], depth + 1, Inside(n, predicates))
    decreases k
  {
    hide HostCatalog, Allowed;
    if i < k - 1 {
      ChildIsAllowed(n, depth, predicates, k - 1, i);
    }
  }

  ghost predicate NoneTwice(left: seq<nat>) {
    forall i, j | 0 <= i < j < |left| :: left[i] != left[j]
  }

  lemma WithoutOne(left: seq<nat>, at: nat)
    requires NoneTwice(left) && at < |left|
    ensures var others := left[..at] + left[at + 1..];
      NoneTwice(others) && left[at] !in others && forall i | i in others :: i in left
  {
  }

  // The calls of some children are made at their places.
  lemma {:induction false} EvalChildrenIsSafe(n: Node, depth: nat, predicates: nat, path: seq<nat>,
        left: seq<nat>, oracle: seq<nat>)
    requires AllowedFirst(n, depth, predicates, |n.Children()|)
    requires NoneTwice(left) && forall i | 0 <= i < |left| :: left[i] < |n.Children()|
    ensures Safe(EvalChildren(n, path, left, oracle).trace, SitesFirst(n, path, |n.Children()|))
    ensures forall e | e in EvalChildren(n, path, left, oracle).trace ::
      path < e.site.path && e.site.path[|path|] in left
    decreases n, |left|, 0
  {
    hide HostCatalog, Allowed, AllowedFirst, Safe, EvalTimes, SitesFirst, Sites, Node.Children, NoneTwice;
    var all := SitesFirst(n, path, |n.Children()|);
    NothingIsSafe(all);
    if left != [] && |oracle| >= 2 {
      var at := if Ordered(n) then 0 else oracle[0] % |left|;
      var i := left[at];
      var child := EvalTimes(n.Children()[i], path + [i], Times(n, oracle[1]), oracle[2..]);
      var others := left[..at] + left[at + 1..];
      OneChildIsSafe(n, depth, predicates, path, i, Times(n, oracle[1]), oracle[2..]);
      WithoutOne(left, at);
      if !child.failed {
        EvalChildrenIsSafe(n, depth, predicates, path, others, child.rest);
        SafeJoin(child.trace, EvalChildren(n, path, others, child.rest).trace, all);
      }
    }
  }

  lemma {:induction false} OneChildIsSafe(n: Node, depth: nat, predicates: nat, path: seq<nat>, i: nat,
        times: nat, oracle: seq<nat>)
    requires i < |n.Children()| && AllowedFirst(n, depth, predicates, |n.Children()|) && (times <= 1 || n.Predicate?)
    ensures var trace := EvalTimes(n.Children()[i], path + [i], times, oracle).trace;
      && Safe(trace, SitesFirst(n, path, |n.Children()|))
      && forall e | e in trace :: path < e.site.path && e.site.path[|path|] == i
    decreases n, 0, 1
  {
    hide HostCatalog, Allowed, AllowedFirst, EvalTimes, SitesFirst, Sites, Node.Children, Once, WellCalled;
    ChildIsAllowed(n, depth, predicates, |n.Children()|, i);
    ChildSites(n, path, |n.Children()|, i);
    var child := n.Children()[i];
    if n.Predicate? {
      NoSitesInPredicates(child, depth + 1, Inside(n, predicates), path + [i]);
    }
    EvalTimesIsSafe(child, depth + 1, Inside(n, predicates), path + [i], times, oracle);
    SafeMore(EvalTimes(child, path + [i], times, oracle).trace, Sites(child, path + [i]),
        SitesFirst(n, path, |n.Children()|));
  }

  lemma {:induction false} EvalTimesIsSafe(n: Node, depth: nat, predicates: nat, path: seq<nat>, times: nat,
        oracle: seq<nat>)
    requires Allowed(n, depth, predicates) && (times <= 1 || Sites(n, path) == [])
    ensures Safe(EvalTimes(n, path, times, oracle).trace, Sites(n, path))
    decreases n, |n.Children()| + 2, times
  {
    hide HostCatalog, Allowed, Safe, Sites, Eval;
    NothingIsSafe(Sites(n, path));
    if times > 0 {
      var before := EvalTimes(n, path, times - 1, oracle);
      EvalTimesIsSafe(n, depth, predicates, path, times - 1, oracle);
      if !before.failed {
        EvalIsSafe(n, depth, predicates, path, before.rest);
        assert before.trace == [];
        assert [] + Eval(n, path, before.rest).trace == Eval(n, path, before.rest).trace;
      }
    }
  }

  // ----- what holds of every trace

  // Calls at places of their own are no more than the places there are.
  lemma SafeCounts(trace: seq<Event>, sites: seq<Site>)
    requires Safe(trace, sites)
    ensures |trace| <= |sites|
  {
    hide WellCalled;
    PlacesOfTrace(trace);
    PlacesOfSites(sites);
    assert (set e | e in trace :: e.site.path) <= set s | s in sites :: s.path;
    SubsetIsSmaller(set e | e in trace :: e.site.path, set s | s in sites :: s.path);
  }

  lemma {:induction false} PlacesOfTrace(trace: seq<Event>)
    requires Once(trace)
    ensures |set e | e in trace :: e.site.path| == |trace|
  {
    if trace != [] {
      var init, last := trace[..|trace| - 1], trace[|trace| - 1];
      PlacesOfTrace(init);
      assert (set e | e in trace :: e.site.path) == (set e | e in init :: e.site.path) + {last.site.path};
    }
  }

  lemma {:induction false} PlacesOfSites(sites: seq<Site>)
    ensures |set s | s in sites :: s.path| <= |sites|
  {
    if sites != [] {
      var init, last := sites[..|sites| - 1], sites[|sites| - 1];
      PlacesOfSites(init);
      assert (set s | s in sites :: s.path) == (set s | s in init :: s.path) + {last.path};
    }
  }

  lemma {:induction false} SubsetIsSmaller(a: set<seq<nat>>, b: set<seq<nat>>)
    requires a <= b
    ensures |a| <= |b|
  {
    if a != {} {
      var x :| x in a;
      SubsetIsSmaller(a - {x}, b - {x});
    }
  }

  // ----- the last call

  // Where the call stands that FinalName names.
  function FinalPath(n: Node, path: seq<nat>): seq<nat>
    decreases n
  {
    match n
    case Declare(_, expr) => FinalPath(expr, path + [1])
    case Sequence(nodes) => if nodes == [] then path else FinalPath(nodes[|nodes| - 1], path + [|nodes| - 1])
    case _ => path
  }

  lemma {:induction false} FinalIsASite(n: Node, path: seq<nat>)
    requires FinalName(n) in HostCatalog()
    ensures Site(FinalName(n), FinalPath(n, path)) in Sites(n, path) && path <= FinalPath(n, path)
    ensures Ordered(n) ==>
      n.Children() != [] && path < FinalPath(n, path) && FinalPath(n, path)[|path|] == |n.Children()| - 1
    decreases n
  {
    hide HostCatalog;
    NoEmptyName();
    match n
    case Declare(_, expr) => FinalIsASite(expr, path + [1]);
    case Sequence(nodes) => FinalIsASite(nodes[|nodes| - 1], path + [|nodes| - 1]);
    case Call(_, _) =>
    case _ =>
  }

  lemma NoEmptyName()
    ensures "" !in HostCatalog()
  {
  }

  // Nothing follows the final call.
  ghost predicate EndsAt(trace: seq<Event>, place: seq<nat>) {
    forall i | 0 <= i < |trace| - 1 :: trace[i].site.path != place
  }

  lemma EndsAfter(t: seq<Event>, u: seq<Event>, place: seq<nat>)
    requires (forall e | e in t :: e.site.path != place) && EndsAt(u, place)
    ensures EndsAt(t + u, place)
  {
    forall i | 0 <= i < |t + u| - 1
      ensures (t + u)[i].site.path != place
    {
      assert i < |t| ==> (t + u)[i] in t;
    }
  }

  lemma {:induction false} FinalComesLast(n: Node, depth: nat, predicates: nat, path: seq<nat>, oracle: seq<nat>)
    requires Allowed(n, depth, predicates) && FinalName(n) in HostCatalog()
    ensures EndsAt(Eval(n, path, oracle).trace, FinalPath(n, path))
    decreases n, 2
  {
    hide HostCatalog, Allowed, AllowedFirst, NodeAllowed, EvalChildren, SitesFirst, Sites, Node.Children, Once,
        WellCalled, Safe, EndsAt;
    NodeIsAllowed(n, depth, predicates);
    var all := Indices(0, |n.Children()|);
    var inner := EvalChildren(n, path, all, oracle);
    FinalIsASite(n, path);
    if Ordered(n) {
      OrderedComesLast(n, depth, predicates, path, 0, oracle);
    } else {
      EvalChildrenIsSafe(n, depth, predicates, path, all, oracle);
      FinalIsHere(n, path);
      if n.HostName().Some? && !inner.failed {
        OneEndsAt(Event(Site(n.HostName().value, path), |n.arguments|), path);
        EndsAfter(inner.trace, [Event(Site(n.HostName().value, path), |n.arguments|)], path);
      } else {
        NoneEndsAt(path);
        EndsAfter(inner.trace, [], path);
        assert inner.trace + [] == inner.trace;
      }
    }
  }

  lemma FinalIsHere(n: Node, path: seq<nat>)
    requires !Ordered(n)
    ensures FinalPath(n, path) == path
  {
  }

  lemma OneEndsAt(e: Event, place: seq<nat>)
    ensures EndsAt([e], place)
  {
  }

  lemma NoneEndsAt(place: seq<nat>)
    ensures EndsAt([], place)
  {
  }

  // In a node whose children go in order, the last child holds the final call.
  lemma {:induction false} OrderedComesLast(n: Node, depth: nat, predicates: nat, path: seq<nat>, k: nat,
        oracle: seq<nat>)
    requires Ordered(n) && k < |n.Children()| && AllowedFirst(n, depth, predicates, |n.Children()|)
      && FinalName(n) in HostCatalog()
    ensures EndsAt(EvalChildren(n, path, Indices(k, |n.Children()|), oracle).trace, FinalPath(n, path))
    decreases n, 1, |n.Children()| - k
  {
    hide HostCatalog, Allowed, AllowedFirst, EvalTimes, SitesFirst, Sites, Once, WellCalled, Safe, EndsAt, FinalPath,
        FinalName, Node.Children;
    var m := |n.Children()|;
    var left := Indices(k, m);
    NoneEndsAt(FinalPath(n, path));
    FinalIsASite(n, path);
    if |oracle| >= 2 {
      var times := Times(n, oracle[1]);
      var child := EvalTimes(n.Children()[k], path + [k], times, oracle[2..]);
      OneChildIsSafe(n, depth, predicates, path, k, times, oracle[2..]);
      assert left[..0] + left[1..] == Indices(k + 1, m);
      if k < m - 1 {
        NoneEndsAt(FinalPath(n, path));
        if child.failed {
          EndsAfter(child.trace, [], FinalPath(n, path));
          assert child.trace + [] == child.trace;
        } else {
          OrderedComesLast(n, depth, predicates, path, k + 1, child.rest);
          EndsAfter(child.trace, EvalChildren(n, path, Indices(k + 1, m), child.rest).trace, FinalPath(n, path));
        }
      } else {
        LastChildComesLast(n, depth, predicates, path, times, oracle[2..]);
        assert Indices(m, m) == [];
        assert child.trace + [] == child.trace;
      }
    }
  }

  lemma {:induction false} LastChildComesLast(n: Node, depth: nat, predicates: nat, path: seq<nat>, times: nat,
        oracle: seq<nat>)
    requires Ordered(n) && n.Children() != [] && AllowedFirst(n, depth, predicates, |n.Children()|)
      && FinalName(n) in HostCatalog()
    requires times <= 1
    ensures var last := |n.Children()| - 1;
      EndsAt(EvalTimes(n.Children()[last], path + [last], times, oracle).trace, FinalPath(n, path))
    decreases n, 0
  {
    hide HostCatalog, Allowed, AllowedFirst, Eval, EndsAt;
    var last := |n.Children()| - 1;
    var child := n.Children()[last];
    NoneEndsAt(FinalPath(n, path));
    ChildIsAllowed(n, depth, predicates, |n.Children()|, last);
    assert FinalName(child) == FinalName(n) && FinalPath(child, path + [last]) == FinalPath(n, path);
    if times == 1 {
      FinalComesLast(child, depth + 1, Inside(n, predicates), path + [last], oracle);
      assert EvalTimes(child, path + [last], 0, oracle) == Run([], false, oracle);
      assert [] + Eval(child, path + [last], oracle).trace == Eval(child, path + [last], oracle).trace;
    }
  }

  lemma MutatingNames(name: string)
    requires IsMutating(name)
    ensures name in HostCatalog()
  {
  }

  // An accepted script has at most one site that mutates, where its final call stands.
  lemma OnlyFinalMutates(tree: Node, declared: set<string>, s: Site)
    requires Acceptable(tree, declared) && s in Sites(tree, []) && IsMutating(s.name)
    ensures FinalName(tree) in HostCatalog() && s.path == FinalPath(tree, [])
  {
    hide HostCatalog, Allowed, FinalName, Capabilities, Names, Sites, FinalPath, Mutating, IsMutating;
    var sites := Sites(tree, []);
    MutatingAre(sites, s);
    var m := Mutating(sites)[0];
    MutatingAre(sites, m);
    MutatingNames(m.name);
    FinalIsASite(tree, []);
    MutatingAre(sites, Site(FinalName(tree), FinalPath(tree, [])));
  }

  // Every evaluation of an accepted script, in whatever order operands are evaluated: each
  // site runs at most once, within the call budget, with declared capabilities and arities,
  // and a mutating call is the last one.
  lemma AcceptedScriptsAreSafe(tree: Node, declared: set<string>, oracle: seq<nat>)
    requires Acceptable(tree, declared)
    ensures var trace := Eval(tree, [], oracle).trace;
      && |trace| <= MAX_CALL_SITES
      && (forall i, j | 0 <= i < j < |trace| :: trace[i].site.path != trace[j].site.path)
      && WellCalled(trace)
      && (forall e | e in trace :: HostCatalog()[e.site.name].capability in declared)
      && (forall i | 0 <= i < |trace| - 1 :: !IsMutating(trace[i].site.name))
  {
    hide HostCatalog, Allowed, FinalName, Sites, Eval, Mutating, IsMutating, Count, Collections, WellCalled, FinalPath;
    var trace, sites := Eval(tree, [], oracle).trace, Sites(tree, []);
    EvalIsSafe(tree, 0, 0, [], oracle);
    SafeCounts(trace, sites);
    DeclaredCalls(trace, sites, declared);
    forall i | 0 <= i < |trace| - 1
      ensures !IsMutating(trace[i].site.name)
    {
      assert trace[i] in trace;
      if IsMutating(trace[i].site.name) {
        OnlyFinalMutates(tree, declared, trace[i].site);
        FinalComesLast(tree, 0, 0, [], oracle);
        assert false;
      }
    }
  }

  lemma DeclaredCalls(trace: seq<Event>, sites: seq<Site>, declared: set<string>)
    requires Safe(trace, sites) && Capabilities(Names(sites)) == declared
    ensures forall e | e in trace :: e.site.name in HostCatalog() && HostCatalog()[e.site.name].capability in declared
  {
    hide HostCatalog;
  }

  // ----- running under a budget

  // How the controller answers a call: it fails, or returns a result of so many bytes.
  datatype Reply = Fails | Returns(bytes: nat)

  datatype Checked = Unauthorized | OverCallBudget | WrongArgumentCount | OverMutationBudget
                   | DispatchFailed | OverResultBudget | Done

  class Invocation {
    const capabilities: set<string>
    const maxResultBytes: nat
    var calls: nat
    var mutations: nat
    var resultBytes: nat

    constructor (capabilities: set<string>, maxResultBytes: nat)
      ensures this.capabilities == capabilities && this.maxResultBytes == maxResultBytes
      ensures calls == 0 && mutations == 0 && resultBytes == 0
    {
      this.capabilities, this.maxResultBytes := capabilities, maxResultBytes;
      calls, mutations, resultBytes := 0, 0, 0;
    }

    method CallHost(definition: Definition, arguments: nat, reply: Reply) returns (checked: Checked)
      modifies this
      ensures checked ==
        if definition.capability !in capabilities then Unauthorized
        else if old(calls) >= MAX_CALL_SITES then OverCallBudget
        else if arguments != definition.arity then WrongArgumentCount
        else if definition.effect != Read && old(mutations) >= 1 then OverMutationBudget
        else if reply.Fails? then DispatchFailed
        else if maxResultBytes > 0 && old(resultBytes) + reply.bytes > maxResultBytes then OverResultBudget
        else Done
      ensures checked == Done ==>
        && definition.capability in capabilities && calls == old(calls) + 1 <= MAX_CALL_SITES
          && arguments == definition.arity
        && mutations == old(mutations) + (if definition.effect != Read then 1 else 0)
        && (definition.effect != Read ==> mutations == 1)
        && reply.Returns? && resultBytes == old(resultBytes) + reply.bytes
        && (maxResultBytes > 0 ==> resultBytes <= maxResultBytes)
    {
      if definition.capability !in capabilities {
        return Unauthorized;
      }
      calls := calls + 1;
      if calls > MAX_CALL_SITES {
        return OverCallBudget;
      }
      if arguments != definition.arity {
        return WrongArgumentCount;
      }
      if definition.effect != Read {
        mutations := mutations + 1;
        if mutations > 1 {
          return OverMutationBudget;
        }
      }
      if reply.Fails? {
        return DispatchFailed;
      }
      resultBytes := resultBytes + reply.bytes;
      if maxResultBytes > 0 && resultBytes > maxResultBytes {
        return OverResultBudget;
      }
      checked := Done;
    }
  }

  // The bytes of the results among some replies.
  function ResultBytes(replies: seq<Reply>): nat {
    if replies == [] then 0
    else
      var last := replies[|replies| - 1];
      ResultBytes(replies[..|replies| - 1]) + if last.Returns? then last.bytes else 0
  }

  // Runs a compiled script: its calls are made until one fails or the evaluation ends.
  // None of the checks the analysis stands for ever fires.
  method Execute(tree: Node, declared: set<string>, oracle: seq<nat>, replies: seq<Reply>, maxResultBytes: nat)
    returns (made: nat, last: Checked)
    requires Acceptable(tree, declared) && |replies| >= |Eval(tree, [], oracle).trace|
    ensures made <= |Eval(tree, [], oracle).trace|
    ensures last != Unauthorized && last != OverCallBudget && last != WrongArgumentCount && last != OverMutationBudget
    ensures last == Done ==> made == |Eval(tree, [], oracle).trace|
    ensures last == DispatchFailed <==> 0 < made && replies[made - 1].Fails?
    ensures last == OverResultBudget
      <==> maxResultBytes > 0 && last != DispatchFailed && ResultBytes(replies[..made]) > maxResultBytes
    ensures made > 0 ==> maxResultBytes == 0 || ResultBytes(replies[..made - 1]) <= maxResultBytes
  {
    hide HostCatalog, Acceptable, Eval, IsMutating;
    var invocation := new Invocation(declared, maxResultBytes);
    var trace := Eval(tree, [], oracle).trace;
    AcceptedScriptsAreSafe(tree, declared, oracle);
    made, last := 0, Done;
    while made < |trace|
      invariant made <= |trace| && last == Done
      invariant invocation.capabilities == declared && invocation.maxResultBytes == maxResultBytes
      invariant invocation.resultBytes == ResultBytes(replies[..made])
      invariant maxResultBytes > 0 ==> invocation.resultBytes <= maxResultBytes
      invariant made > 0 ==> replies[made - 1].Returns?
      invariant invocation.calls == made && (made < |trace| ==> invocation.mutations == 0)
    {
      var event := trace[made];
      MutatesOrNot(event.site.name);
      last := invocation.CallHost(HostCatalog()[event.site.name], event.arguments, replies[made]);
      assert replies[..made + 1][..made] == replies[..made];
      made := made + 1;
      if last != Done {
        return;
      }
    }
    assert made > 0 ==> replies[..made][..made - 1] == replies[..made - 1];
  }

  lemma MutatesOrNot(name: string)
    requires name in HostCatalog()
    ensures IsMutating(name) <==> HostCatalog()[name].effect != Read
  {
    hide HostCatalog;
  }
}
