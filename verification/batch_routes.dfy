/** The cross-resource batch: an ordered list of nodes, applied one resource's run at a time. */
module BatchRoutes {
  import opened Wrappers
  import opened Values
  import opened Filters
  import opened Policies
  import opened MongoServices
  import opened AuthorizedServices

  /** How a resource's service is built: bare, or wrapped in the caller's policies. */
  datatype Access = Open | Scoped(policies: seq<Policy>, user: Option<string>)

  /** What the batch route knows of a resource. */
  datatype Target = Target(schema: Schema, supported: set<Action>, access: Access)

  datatype Node = Node(resource: string, edit: Edit)

  /** One response item. */
  datatype Item = Item(resource: string, kind: Action, result: Option<Row>)

  type Targets = map<string, Target>
  type Stores = map<string, Store>

  datatype BatchOutcome = BatchOutcome(stores: Stores, result: Result<seq<Item>, Error>)

  /** Every node names a resource the route knows. */
  predicate Named(targets: Targets, nodes: seq<Node>) {
    forall i :: 0 <= i < |nodes| ==> nodes[i].resource in targets
  }

  predicate AllOf(name: string, nodes: seq<Node>) {
    forall i :: 0 <= i < |nodes| ==> nodes[i].resource == name
  }

  ghost predicate Known(targets: Targets, stores: Stores, nodes: seq<Node>) {
    Named(targets, nodes) && forall name :: name in targets ==> name in stores
  }

  /** What a resource's service makes of one node before it writes: pass it on, deny it, or raise. */
  function Admission(target: Target, edit: Edit): Result<Option<Edit>, Error> {
    match target.access
    case Open => Ok(Some(edit))
    case Scoped(policies, user) => Gate(policies, user, edit)
  }

  /** A service decides on every node of a list before it writes the first. */
  function Admissions(target: Target, edits: seq<Edit>): (r: Result<seq<Option<Edit>>, Error>)
    ensures r.Ok? ==> |r.value| == |edits|
  {
    if edits == [] then Ok([])
    else
      match Admission(target, edits[0])
      case Err(e) => Err(e)
      case Ok(first) =>
        match Admissions(target, edits[1..])
        case Err(e) => Err(e)
        case Ok(rest) => Ok([first] + rest)
  }

  /** One node on its own, through its own resource's service. */
  function NodeApplied(targets: Targets, stores: Stores, node: Node): BatchOutcome
    requires node.resource in targets && node.resource in stores
  {
    var target := targets[node.resource];
    match Admission(target, node.edit)
    case Err(e) => BatchOutcome(stores, Err(e))
    case Ok(gate) =>
      var o := GateApplied(target.schema, target.supported, stores[node.resource], gate);
      BatchOutcome(stores[node.resource := o.store],
                   match o.result
                   case Err(e) => Err(e)
                   case Ok(row) => Ok([Item(node.resource, ActionOf(node.edit), row)]))
  }

  /**
   A node touches its own resource's store only, and answers one item that names its resource
   and its action. Through a bare service it is the operation itself; through a policy-wrapped
   one nothing is written when the gate raises or denies it.
   */
  lemma NodeExactly(targets: Targets, stores: Stores, node: Node)
    requires node.resource in targets && node.resource in stores
    ensures var o, target, store := NodeApplied(targets, stores, node), targets[node.resource], stores[node.resource];
            && o.stores.Keys == stores.Keys
            && (forall other :: other in stores && other != node.resource ==> o.stores[other] == stores[other])
            && (o.result.Ok? ==>
                  && |o.result.value| == 1 && o.result.value[0].resource == node.resource
                  && o.result.value[0].kind == (match node.edit
                                                case CreateEdit(_, _) => Create
                                                case UpdateEdit(_, _) => Update
                                                case DeleteEdit(_, _) => Delete))
            && (match target.access
                case Open =>
                  var one := AppliedOne(target.schema, target.supported, store, node.edit);
                  && o.stores[node.resource] == one.store
                  && (if one.result.Ok? then o.result.Ok? && o.result.value[0].result == one.result.value
                      else o.result == Err(one.result.error))
                case Scoped(policies, user) =>
                  && (AsksOverlong(policies, node.edit) ==> o == BatchOutcome(stores, Err(TooManyValues)))
                  && (Gate(policies, user, node.edit) == Ok(None) ==>
                        o.stores == stores && o.result.Ok? && o.result.value[0].result.None?))
  {
    if targets[node.resource].access.Scoped? {
      GateRaisesExactly(targets[node.resource].access.policies, targets[node.resource].access.user, node.edit);
    }
  }

  function Joined(items: seq<Item>, later: BatchOutcome): BatchOutcome {
    if later.result.Err? then later else BatchOutcome(later.stores, Ok(items + later.result.value))
  }

  /** The specification: the nodes singly, in the caller's order. */
  function NodesApplied(targets: Targets, stores: Stores, nodes: seq<Node>): (o: BatchOutcome)
    requires Known(targets, stores, nodes)
    ensures forall name :: name in stores ==> name in o.stores
    decreases nodes
  {
    if nodes == [] then BatchOutcome(stores, Ok([]))
    else
      var first := NodeApplied(targets, stores, nodes[0]);
      if first.result.Err? then first
      else Joined(first.result.value, NodesApplied(targets, first.stores, nodes[1..]))
  }

  lemma JoinedTwice(front: seq<Item>, items: seq<Item>, later: BatchOutcome)
    ensures Joined(front + items, later) == Joined(front, Joined(items, later))
    ensures Joined([], later) == later
  {
    if later.result.Ok? {
      assert front + items + later.result.value == front + (items + later.result.value);
      assert [] + later.result.value == later.result.value;
    }
  }

  lemma {:induction false} NodesConcat(targets: Targets, stores: Stores, first: seq<Node>, second: seq<Node>)
    requires Known(targets, stores, first) && Known(targets, stores, second)
    ensures Known(targets, stores, first + second)
    ensures var a := NodesApplied(targets, stores, first);
            NodesApplied(targets, stores, first + second) ==
            if a.result.Err? then a
            else Joined(a.result.value, NodesApplied(targets, a.stores, second))
    decreases first
  {
    if first == [] {
      assert first + second == second;
      JoinedTwice([], [], NodesApplied(targets, stores, second));
    } else {
      assert (first + second)[0] == first[0] && (first + second)[1..] == first[1..] + second;
      var one := NodeApplied(targets, stores, first[0]);
      NodesConcat(targets, one.stores, first[1..], second);
      var a := NodesApplied(targets, one.stores, first[1..]);
      if one.result.Ok? && a.result.Ok? {
        JoinedTwice(one.result.value, a.result.value, NodesApplied(targets, a.stores, second));
      }
    }
  }

  function EditsOf(nodes: seq<Node>): (r: seq<Edit>)
    ensures |r| == |nodes|
  {
    seq(|nodes|, i requires 0 <= i < |nodes| => nodes[i].edit)
  }

  function ItemsOf(nodes: seq<Node>, rows: seq<Option<Row>>): (r: seq<Item>)
    requires |nodes| == |rows|
    ensures |r| == |nodes|
  {
    seq(|nodes|, i requires 0 <= i < |nodes| => Item(nodes[i].resource, ActionOf(nodes[i].edit), rows[i]))
  }

  lemma ItemsOfCons(run: seq<Node>, row: Option<Row>, rows: seq<Option<Row>>)
    requires run != [] && |rows| == |run| - 1
    ensures ItemsOf(run, [row] + rows)
         == [Item(run[0].resource, ActionOf(run[0].edit), row)] + ItemsOf(run[1..], rows)
  {
  }

  // ----- One run -----

  /** What the service built for a resource makes of a list of edits. */
  function ServiceApplied(target: Target, store: Store, edits: seq<Edit>): Outcome<seq<Option<Row>>> {
    match Admissions(target, edits)
    case Err(e) => Outcome(store, Err(e))
    case Ok(gates) => OneByOne(target.schema, target.supported, store, gates)
  }

  /** A run of nodes of one resource: the service decides on all of them, and then applies them. */
  function RunApplied(targets: Targets, stores: Stores, name: string, run: seq<Node>): (o: BatchOutcome)
    requires name in targets && name in stores
    ensures forall name :: name in stores ==> name in o.stores
  {
    var o := ServiceApplied(targets[name], stores[name], EditsOf(run));
    BatchOutcome(stores[name := o.store],
                 match o.result
                 case Err(e) => Err(e)
                 case Ok(rows) => Ok(if |rows| == |run| then ItemsOf(run, rows) else []))
  }

  lemma AdmissionsRest(target: Target, run: seq<Node>)
    requires run != []
    ensures EditsOf(run)[0] == run[0].edit && EditsOf(run)[1..] == EditsOf(run[1..])
  {
  }

  /** The node's gate raises: its service is policy-wrapped, and it asks an overlong policy. */
  predicate Raising(targets: Targets, node: Node)
    requires node.resource in targets
  {
    var access := targets[node.resource].access;
    access.Scoped? && AsksOverlong(access.policies, node.edit)
  }

  lemma AdmissionRaisesExactly(targets: Targets, node: Node)
    requires node.resource in targets
    ensures Admission(targets[node.resource], node.edit).Err? <==> Raising(targets, node)
    ensures Raising(targets, node) ==> Admission(targets[node.resource], node.edit) == Err(TooManyValues)
  {
    var access := targets[node.resource].access;
    if access.Scoped? {
      GateRaisesExactly(access.policies, access.user, node.edit);
    }
  }

  /** The first node whose gate raises, or the length when none does. */
  function FirstRaising(targets: Targets, nodes: seq<Node>): (k: nat)
    requires Named(targets, nodes)
    ensures k <= |nodes|
    ensures forall j :: 0 <= j < k ==> !Raising(targets, nodes[j])
    ensures k < |nodes| ==> Raising(targets, nodes[k])
  {
    if nodes == [] || Raising(targets, nodes[0]) then 0
    else 1 + FirstRaising(targets, nodes[1..])
  }

  /** No write raises what a gate raises. */
  lemma WritesRaiseOtherwise(target: Target, store: Store, edit: Edit)
    ensures AppliedOne(target.schema, target.supported, store, edit).result.Err? ==>
              AppliedOne(target.schema, target.supported, store, edit).result.error != TooManyValues
  {
    if edit.UpdateEdit? && edit.item.Identified() {
      WriteQueryFailsExactly(target.schema, edit.item.id.value, edit.condition);
    } else if edit.DeleteEdit? {
      WriteQueryFailsExactly(target.schema, edit.id, edit.condition);
    }
  }

  /** A run is refused exactly when one of its gates raises, whatever it holds before that node. */
  lemma {:induction false} AdmissionsExactly(targets: Targets, name: string, run: seq<Node>)
    requires name in targets && AllOf(name, run)
    ensures Admissions(targets[name], EditsOf(run)).Ok? <==> FirstRaising(targets, run) == |run|
    ensures Admissions(targets[name], EditsOf(run)).Err? ==>
              Admissions(targets[name], EditsOf(run)).error == TooManyValues
  {
    if run != [] {
      AdmissionsRest(targets[name], run);
      AdmissionRaisesExactly(targets, run[0]);
      AdmissionsExactly(targets, name, run[1..]);
    }
  }

  /** When no gate of a run raises, the run is its nodes singly. */
  lemma {:induction false} RunIsItsNodes(targets: Targets, stores: Stores, name: string, run: seq<Node>)
    requires name in targets && Known(targets, stores, run)
    requires AllOf(name, run)
    requires forall i :: 0 <= i < |run| ==> !Raising(targets, run[i])
    ensures RunApplied(targets, stores, name, run) == NodesApplied(targets, stores, run)
    decreases run
  {
    var target := targets[name];
    AdmissionsExactly(targets, name, run);
    var gates := Admissions(target, EditsOf(run)).value;
    if run == [] {
      assert stores[name := stores[name]] == stores;
      assert ItemsOf(run, []) == [];
    } else {
      AdmissionsRest(target, run);
      AdmissionsExactly(targets, name, run[1..]);
      var one := GateApplied(target.schema, target.supported, stores[name], gates[0]);
      var next := stores[name := one.store];
      RunIsItsNodes(targets, next, name, run[1..]);
      assert gates[1..] == Admissions(target, EditsOf(run[1..])).value;
      var later := OneByOne(target.schema, target.supported, one.store, gates[1..]);
      assert next[name := later.store] == stores[name := later.store];
      if one.result.Ok? && later.result.Ok? {
        OneByOneAligned(target.schema, target.supported, one.store, gates[1..]);
        ItemsOfCons(run, one.result.value, later.result.value);
      }
    }
  }

  lemma {:induction false} AnsweredNodesRaiseOtherwise(targets: Targets, stores: Stores, nodes: seq<Node>)
    requires Known(targets, stores, nodes) && FirstRaising(targets, nodes) == |nodes|
    ensures NodesApplied(targets, stores, nodes).result.Err? ==>
              NodesApplied(targets, stores, nodes).result.error != TooManyValues
    decreases nodes
  {
    if nodes != [] {
      var node := nodes[0];
      var target := targets[node.resource];
      AdmissionRaisesExactly(targets, node);
      var gate := Admission(target, node.edit).value;
      if gate.Some? {
        WritesRaiseOtherwise(target, stores[node.resource], gate.value);
      }
      var first := NodeApplied(targets, stores, node);
      if first.result.Ok? {
        AnsweredNodesRaiseOtherwise(targets, first.stores, nodes[1..]);
      }
    }
  }

  /** Up to the first raising gate the nodes singly are what the nodes before it are. */
  lemma RaisingNodeEnds(targets: Targets, stores: Stores, nodes: seq<Node>)
    requires Known(targets, stores, nodes) && FirstRaising(targets, nodes) < |nodes|
    ensures var k := FirstRaising(targets, nodes);
            && Known(targets, stores, nodes[..k])
            && var front := NodesApplied(targets, stores, nodes[..k]);
               && (front.result.Err? ==> front.result.error != TooManyValues)
               && NodesApplied(targets, stores, nodes)
                  == if front.result.Err? then front else BatchOutcome(front.stores, Err(TooManyValues))
  {
    var k := FirstRaising(targets, nodes);
    var front, rest := nodes[..k], nodes[k..];
    assert nodes == front + rest && rest[0] == nodes[k];
    NodesConcat(targets, stores, front, rest);
    FirstRaisingPrefix(targets, nodes, k);
    AnsweredNodesRaiseOtherwise(targets, stores, front);
    AdmissionRaisesExactly(targets, rest[0]);
  }

  lemma {:induction false} FirstRaisingPrefix(targets: Targets, nodes: seq<Node>, k: nat)
    requires Named(targets, nodes)
    requires k <= FirstRaising(targets, nodes)
    ensures FirstRaising(targets, nodes[..k]) == k
  {
    assert forall j :: 0 <= j < k ==> nodes[..k][j] == nodes[j];
  }

  /**
   A run is its nodes singly exactly when no gate raises, or the nodes before the first
   raising one succeed and write nothing: a refused run writes nothing at all.
   */
  lemma {:induction false} RunIsItsNodesExactly(targets: Targets, stores: Stores, name: string, run: seq<Node>)
    requires name in targets && Known(targets, stores, run)
    requires AllOf(name, run)
    ensures var k := FirstRaising(targets, run);
            && Known(targets, stores, run[..k])
            && var front := NodesApplied(targets, stores, run[..k]);
               && (k < |run| ==> RunApplied(targets, stores, name, run) == BatchOutcome(stores, Err(TooManyValues)))
               && (RunApplied(targets, stores, name, run) == NodesApplied(targets, stores, run)
                   <==> k == |run| || (front.result.Ok? && front.stores == stores))
  {
    AdmissionsExactly(targets, name, run);
    if FirstRaising(targets, run) == |run| {
      assert run[..|run|] == run;
      RunIsItsNodes(targets, stores, name, run);
    } else {
      RaisingNodeEnds(targets, stores, run);
    }
  }

  /** The failing input: a create the policies grant, before an update whose list of identifiers is too long. */
  lemma OverlongAclRefusesRun(
    schema: Schema, user: Option<string>, ids: seq<string>, idField: string, store: Store,
    item: Payload, generated: Value, change: Payload, condition: Option<Filter>)
    requires |Distinct(ids)| > MAX_IN_VALUES && change.Identified()
    requires (if item.id.Some? then item.id.value else generated) !in store
    ensures var access := Scoped([Acl(ids, idField, AllowAll)], user);
            var targets := map["a" := Target(schema, {Create, Update}, access)];
            var stores := map["a" := store];
            var created := Node("a", CreateEdit(item, generated));
            var run := [created, Node("a", UpdateEdit(change, condition))];
            && Known(targets, stores, run) && Known(targets, stores, [created])
            && RunApplied(targets, stores, "a", run) == BatchOutcome(stores, Err(TooManyValues))
            && NodesApplied(targets, stores, run)
               == BatchOutcome(NodesApplied(targets, stores, [created]).stores, Err(TooManyValues))
            && NodesApplied(targets, stores, run).stores != stores
  {
    var access := Scoped([Acl(ids, idField, AllowAll)], user);
    var targets := map["a" := Target(schema, {Create, Update}, access)];
    var stores := map["a" := store];
    var created, updated := Node("a", CreateEdit(item, generated)), Node("a", UpdateEdit(change, condition));
    OverlongAclGates(targets["a"], ids, idField, user, created.edit, updated.edit);
    AdmissionRaisesExactly(targets, created);
    AdmissionRaisesExactly(targets, updated);
    CreatedAlone(targets, stores, "a", item, generated);
    PairRefused(targets, stores, created, updated);
  }

  lemma CreatedAlone(targets: Targets, stores: Stores, name: string, item: Payload, generated: Value)
    requires name in targets && name in stores && Create in targets[name].supported
    requires Admission(targets[name], CreateEdit(item, generated)) == Ok(Some(CreateEdit(item, generated)))
    requires (if item.id.Some? then item.id.value else generated) !in stores[name]
    ensures NodeApplied(targets, stores, Node(name, CreateEdit(item, generated))).result.Ok?
    ensures NodeApplied(targets, stores, Node(name, CreateEdit(item, generated))).stores != stores
  {
    var inserted := Created(targets[name].schema, stores[name], item, generated);
    assert inserted.store != stores[name];
    assert NodeApplied(targets, stores, Node(name, CreateEdit(item, generated))).stores[name] == inserted.store;
  }

  /** A node that succeeds before one whose gate raises: refused with it in a run, and stored singly. */
  lemma PairRefused(targets: Targets, stores: Stores, first: Node, second: Node)
    requires Known(targets, stores, [first, second])
    requires Known(targets, stores, [first]) && Known(targets, stores, [second])
    requires first.resource in targets && second.resource == first.resource
    requires !Raising(targets, first) && Raising(targets, second)
    requires NodeApplied(targets, stores, first).result.Ok?
    ensures RunApplied(targets, stores, first.resource, [first, second]) == BatchOutcome(stores, Err(TooManyValues))
    ensures NodesApplied(targets, stores, [first]) == NodeApplied(targets, stores, first)
    ensures NodesApplied(targets, stores, [first, second])
         == BatchOutcome(NodeApplied(targets, stores, first).stores, Err(TooManyValues))
  {
    var run, one := [first, second], NodeApplied(targets, stores, first);
    NodeAlone(targets, stores, first);
    NodeAlone(targets, one.stores, second);
    NodesConcat(targets, stores, [first], [second]);
    assert run == [first] + [second];
    AdmissionRaisesExactly(targets, second);
    assert run[0] == first && run[1] == second;
    AdmissionsExactly(targets, first.resource, run);
  }

  lemma NodeAlone(targets: Targets, stores: Stores, node: Node)
    requires node.resource in targets && Known(targets, stores, [node])
    ensures NodesApplied(targets, stores, [node]) == NodeApplied(targets, stores, node)
  {
    assert [node][0] == node && [node][1..] == [];
    var one := NodeApplied(targets, stores, node);
    assert NodesApplied(targets, one.stores, []) == BatchOutcome(one.stores, Ok([]));
    assert one.result.Ok? ==> one.result.value + [] == one.result.value;
  }

  lemma OverlongAclGates(
    target: Target, ids: seq<string>, idField: string, user: Option<string>, created: Edit, updated: Edit)
    requires target.access == Scoped([Acl(ids, idField, AllowAll)], user) && |Distinct(ids)| > MAX_IN_VALUES
    requires created.CreateEdit? && updated.UpdateEdit? && updated.item.Identified()
    ensures Admission(target, created) == Ok(Some(created)) && Admission(target, updated) == Err(TooManyValues)
  {
    var policies := target.access.policies;
    assert policies[0] in policies && Overlong(policies[0], Update);
    GateRaisesExactly(policies, user, updated);
    CreatePermissionIsConstant(policies, user, map[]);
    assert policies[0] in policies && Permits(policies[0], user, Create, map[]);
  }

  // ----- A whole batch -----

  /** How long the maximal run of one resource at the start of a list is. */
  function RunLength(nodes: seq<Node>): (n: nat)
    requires nodes != []
    ensures 1 <= n <= |nodes|
    ensures AllOf(nodes[0].resource, nodes[..n])
    ensures n < |nodes| ==> nodes[n].resource != nodes[0].resource
  {
    if |nodes| > 1 && nodes[1].resource == nodes[0].resource then 1 + RunLength(nodes[1..]) else 1
  }

  lemma FrontAndBack(targets: Targets, stores: Stores, nodes: seq<Node>, n: nat)
    requires n <= |nodes| && Known(targets, stores, nodes)
    ensures Known(targets, stores, nodes[..n]) && Known(targets, stores, nodes[n..])
  {
  }

  /** The nodes split into maximal runs of one resource, each through its resource's service. */
  function BatchApplied(targets: Targets, stores: Stores, nodes: seq<Node>): BatchOutcome
    requires Known(targets, stores, nodes)
    decreases |nodes|
  {
    if nodes == [] then BatchOutcome(stores, Ok([]))
    else
      var n := RunLength(nodes);
      FrontAndBack(targets, stores, nodes, n);
      var run := RunApplied(targets, stores, nodes[0].resource, nodes[..n]);
      if run.result.Err? then run
      else Joined(run.result.value, BatchApplied(targets, run.stores, nodes[n..]))
  }

  /** Where the first run with a raising gate starts, or the length when there is none. */
  function FirstRefused(targets: Targets, nodes: seq<Node>): (i: nat)
    requires Named(targets, nodes)
    ensures i <= |nodes|
    decreases |nodes|
  {
    if nodes == [] then 0
    else
      var n := RunLength(nodes);
      if FirstRaising(targets, nodes[..n]) < n then 0
      else n + FirstRefused(targets, nodes[n..])
  }

  lemma {:induction false} FirstRaisingConcat(targets: Targets, first: seq<Node>, second: seq<Node>)
    requires Named(targets, first) && Named(targets, second) && Named(targets, first + second)
    ensures FirstRaising(targets, first + second) ==
            if FirstRaising(targets, first) < |first| then FirstRaising(targets, first)
            else |first| + FirstRaising(targets, second)
  {
    if first == [] {
      assert first + second == second;
    } else {
      assert (first + second)[1..] == first[1..] + second;
      FirstRaisingConcat(targets, first[1..], second);
    }
  }

  /** No run is refused exactly when no node's gate raises. */
  lemma {:induction false} FirstRefusedExactly(targets: Targets, nodes: seq<Node>)
    requires Named(targets, nodes)
    ensures FirstRefused(targets, nodes) <= FirstRaising(targets, nodes)
    ensures FirstRefused(targets, nodes) == |nodes| <==> FirstRaising(targets, nodes) == |nodes|
    decreases |nodes|
  {
    if nodes != [] {
      var n := RunLength(nodes);
      var run, rest := nodes[..n], nodes[n..];
      assert nodes == run + rest;
      AdmissionsExactly(targets, nodes[0].resource, run);
      FirstRefusedExactly(targets, rest);
      FirstRaisingConcat(targets, run, rest);
    }
  }

  /** Nodes taken singly, and then, if they succeed, a refusal or nothing. */
  function ThenRefused(targets: Targets, stores: Stores, nodes: seq<Node>, refused: bool): BatchOutcome
    requires Known(targets, stores, nodes)
  {
    var front := NodesApplied(targets, stores, nodes);
    if front.result.Err? || !refused then front else BatchOutcome(front.stores, Err(TooManyValues))
  }

  lemma ThenRefusedConcat(
    targets: Targets, stores: Stores, run: seq<Node>, later: seq<Node>, refused: bool, rest: BatchOutcome)
    requires Known(targets, stores, run) && Known(targets, stores, later)
    requires var o := NodesApplied(targets, stores, run);
             o.result.Ok? ==> rest == ThenRefused(targets, o.stores, later, refused)
    ensures Known(targets, stores, run + later)
    ensures var o := NodesApplied(targets, stores, run);
            ThenRefused(targets, stores, run + later, refused)
            == if o.result.Err? then o else Joined(o.result.value, rest)
  {
    NodesConcat(targets, stores, run, later);
  }

  /**
   What a batch does, exactly: it is its nodes singly up to the first run that holds a raising
   gate, and of that run, and of everything after it, nothing is written.
   */
  lemma {:induction false} BatchExactly(targets: Targets, stores: Stores, nodes: seq<Node>)
    requires Known(targets, stores, nodes)
    ensures var i := FirstRefused(targets, nodes);
            && Known(targets, stores, nodes[..i])
            && BatchApplied(targets, stores, nodes) == ThenRefused(targets, stores, nodes[..i], i < |nodes|)
    decreases |nodes|, 2
  {
    var i := FirstRefused(targets, nodes);
    FrontAndBack(targets, stores, nodes, i);
    if nodes == [] {
      assert nodes[..i] == [];
    } else {
      FirstRunExactly(targets, stores, nodes);
      if i == 0 {
        assert nodes[..0] == [];
      } else {
        AnsweredFirst(targets, stores, nodes, RunLength(nodes), i, BatchApplied(targets, stores, nodes));
      }
    }
  }

  /** The case of a first run that is answered, before the outcome of the rest. */
  lemma {:induction false} AnsweredFirst(
    targets: Targets, stores: Stores, nodes: seq<Node>, n: nat, i: nat, outcome: BatchOutcome)
    requires 1 <= n <= i <= |nodes| && Known(targets, stores, nodes[..n]) && Known(targets, stores, nodes[n..])
    requires i == n + FirstRefused(targets, nodes[n..])
    requires var o := NodesApplied(targets, stores, nodes[..n]);
             outcome == if o.result.Err? then o else Joined(o.result.value, BatchApplied(targets, o.stores, nodes[n..]))
    ensures Known(targets, stores, nodes[..i])
    ensures outcome == ThenRefused(targets, stores, nodes[..i], i < |nodes|)
    decreases |nodes|, 1
  {
    RefusedLater(targets, stores, nodes[..n], nodes[n..], i - n, outcome);
    SlicesJoin(nodes, n, i);
  }

  lemma SlicesJoin(nodes: seq<Node>, n: nat, i: nat)
    requires n <= i <= |nodes|
    ensures nodes[..n] + nodes[n..][..i - n] == nodes[..i]
  {
  }

  /** A run that is answered, before a batch whose outcome is known. */
  lemma {:induction false} RefusedLater(
    targets: Targets, stores: Stores, run: seq<Node>, rest: seq<Node>, i: nat, outcome: BatchOutcome)
    requires Known(targets, stores, run) && Known(targets, stores, rest)
    requires i == FirstRefused(targets, rest)
    requires var o := NodesApplied(targets, stores, run);
             outcome == if o.result.Err? then o else Joined(o.result.value, BatchApplied(targets, o.stores, rest))
    ensures Known(targets, stores, run + rest[..i])
    ensures outcome == ThenRefused(targets, stores, run + rest[..i], i < |rest|)
    decreases |rest|, 3
  {
    FrontAndBack(targets, stores, rest, i);
    var o := NodesApplied(targets, stores, run);
    if o.result.Ok? {
      BatchExactly(targets, o.stores, rest);
    }
    ThenRefusedConcat(targets, stores, run, rest[..i], i < |rest|, BatchApplied(targets, o.stores, rest));
  }

  /** The first run of a batch: refused as a whole, or its nodes singly and then the rest. */
  lemma FirstRunExactly(targets: Targets, stores: Stores, nodes: seq<Node>)
    requires nodes != [] && Known(targets, stores, nodes)
    ensures var n := RunLength(nodes);
            && Known(targets, stores, nodes[..n]) && Known(targets, stores, nodes[n..])
            && if FirstRefused(targets, nodes) == 0 then
                 BatchApplied(targets, stores, nodes) == BatchOutcome(stores, Err(TooManyValues))
               else
                 var o := NodesApplied(targets, stores, nodes[..n]);
                 && FirstRefused(targets, nodes) == n + FirstRefused(targets, nodes[n..])
                 && BatchApplied(targets, stores, nodes)
                    == if o.result.Err? then o else Joined(o.result.value, BatchApplied(targets, o.stores, nodes[n..]))
  {
    var n, name := RunLength(nodes), nodes[0].resource;
    FrontAndBack(targets, stores, nodes, n);
    AdmissionsExactly(targets, name, nodes[..n]);
    if FirstRaising(targets, nodes[..n]) == n {
      RunIsItsNodes(targets, stores, name, nodes[..n]);
    }
  }

  /** So when no gate of a batch raises, the batch is its nodes singly, in the caller's order. */
  lemma BatchIsItsNodes(targets: Targets, stores: Stores, nodes: seq<Node>)
    requires Known(targets, stores, nodes)
    requires forall i :: 0 <= i < |nodes| ==> !Raising(targets, nodes[i])
    ensures BatchApplied(targets, stores, nodes) == NodesApplied(targets, stores, nodes)
  {
    BatchExactly(targets, stores, nodes);
    FirstRefusedExactly(targets, nodes);
    assert nodes[..|nodes|] == nodes;
  }

  lemma PrefixRaises(targets: Targets, stores: Stores, front: seq<Node>, before: seq<Node>)
    requires Known(targets, stores, front) && Known(targets, stores, before) && before <= front
    requires NodesApplied(targets, stores, before).result.Err?
    ensures NodesApplied(targets, stores, front) == NodesApplied(targets, stores, before)
  {
    var rest := front[|before|..];
    assert front == before + rest;
    NodesConcat(targets, stores, before, rest);
  }

  /**
   And with a raising gate in it, a batch is its nodes singly exactly when a node before the
   refused run raises, or those of the refused run before the raising one write nothing.
   */
  lemma BatchIsItsNodesExactly(targets: Targets, stores: Stores, nodes: seq<Node>)
    requires Known(targets, stores, nodes) && FirstRaising(targets, nodes) < |nodes|
    ensures var i, k := FirstRefused(targets, nodes), FirstRaising(targets, nodes);
            && i <= k && Known(targets, stores, nodes[..i]) && Known(targets, stores, nodes[..k])
            && var before := NodesApplied(targets, stores, nodes[..i]);
               var front := NodesApplied(targets, stores, nodes[..k]);
               BatchApplied(targets, stores, nodes) == NodesApplied(targets, stores, nodes)
               <==> before.result.Err? || (front.result.Ok? && front.stores == before.stores)
  {
    var i, k := FirstRefused(targets, nodes), FirstRaising(targets, nodes);
    BatchExactly(targets, stores, nodes);
    FirstRefusedExactly(targets, nodes);
    RaisingNodeEnds(targets, stores, nodes);
    FrontAndBack(targets, stores, nodes, i);
    FrontAndBack(targets, stores, nodes, k);
    if NodesApplied(targets, stores, nodes[..i]).result.Err? {
      PrefixRaises(targets, stores, nodes[..k], nodes[..i]);
    }
  }

  /** Node k raises, and what is left is what the nodes before it wrote. */
  ghost predicate FailsAt(targets: Targets, stores: Stores, nodes: seq<Node>, left: Stores, k: nat)
    requires k < |nodes|
  {
    && Known(targets, stores, nodes[..k])
    && NodesApplied(targets, stores, nodes[..k]).result.Ok?
    && NodesApplied(targets, stores, nodes[..k]).stores == left
    && nodes[k].resource in targets && nodes[k].resource in left
    && NodeApplied(targets, left, nodes[k]).result.Err?
  }

  lemma FailsOneLater(targets: Targets, stores: Stores, nodes: seq<Node>, left: Stores, k: nat)
    requires Known(targets, stores, nodes) && k < |nodes| - 1
    requires NodeApplied(targets, stores, nodes[0]).result.Ok?
    requires FailsAt(targets, NodeApplied(targets, stores, nodes[0]).stores, nodes[1..], left, k)
    ensures FailsAt(targets, stores, nodes, left, k + 1)
  {
    var first := NodeApplied(targets, stores, nodes[0]);
    assert nodes[..k + 1][0] == nodes[0] && nodes[..k + 1][1..] == nodes[1..][..k];
    assert nodes[1..][k] == nodes[k + 1];
    assert NodesApplied(targets, stores, nodes[..k + 1])
        == Joined(first.result.value, NodesApplied(targets, first.stores, nodes[1..][..k]));
  }

  /** Nodes taken singly leave, when one raises, exactly the nodes before it applied. */
  lemma {:induction false} FailureLeavesPrefix(targets: Targets, stores: Stores, nodes: seq<Node>)
    returns (k: nat)
    requires Known(targets, stores, nodes)
    requires NodesApplied(targets, stores, nodes).result.Err?
    ensures k < |nodes| && FailsAt(targets, stores, nodes, NodesApplied(targets, stores, nodes).stores, k)
    decreases nodes
  {
    var first := NodeApplied(targets, stores, nodes[0]);
    if first.result.Err? {
      assert first.stores == stores;
      k := 0;
      assert nodes[..0] == [];
      assert NodesApplied(targets, stores, nodes[..0]) == BatchOutcome(stores, Ok([]));
    } else {
      k := FailureLeavesPrefix(targets, first.stores, nodes[1..]);
      FailsOneLater(targets, stores, nodes, NodesApplied(targets, first.stores, nodes[1..]).stores, k);
      k := k + 1;
    }
  }

  lemma FailsAtWithin(targets: Targets, stores: Stores, nodes: seq<Node>, n: nat, left: Stores, k: nat)
    requires Known(targets, stores, nodes) && k < n <= |nodes|
    requires FailsAt(targets, stores, nodes[..n], left, k)
    ensures FailsAt(targets, stores, nodes, left, k)
  {
    assert nodes[..n][..k] == nodes[..k] && nodes[..n][k] == nodes[k];
  }

  /**
   A batch that raises leaves, without rollback, exactly the nodes before some node k applied.
   Either that node raises as it is applied, or it starts the run that its service refuses.
   */
  lemma BatchFailureLeavesPrefix(targets: Targets, stores: Stores, nodes: seq<Node>) returns (k: nat)
    requires Known(targets, stores, nodes)
    requires BatchApplied(targets, stores, nodes).result.Err?
    ensures k < |nodes| && k <= FirstRefused(targets, nodes) && Known(targets, stores, nodes[..k])
    ensures NodesApplied(targets, stores, nodes[..k]).result.Ok?
    ensures BatchApplied(targets, stores, nodes).stores == NodesApplied(targets, stores, nodes[..k]).stores
    ensures k < FirstRefused(targets, nodes) ==>
              FailsAt(targets, stores, nodes, BatchApplied(targets, stores, nodes).stores, k)
  {
    k := FirstRefused(targets, nodes);
    BatchExactly(targets, stores, nodes);
    FrontAndBack(targets, stores, nodes, k);
    var front := nodes[..k];
    if NodesApplied(targets, stores, front).result.Err? {
      k := FailureLeavesPrefix(targets, stores, front);
      FailsAtWithin(targets, stores, nodes, |front|, NodesApplied(targets, stores, front).stores, k);
    } else if k == |nodes| {
      assert false;
    }
  }

  // ----- The endpoint -----

  /** The inner loop of the batch: where the maximal run that starts at index ends. */
  method EndOfRun(nodes: seq<Node>, index: nat) returns (runEnd: nat)
    requires index < |nodes|
    ensures runEnd == index + RunLength(nodes[index..])
  {
    var name := nodes[index].resource;
    runEnd := index;
    while runEnd < |nodes| && nodes[runEnd].resource == name
      invariant index <= runEnd <= |nodes|
      invariant forall k :: index <= k < runEnd ==> nodes[k].resource == name
      invariant runEnd == index ==> nodes[runEnd].resource == name
    {
      runEnd := runEnd + 1;
    }
    RunLengthIs(nodes[index..], runEnd - index);
  }

  lemma RunLengthIs(nodes: seq<Node>, n: nat)
    requires 1 <= n <= |nodes|
    requires forall j :: 0 <= j < n ==> nodes[j].resource == nodes[0].resource
    requires n < |nodes| ==> nodes[n].resource != nodes[0].resource
    ensures RunLength(nodes) == n
  {
    var m := RunLength(nodes);
    assert forall j :: 0 <= j < m ==> nodes[..m][j] == nodes[j];
  }

  /** What a service of this access makes of a list of edits is what its gates and its store make of it. */
  lemma {:induction false} AdmissionsOfAccess(target: Target, store: Store, edits: seq<Edit>)
    ensures target.access.Scoped? ==>
              Admissions(target, edits) == GateEach(target.access.policies, target.access.user, edits)
    ensures target.access.Open? ==>
              && Admissions(target, edits).Ok?
              && OneByOne(target.schema, target.supported, store, Admissions(target, edits).value)
                 == AppliedEach(target.schema, target.supported, store, edits)
    decreases edits
  {
    if edits != [] {
      var one := AppliedOne(target.schema, target.supported, store, edits[0]);
      AdmissionsOfAccess(target, one.store, edits[1..]);
      if target.access.Open? {
        var gates := Admissions(target, edits).value;
        assert gates[0] == Some(edits[0]) && gates[1..] == Admissions(target, edits[1..]).value;
      }
    }
  }

  class BatchEndpoint {
    const targets: Targets
    var stores: Stores

    ghost predicate Valid()
      reads this
    {
      && (forall name :: name in targets ==> name in stores)
      && forall name :: name in stores ==> ValidStore(stores[name])
    }

    constructor (targets: Targets)
      ensures this.targets == targets && stores == (map name | name in targets :: map[]) && Valid()
    {
      this.targets := targets;
      stores := map name | name in targets :: map[];
    }

    /** The edits through the one service the builder makes for this resource and caller. */
    method ServeEdits(name: string, edits: seq<Edit>) returns (result: Result<seq<Option<Row>>, Error>)
      requires Valid() && name in targets && forall edit :: edit in edits ==> ValidEdit(edit)
      modifies this
      ensures Valid()
      ensures result == ServiceApplied(targets[name], old(stores)[name], edits).result
      ensures stores == old(stores)[name := ServiceApplied(targets[name], old(stores)[name], edits).store]
    {
      var target := targets[name];
      ghost var before := stores;
      AdmissionsOfAccess(target, before[name], edits);
      var inner := new MongoService(target.schema, target.supported);
      inner.documents := stores[name];
      match target.access {
        case Open =>
          result := inner.ApplyEdits(edits);
        case Scoped(policies, user) =>
          var service := new AuthorizedService(inner, policies, user);
          result := service.ApplyEdits(edits);
      }
      assert Outcome(inner.documents, result) == ServiceApplied(target, before[name], edits);
      stores := stores[name := inner.documents];
    }

    /** _apply_run: one resource's consecutive nodes, through a single service. */
    method ApplyRun(name: string, run: seq<Node>) returns (result: Result<seq<Item>, Error>)
      requires Valid() && name in targets
      requires AllOf(name, run) && forall n :: n in run ==> ValidEdit(n.edit)
      modifies this
      ensures Valid()
      ensures BatchOutcome(stores, result) == RunApplied(targets, old(stores), name, run)
    {
      assert forall i :: 0 <= i < |run| ==> run[i] in run;
      ghost var target, before := targets[name], stores[name];
      var edited := ServeEdits(name, EditsOf(run));
      if edited.Err? {
        return Err(edited.error);
      }
      OneByOneAligned(target.schema, target.supported, before, Admissions(target, EditsOf(run)).value);
      result := Ok(ItemsOf(run, edited.value));
    }

    /** _apply_batch: splits the nodes into maximal runs of one resource. */
    method ApplyBatch(nodes: seq<Node>) returns (result: Result<seq<Item>, Error>)
      requires Valid()
      requires Named(targets, nodes) && forall n :: n in nodes ==> ValidEdit(n.edit)
      modifies this
      ensures Valid()
      ensures Known(targets, old(stores), nodes)
      ensures BatchOutcome(stores, result) == BatchApplied(targets, old(stores), nodes)
    {
      var items: seq<Item> := [];
      var index := 0;
      ghost var whole := BatchApplied(targets, stores, nodes);
      assert nodes[0..] == nodes;
      JoinedTwice([], [], whole);
      while index < |nodes|
        invariant 0 <= index <= |nodes|
        invariant Valid() && Known(targets, stores, nodes[index..])
        invariant whole == Joined(items, BatchApplied(targets, stores, nodes[index..]))
      {
        var name := nodes[index].resource;
        var runEnd := EndOfRun(nodes, index);
        BatchTurn(targets, stores, nodes, index, runEnd, items);
        var edited := ApplyRun(name, nodes[index..runEnd]);
        if edited.Err? {
          return Err(edited.error);
        }
        items := items + edited.value;
        index := runEnd;
      }
      assert items + [] == items;
      result := Ok(items);
    }
  }

  lemma SlicesWithin(nodes: seq<Node>, index: nat, runEnd: nat)
    requires index <= runEnd <= |nodes|
    ensures nodes[index..][..runEnd - index] == nodes[index..runEnd]
    ensures nodes[index..][runEnd - index..] == nodes[runEnd..]
  {
  }

  /** One turn of the outer loop: the run in front, and the batch that is left. */
  lemma BatchTurn(targets: Targets, stores: Stores, nodes: seq<Node>, index: nat, runEnd: nat, items: seq<Item>)
    requires index < |nodes| && Known(targets, stores, nodes[index..])
    requires runEnd == index + RunLength(nodes[index..])
    ensures nodes[index].resource in targets
    ensures AllOf(nodes[index].resource, nodes[index..runEnd])
    ensures var run := RunApplied(targets, stores, nodes[index].resource, nodes[index..runEnd]);
            && Known(targets, run.stores, nodes[runEnd..])
            && Joined(items, BatchApplied(targets, stores, nodes[index..])) ==
               if run.result.Err? then run
               else Joined(items + run.result.value, BatchApplied(targets, run.stores, nodes[runEnd..]))
  {
    SlicesWithin(nodes, index, runEnd);
    BatchStep(targets, stores, nodes[index..], nodes[index..runEnd], nodes[runEnd..], items);
  }

  lemma BatchStep(
    targets: Targets, stores: Stores, nodes: seq<Node>, front: seq<Node>, rest: seq<Node>, items: seq<Item>)
    requires nodes != [] && Known(targets, stores, nodes)
    requires front == nodes[..RunLength(nodes)] && rest == nodes[RunLength(nodes)..]
    ensures AllOf(nodes[0].resource, front)
    ensures var run := RunApplied(targets, stores, nodes[0].resource, front);
            && Known(targets, run.stores, rest)
            && Joined(items, BatchApplied(targets, stores, nodes)) ==
               if run.result.Err? then run
               else Joined(items + run.result.value, BatchApplied(targets, run.stores, rest))
  {
    var run := RunApplied(targets, stores, nodes[0].resource, front);
    FrontAndBack(targets, stores, nodes, RunLength(nodes));
    if run.result.Ok? {
      JoinedTwice(items, run.result.value, BatchApplied(targets, run.stores, rest));
    }
  }
}
