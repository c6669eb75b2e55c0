/** `validateSynchronizationPlan` of `src/domain/synchronization.ts`: which plans are refused, and with which errors. */
module PlanValidation {
  import opened Options
  import opened DependencyGraph

  datatype Action = Action(id: string, kind: string, detailKind: string, before: seq<string>)

  datatype PlanError =
    | DuplicateAction(id: string)
    | KindMismatch(id: string, kind: string, detailKind: string)
    | MissingReference(id: string, before: string)
    | ActionCycle(cycle: seq<string>)

  function NodesOfPlan(actions: seq<Action>): seq<Node> {
    seq(|actions|, k requires 0 <= k < |actions| => Node(actions[k].id, actions[k].before))
  }

  /** The action at place k, together with the ones before it, gives rise to the error. */
  ghost predicate Causes(actions: seq<Action>, k: int, error: PlanError) {
    && 0 <= k < |actions|
    && match error
    case DuplicateAction(id) => id == actions[k].id && DeclaredIn(actions[..k], id)
    case KindMismatch(id, kind, detailKind) => id == actions[k].id && kind == actions[k].kind
                                               && detailKind == actions[k].detailKind && kind != detailKind
    case MissingReference(id, before) => id == actions[k].id && before in actions[k].before
                                         && !DeclaredIn(actions, before)
    case ActionCycle(cycle) => false
  }

  ghost predicate DeclaredIn(actions: seq<Action>, id: string) {
    exists k :: 0 <= k < |actions| && actions[k].id == id
  }

  /** Distinct ids, details of the announced kind, declared references only, and no cycle. */
  ghost predicate IsExecutable(actions: seq<Action>) {
    && (forall j, k :: 0 <= j < k < |actions| ==> actions[j].id != actions[k].id)
    && (forall k :: 0 <= k < |actions| ==> actions[k].kind == actions[k].detailKind)
    && (forall k, id :: 0 <= k < |actions| && id in actions[k].before ==> DeclaredIn(actions, id))
    && forall cycle :: !IsActionCycle(actions, cycle)
  }

  /** The action that declares `from` last is to run before `to`. */
  ghost predicate RunsBefore(actions: seq<Action>, from: string, to: string) {
    exists k :: IsLastAction(actions, from, k) && to in actions[k].before
  }

  ghost predicate IsLastAction(actions: seq<Action>, id: string, k: int) {
    0 <= k < |actions| && actions[k].id == id && forall j :: k < j < |actions| ==> actions[j].id != id
  }

  /** Actions of which each is to run before the next, back to the first. */
  ghost predicate IsActionCycle(actions: seq<Action>, cycle: seq<string>) {
    |cycle| > 1 && cycle[0] == cycle[|cycle| - 1]
      && forall k :: 0 <= k < |cycle| - 1 ==> RunsBefore(actions, cycle[k], cycle[k + 1])
  }

  lemma EdgesAreOrders(actions: seq<Action>, from: string, to: string)
    ensures Edge(GraphOf(NodesOfPlan(actions)), from, to) <==> RunsBefore(actions, from, to)
  {
    var nodes := NodesOfPlan(actions);
    LastDeclarationCounts(nodes, from);
    forall k ensures IsLastNode(nodes, from, k) <==> IsLastAction(actions, from, k) {
      assert forall j :: 0 <= j < |actions| ==> nodes[j].id == actions[j].id;
    }
  }

  lemma CyclesAreActionCycles(actions: seq<Action>, cycle: seq<string>)
    ensures IsCycle(GraphOf(NodesOfPlan(actions)), cycle) <==> IsActionCycle(actions, cycle)
  {
    forall k | 0 <= k < |cycle| - 1
      ensures Edge(GraphOf(NodesOfPlan(actions)), cycle[k], cycle[k + 1])
              <==> RunsBefore(actions, cycle[k], cycle[k + 1])
    {
      EdgesAreOrders(actions, cycle[k], cycle[k + 1]);
    }
  }

  ghost predicate IsCaused(actions: seq<Action>, upTo: nat, error: PlanError)
    requires upTo <= |actions|
  {
    exists k :: 0 <= k < upTo && Causes(actions, k, error)
  }

  method FindActionCycle(actions: seq<Action>) returns (found: Option<seq<string>>)
    ensures found.Some? ==> IsActionCycle(actions, found.value)
    ensures found.None? <==> forall cycle :: !IsActionCycle(actions, cycle)
  {
    found := FindCycle(NodesOfPlan(actions));
    forall cycle ensures IsCycle(GraphOf(NodesOfPlan(actions)), cycle) <==> IsActionCycle(actions, cycle) {
      CyclesAreActionCycles(actions, cycle);
    }
  }

  /** What the first loop reports for one action: its id if it was there before, and its kind if it is not its
      detail's. */
  ghost function OwnErrors(actions: seq<Action>, k: nat): seq<PlanError>
    requires k < |actions|
  {
    (if DeclaredIn(actions[..k], actions[k].id) then [DuplicateAction(actions[k].id)] else [])
    + if actions[k].kind != actions[k].detailKind
        then [KindMismatch(actions[k].id, actions[k].kind, actions[k].detailKind)] else []
  }

  ghost function ActionErrors(actions: seq<Action>, upTo: nat): seq<PlanError>
    requires upTo <= |actions|
  {
    if upTo == 0 then [] else ActionErrors(actions, upTo - 1) + OwnErrors(actions, upTo - 1)
  }

  /** What the second loop reports for one action: each reference to an action that is not there, in order. */
  ghost function Missing(actions: seq<Action>, action: Action, names: seq<string>): seq<PlanError> {
    if names == [] then []
    else var last := names[|names| - 1];
         Missing(actions, action, names[..|names| - 1]) + if DeclaredIn(actions, last) then []
                                                          else [MissingReference(action.id, last)]
  }

  ghost function ReferenceErrors(actions: seq<Action>, upTo: nat): seq<PlanError>
    requires upTo <= |actions|
  {
    if upTo == 0 then []
    else ReferenceErrors(actions, upTo - 1) + Missing(actions, actions[upTo - 1], actions[upTo - 1].before)
  }

  lemma {:induction false} ActionErrorsAreCaused(actions: seq<Action>, upTo: nat, error: PlanError)
    requires upTo <= |actions|
    ensures error in ActionErrors(actions, upTo)
      <==> (error.DuplicateAction? || error.KindMismatch?) && IsCaused(actions, upTo, error)
  {
    if upTo > 0 {
      ActionErrorsAreCaused(actions, upTo - 1, error);
      OneMore(actions, upTo - 1, error);
      assert error in OwnErrors(actions, upTo - 1)
             <==> (error.DuplicateAction? || error.KindMismatch?) && Causes(actions, upTo - 1, error);
    }
  }

  lemma {:induction false} MissingIsCaused(actions: seq<Action>, action: Action, names: seq<string>, error: PlanError)
    ensures error in Missing(actions, action, names)
      <==> error.MissingReference? && error.id == action.id && error.before in names
           && !DeclaredIn(actions, error.before)
  {
    if names != [] {
      MissingIsCaused(actions, action, names[..|names| - 1], error);
      assert names == names[..|names| - 1] + [names[|names| - 1]];
    }
  }

  lemma {:induction false} ReferenceErrorsAreCaused(actions: seq<Action>, upTo: nat, error: PlanError)
    requires upTo <= |actions|
    ensures error in ReferenceErrors(actions, upTo) <==> error.MissingReference? && IsCaused(actions, upTo, error)
  {
    if upTo > 0 {
      ReferenceErrorsAreCaused(actions, upTo - 1, error);
      OneMore(actions, upTo - 1, error);
      MissingIsCaused(actions, actions[upTo - 1], actions[upTo - 1].before, error);
    }
  }

  /** The first loop: ids and kinds. */
  method CheckActions(actions: seq<Action>) returns (errors: seq<PlanError>, ids: set<string>)
    ensures forall id :: id in ids <==> DeclaredIn(actions, id)
    ensures errors == ActionErrors(actions, |actions|)
  {
    errors, ids := [], {};
    for k := 0 to |actions|
      invariant forall id :: id in ids <==> DeclaredIn(actions[..k], id)
      invariant errors == ActionErrors(actions, k)
    {
      var action := actions[k];
      ghost var before := errors;
      if action.id in ids { errors := errors + [DuplicateAction(action.id)]; }
      if action.kind != action.detailKind { errors := errors + [KindMismatch(action.id, action.kind,
                                                                             action.detailKind)]; }
      assert errors == before + OwnErrors(actions, k);
      DeclaredByOneMore(actions, k);
      ids := ids + {action.id};
    }
    assert actions[..|actions|] == actions;
  }

  lemma OneMore(actions: seq<Action>, k: nat, error: PlanError)
    requires k < |actions|
    ensures IsCaused(actions, k + 1, error) <==> IsCaused(actions, k, error) || Causes(actions, k, error)
  {
  }

  lemma DeclaredByOneMore(actions: seq<Action>, k: nat)
    requires k < |actions|
    ensures forall id :: DeclaredIn(actions[..k + 1], id) <==> DeclaredIn(actions[..k], id) || id == actions[k].id
  {
    assert actions[..k + 1] == actions[..k] + [actions[k]];
    assert actions[..k + 1][k] == actions[k];
    forall id | DeclaredIn(actions[..k], id) ensures DeclaredIn(actions[..k + 1], id) {
      var j :| 0 <= j < k && actions[..k][j].id == id;
      assert actions[..k + 1][j].id == id;
    }
  }

  /** The second loop: references. */
  method CheckReferences(actions: seq<Action>, ids: set<string>) returns (errors: seq<PlanError>)
    requires forall id :: id in ids <==> DeclaredIn(actions, id)
    ensures errors == ReferenceErrors(actions, |actions|)
  {
    errors := [];
    for k := 0 to |actions|
      invariant errors == ReferenceErrors(actions, k)
    {
      var names := actions[k].before;
      ghost var start := errors;
      for j := 0 to |names|
        invariant errors == start + Missing(actions, actions[k], names[..j])
      {
        assert names[..j + 1][..j] == names[..j];
        if names[j] !in ids { errors := errors + [MissingReference(actions[k].id, names[j])]; }
      }
      assert names[..|names|] == names;
    }
  }

  /** The errors come action by action, then reference by reference, then the cycle if there is one. Every error
      reported has its cause in the plan, every cause is reported, and only an executable plan has none. */
  method ValidateSynchronizationPlan(actions: seq<Action>) returns (errors: seq<PlanError>)
    ensures var listed := ActionErrors(actions, |actions|) + ReferenceErrors(actions, |actions|);
      if forall cycle :: !IsActionCycle(actions, cycle) then errors == listed
      else |errors| == |listed| + 1 && errors[..|listed|] == listed && errors[|listed|].ActionCycle?
           && IsActionCycle(actions, errors[|listed|].cycle)
    ensures forall error :: error in errors && !error.ActionCycle? <==> IsCaused(actions, |actions|, error)
    ensures errors == [] <==> IsExecutable(actions)
  {
    var ids, references;
    errors, ids := CheckActions(actions);
    references := CheckReferences(actions, ids);
    errors := errors + references;
    ghost var listed := errors;
    ListedIsCaused(actions);
    NothingCaused(actions);
    assert listed == [] <==> forall error :: error !in listed by { assert listed != [] ==> listed[0] in listed; }
    var cycle := FindActionCycle(actions);
    if cycle.Some? {
      errors := errors + [ActionCycle(cycle.value)];
    }
  }

  lemma ListedIsCaused(actions: seq<Action>)
    ensures var listed := ActionErrors(actions, |actions|) + ReferenceErrors(actions, |actions|);
      && (forall error :: error in listed <==> IsCaused(actions, |actions|, error))
      && forall error :: error in listed ==> !error.ActionCycle?
  {
    var own, references := ActionErrors(actions, |actions|), ReferenceErrors(actions, |actions|);
    forall error ensures error in own + references <==> IsCaused(actions, |actions|, error)
      ensures error in own + references ==> !error.ActionCycle?
    {
      ActionErrorsAreCaused(actions, |actions|, error);
      ReferenceErrorsAreCaused(actions, |actions|, error);
      assert error in own + references <==> error in own || error in references;
    }
  }

  lemma NotACause(actions: seq<Action>, k: nat, error: PlanError)
    requires k < |actions| && !IsCaused(actions, |actions|, error)
    ensures !Causes(actions, k, error)
  {
  }

  lemma NothingCaused(actions: seq<Action>)
    ensures IsExecutable(actions)
      <==> (forall cycle :: !IsActionCycle(actions, cycle)) && forall error :: !IsCaused(actions, |actions|, error)
  {
    if forall error :: !IsCaused(actions, |actions|, error) {
      forall j, k | 0 <= j < k < |actions| ensures actions[j].id != actions[k].id {
        var error := DuplicateAction(actions[k].id);
        assert actions[..k][j] == actions[j];
        NotACause(actions, k, error);
      }
      forall k | 0 <= k < |actions| ensures actions[k].kind == actions[k].detailKind {
        var error := KindMismatch(actions[k].id, actions[k].kind, actions[k].detailKind);
        NotACause(actions, k, error);
      }
      forall k, id | 0 <= k < |actions| && id in actions[k].before ensures DeclaredIn(actions, id) {
        var error := MissingReference(actions[k].id, id);
        NotACause(actions, k, error);
      }
    }
  }
}
