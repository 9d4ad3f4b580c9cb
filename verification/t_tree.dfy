/**
 The T Tree shell: a logical clock that advances by one per action, a head
 Talent Node that is set by the first node added and never replaced, and the
 limits a tree starts with. Teardown does nothing in this revision.
 */
module TTrees {
  import opened Wrappers
  import opened TalentNodes

  /** The limits a new tree starts with. */
  const InitialBurnoutLimit: int := 2
  const InitialMaxTasks: int := 5

  datatype TTree = TTree(
    time: int,
    talentHead: Option<TalentNode>,
    burnoutLimit: int,
    maxTasks: int)

  /** A new tree: no actions yet, no head, the initial limits. */
  function NewTTree(): (t: TTree)
    ensures t.time == 0 && t.talentHead.None?
    ensures t.burnoutLimit == 2 && t.maxTasks == 5
  {
    TTree(0, None, InitialBurnoutLimit, InitialMaxTasks)
  }

  /** Everything but the clock. */
  predicate SameShape(a: TTree, b: TTree)
  {
    a.talentHead == b.talentHead && a.burnoutLimit == b.burnoutLimit && a.maxTasks == b.maxTasks
  }

  /** One action on the tree: the clock ticks once, whatever the action, and nothing else changes. */
  function UpdateTime(t: TTree, actionType: string): (r: TTree)
    ensures r.time == t.time + 1
    ensures SameShape(t, r)
  {
    t.(time := t.time + 1)
  }

  /** The first node added becomes the head; any later one is ignored. */
  function AddTalentNode(t: TTree, talentNode: TalentNode): (r: TTree)
    ensures t.talentHead.None? ==> r.talentHead == Some(talentNode)
    ensures t.talentHead.None? ==> r.time == t.time && r.burnoutLimit == t.burnoutLimit && r.maxTasks == t.maxTasks
    ensures t.talentHead.Some? ==> r == t
  {
    if t.talentHead.None? then t.(talentHead := Some(talentNode)) else t
  }

  /** Teardown leaves the tree as it is. */
  function Death(t: TTree): (r: TTree)
    ensures r == t
  {
    t
  }

  /** The operations of the tree, as a caller issues them. */
  datatype TreeOp =
    | Action(actionType: string)
    | AddTalent(talentNode: TalentNode)
    | Die

  function Step(t: TTree, op: TreeOp): TTree
  {
    match op
    case Action(a) => UpdateTime(t, a)
    case AddTalent(node) => AddTalentNode(t, node)
    case Die => Death(t)
  }

  /** The tree after the operations in order. */
  function Run(t: TTree, ops: seq<TreeOp>): TTree
    decreases |ops|
  {
    if |ops| == 0 then t else Run(Step(t, ops[0]), ops[1..])
  }

  /** How many of the operations are actions that tick the clock. */
  function ActionCount(ops: seq<TreeOp>): (k: nat)
    ensures k <= |ops|
    decreases |ops|
  {
    if |ops| == 0 then 0 else (if ops[0].Action? then 1 else 0) + ActionCount(ops[1..])
  }

  /** The node of the first `AddTalent` among the operations, if any. */
  function FirstAdded(ops: seq<TreeOp>): (r: Option<TalentNode>)
    ensures r.Some? ==>
      exists i :: 0 <= i < |ops| && ops[i] == AddTalent(r.value) && (forall j :: 0 <= j < i ==> !ops[j].AddTalent?)
    ensures r.None? ==> forall i :: 0 <= i < |ops| ==> !ops[i].AddTalent?
    decreases |ops|
  {
    if |ops| == 0 then None
    else if ops[0].AddTalent? then Some(ops[0].talentNode)
    else
      var rest := FirstAdded(ops[1..]);
      assert forall i :: 1 <= i < |ops| ==> ops[i] == ops[1..][i - 1];
      rest
  }

  /** Running one sequence after another is running their concatenation. */
  lemma {:induction false} RunAppend(t: TTree, a: seq<TreeOp>, b: seq<TreeOp>)
    ensures Run(t, a + b) == Run(Run(t, a), b)
    decreases |a|
  {
    if |a| > 0 {
      assert (a + b)[1..] == a[1..] + b;
      RunAppend(Step(t, a[0]), a[1..], b);
    } else {
      assert a + b == b;
    }
  }

  /** The clock counts the actions exactly, and the limits never change. */
  lemma {:induction false} RunTime(t: TTree, ops: seq<TreeOp>)
    ensures Run(t, ops).time == t.time + ActionCount(ops)
    ensures Run(t, ops).burnoutLimit == t.burnoutLimit && Run(t, ops).maxTasks == t.maxTasks
    decreases |ops|
  {
    if |ops| > 0 {
      RunTime(Step(t, ops[0]), ops[1..]);
    }
  }

  /** A new tree's clock reads `n` after `n` actions. */
  lemma ActionsFromNew(actionTypes: seq<string>)
    ensures Run(NewTTree(), seq(|actionTypes|, i requires 0 <= i < |actionTypes| => Action(actionTypes[i]))).time
         == |actionTypes|
  {
    var ops := seq(|actionTypes|, i requires 0 <= i < |actionTypes| => Action(actionTypes[i]));
    RunTime(NewTTree(), ops);
    AllActionsCount(ops);
  }

  lemma {:induction false} AllActionsCount(ops: seq<TreeOp>)
    requires forall i :: 0 <= i < |ops| ==> ops[i].Action?
    ensures ActionCount(ops) == |ops|
    decreases |ops|
  {
    if |ops| > 0 {
      assert forall i :: 0 <= i < |ops[1..]| ==> ops[1..][i] == ops[i + 1];
      AllActionsCount(ops[1..]);
    }
  }

  /** The clock never goes back: a longer prefix of the operations reads a time at least as late. */
  lemma RunTimeMonotone(t: TTree, ops: seq<TreeOp>, i: nat, j: nat)
    requires i <= j <= |ops|
    ensures Run(t, ops[..i]).time <= Run(t, ops[..j]).time
  {
    assert ops[..j] == ops[..i] + ops[i..j];
    RunAppend(t, ops[..i], ops[i..j]);
    RunTime(Run(t, ops[..i]), ops[i..j]);
  }

  /** The head is set once: an existing head stays, otherwise the first node added becomes it. */
  lemma {:induction false} RunHead(t: TTree, ops: seq<TreeOp>)
    ensures Run(t, ops).talentHead == if t.talentHead.Some? then t.talentHead else FirstAdded(ops)
    decreases |ops|
  {
    if |ops| > 0 {
      RunHead(Step(t, ops[0]), ops[1..]);
    }
  }
}
