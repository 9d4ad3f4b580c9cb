/**
 A Task Node: one task a talent has accumulated, with its creation time, the
 time it was last touched, and two owned subtrees. In this revision the node
 is a plain record: it can be created, its access time can be moved, and
 `add_child` is a stub that leaves it as it is.
 */
module TaskNodes {
  import opened Wrappers

  /** A task, the logical time it was created and last accessed, and its children. */
  datatype TaskNode = TaskNode(
    taskName: string,
    creationTime: int,
    lastAccessTime: int,
    leftChild: Option<TaskNode>,
    rightChild: Option<TaskNode>)

  /** The two nodes describe the same task in the same place of the tree. */
  predicate SameTask(a: TaskNode, b: TaskNode)
  {
    && a.taskName == b.taskName
    && a.creationTime == b.creationTime
    && a.leftChild == b.leftChild
    && a.rightChild == b.rightChild
  }

  /** Construction: a new node has been accessed exactly when it was created. */
  function NewTaskNode(taskName: string, creationTime: int): (n: TaskNode)
    ensures n.taskName == taskName && n.creationTime == creationTime
    ensures n.lastAccessTime == n.creationTime
    ensures n.leftChild.None? && n.rightChild.None?
  {
    TaskNode(taskName, creationTime, creationTime, None, None)
  }

  /** Records an access at `accessTime`; the task itself and its subtrees are kept. */
  function UpdateAccessTime(n: TaskNode, accessTime: int): (r: TaskNode)
    ensures r.lastAccessTime == accessTime
    ensures SameTask(n, r)
  {
    n.(lastAccessTime := accessTime)
  }

  /** The stub for attaching a child: whatever the flag and the child, nothing changes. */
  function AddChild(n: TaskNode, isBurnout: bool, childNode: TaskNode): (r: TaskNode)
    ensures r == n
  {
    n
  }

  /** Only the latest access time survives two updates. */
  lemma UpdateAccessTimeLastWins(n: TaskNode, first: int, second: int)
    ensures UpdateAccessTime(UpdateAccessTime(n, first), second) == UpdateAccessTime(n, second)
  {
  }

  /** Updating to another time and back restores the node exactly. */
  lemma UpdateAccessTimeUndo(n: TaskNode, accessTime: int)
    ensures UpdateAccessTime(UpdateAccessTime(n, accessTime), n.lastAccessTime) == n
  {
  }

  /** Two nodes for the same task differ only in their access time, so an update makes them equal. */
  lemma UpdateAccessTimeDeterminesNode(a: TaskNode, b: TaskNode, accessTime: int)
    requires SameTask(a, b)
    ensures UpdateAccessTime(a, accessTime) == UpdateAccessTime(b, accessTime)
  {
  }

  /** A node created at time `t` and later accessed at `t'` is the fresh node with `t'` as its access time. */
  lemma AccessedFreshNode(taskName: string, creationTime: int, accessTime: int)
    ensures var n := UpdateAccessTime(NewTaskNode(taskName, creationTime), accessTime);
      && n.creationTime == creationTime
      && n.lastAccessTime == accessTime
      && n.leftChild.None? && n.rightChild.None?
  {
  }
}
