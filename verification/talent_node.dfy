/**
 A Talent Node: a named category of work with a rank, family pointers into
 the outer tree, and a small buffer of recently stored tasks keyed by the
 logical time at which each was stored. Storing a task records it and stamps
 the node's last access; once the buffer holds `maxTasks` entries it is
 flushed, which in this revision only empties it.

 Family pointers are plain node numbers rather than references, since an
 immutable value cannot point back at its parent; nothing here resolves them.
 */
module TalentNodes {
  import opened Wrappers
  import opened TaskNodes

  /** A number naming another Talent Node; the model never resolves it. */
  type NodeIndex = nat

  /** Limits a Talent Node gets when its creator names none. */
  const DefaultBurnoutLimit: int := 2
  const DefaultMaxTasks: int := 5
  const DefaultRank: int := 0

  datatype TalentNode = TalentNode(
    name: string,
    parent: Option<NodeIndex>,
    leftChild: Option<NodeIndex>,
    rightChild: Option<NodeIndex>,
    recentTaskMap: map<int, string>,
    isBurnout: bool,
    taskHead: Option<TaskNode>,
    lastAccess: int,
    rank: int,
    burnoutLimit: int,
    maxTasks: int)

  /** The node has no parent and no children. */
  predicate Detached(n: TalentNode)
  {
    n.parent.None? && n.leftChild.None? && n.rightChild.None?
  }

  /**
   Everything storing a task must leave alone: identity, place in the tree,
   fatigue, task tree, rank and both limits.
   */
  predicate SameIdentity(a: TalentNode, b: TalentNode)
  {
    && a.name == b.name
    && a.parent == b.parent
    && a.leftChild == b.leftChild
    && a.rightChild == b.rightChild
    && a.isBurnout == b.isBurnout
    && a.taskHead == b.taskHead
    && a.rank == b.rank
    && a.burnoutLimit == b.burnoutLimit
    && a.maxTasks == b.maxTasks
  }

  /** Construction with explicit limits and rank. */
  function NewTalentNode(name: string, burnoutLimit: int, maxTasks: int, rank: int): (n: TalentNode)
    ensures n.name == name && n.rank == rank
    ensures n.burnoutLimit == burnoutLimit && n.maxTasks == maxTasks
    ensures Detached(n)
    ensures n.recentTaskMap == map[] && !n.isBurnout
    ensures n.lastAccess == 0 && n.taskHead.None?
  {
    TalentNode(name, None, None, None, map[], false, None, 0, rank, burnoutLimit, maxTasks)
  }

  /** Construction with every optional argument left at its default. */
  function DefaultTalentNode(name: string): (n: TalentNode)
    ensures n.burnoutLimit == 2 && n.maxTasks == 5 && n.rank == 0
    ensures n == NewTalentNode(name, DefaultBurnoutLimit, DefaultMaxTasks, DefaultRank)
  {
    NewTalentNode(name, DefaultBurnoutLimit, DefaultMaxTasks, DefaultRank)
  }

  /** The number of buffered tasks once `currentTime` has been recorded. */
  function SizeAfterRecording(n: TalentNode, currentTime: int): (k: nat)
  {
    if currentTime in n.recentTaskMap then |n.recentTaskMap| else |n.recentTaskMap| + 1
  }

  /** Storing at `currentTime` fills the buffer up to its capacity and so flushes it. */
  predicate FlushesAt(n: TalentNode, currentTime: int)
  {
    SizeAfterRecording(n, currentTime) >= n.maxTasks
  }

  /** Updating a map at a key adds that key, and nothing else, to its size. */
  lemma MapUpdateSize<K, V>(m: map<K, V>, k: K, v: V)
    ensures |m[k := v]| == if k in m then |m| else |m| + 1
  {
    if k in m {
      assert m[k := v].Keys == m.Keys;
    } else {
      assert m[k := v].Keys == m.Keys + {k};
    }
  }

  /** The flush: the buffered tasks are dropped, everything else stays. */
  function ConvertTasksToNodes(n: TalentNode): (r: TalentNode)
    ensures r.recentTaskMap == map[]
    ensures SameIdentity(n, r) && r.lastAccess == n.lastAccess
  {
    n.(recentTaskMap := map[])
  }

  /**
   Records `taskName` at `currentTime` and stamps the last access. When the
   buffer does not reach capacity it is the old buffer with exactly that one
   entry set; when it reaches capacity it is flushed and ends up empty.
   */
  function StoreTask(n: TalentNode, taskName: string, currentTime: int): (r: TalentNode)
    ensures r.lastAccess == currentTime
    ensures SameIdentity(n, r)
    ensures FlushesAt(n, currentTime) ==> r.recentTaskMap == map[]
    ensures !FlushesAt(n, currentTime) ==>
      && currentTime in r.recentTaskMap
      && r.recentTaskMap[currentTime] == taskName
      && |r.recentTaskMap| == SizeAfterRecording(n, currentTime)
      && (forall t :: t in n.recentTaskMap && t != currentTime ==>
            t in r.recentTaskMap && r.recentTaskMap[t] == n.recentTaskMap[t])
      && (forall t :: t in r.recentTaskMap ==> t in n.recentTaskMap || t == currentTime)
    ensures |r.recentTaskMap| < n.maxTasks || r.recentTaskMap == map[]
  {
    var recorded := n.(recentTaskMap := n.recentTaskMap[currentTime := taskName], lastAccess := currentTime);
    MapUpdateSize(n.recentTaskMap, currentTime, taskName);
    if |recorded.recentTaskMap| >= recorded.maxTasks then
      ConvertTasksToNodes(recorded)
    else
      recorded
  }

  /** The buffer of a node in any reachable state stays below capacity. */
  predicate BufferBelowCapacity(n: TalentNode)
  {
    |n.recentTaskMap| < n.maxTasks
  }

  /** A fresh node with room for at least one task starts below capacity. */
  lemma NewTalentNodeBelowCapacity(name: string, burnoutLimit: int, maxTasks: int, rank: int)
    requires maxTasks >= 1
    ensures BufferBelowCapacity(NewTalentNode(name, burnoutLimit, maxTasks, rank))
  {
  }

  /** With room for at least one task, every store leaves the buffer below capacity. */
  lemma StoreTaskKeepsBelowCapacity(n: TalentNode, taskName: string, currentTime: int)
    requires n.maxTasks >= 1
    ensures BufferBelowCapacity(StoreTask(n, taskName, currentTime))
  {
  }

  /** Storing again at a buffered time overwrites that entry and keeps the size. */
  lemma StoreTaskOverwrites(n: TalentNode, taskName: string, currentTime: int)
    requires BufferBelowCapacity(n)
    requires currentTime in n.recentTaskMap
    ensures var r := StoreTask(n, taskName, currentTime);
      && |r.recentTaskMap| == |n.recentTaskMap|
      && r.recentTaskMap == n.recentTaskMap[currentTime := taskName]
  {
    var r := StoreTask(n, taskName, currentTime);
    assert !FlushesAt(n, currentTime);
    assert r.recentTaskMap.Keys == n.recentTaskMap.Keys;
  }

  /** A store at a new time flushes exactly when the buffer already holds `maxTasks - 1` entries. */
  lemma StoreTaskFlushesIffFull(n: TalentNode, taskName: string, currentTime: int)
    requires BufferBelowCapacity(n)
    requires currentTime !in n.recentTaskMap
    ensures StoreTask(n, taskName, currentTime).recentTaskMap == map[]
        <==> |n.recentTaskMap| == n.maxTasks - 1
  {
    var r := StoreTask(n, taskName, currentTime);
    if |n.recentTaskMap| != n.maxTasks - 1 {
      assert currentTime in r.recentTaskMap;
    }
  }

  /** One call of `store_task`: the task to record and the logical time to record it at. */
  datatype StoreCall = StoreCall(taskName: string, currentTime: int)

  /** The node after the calls in order. */
  function StoreAll(n: TalentNode, calls: seq<StoreCall>): (r: TalentNode)
    decreases |calls|
  {
    if |calls| == 0 then n
    else
      var last := calls[|calls| - 1];
      StoreTask(StoreAll(n, calls[..|calls| - 1]), last.taskName, last.currentTime)
  }

  /** The logical clock only moves forward between calls. */
  predicate StrictlyIncreasingTimes(calls: seq<StoreCall>)
  {
    forall i, j :: 0 <= i < j < |calls| ==> calls[i].currentTime < calls[j].currentTime
  }

  /** No sequence of stores changes identity, place, fatigue, rank or limits. */
  lemma {:induction false} StoreAllKeepsIdentity(n: TalentNode, calls: seq<StoreCall>)
    ensures SameIdentity(n, StoreAll(n, calls))
  {
    if |calls| > 0 {
      StoreAllKeepsIdentity(n, calls[..|calls| - 1]);
    }
  }

  /** After any non-empty sequence of stores the last access is the time of the last call. */
  lemma StoreAllLastAccess(n: TalentNode, calls: seq<StoreCall>)
    requires |calls| > 0
    ensures StoreAll(n, calls).lastAccess == calls[|calls| - 1].currentTime
  {
  }

  /** Every buffered time was buffered at the start or comes from one of the calls. */
  lemma {:induction false} StoreAllKeys(n: TalentNode, calls: seq<StoreCall>)
    ensures forall t :: t in StoreAll(n, calls).recentTaskMap ==>
      t in n.recentTaskMap || exists i :: 0 <= i < |calls| && calls[i].currentTime == t
  {
    if |calls| > 0 {
      var front := calls[..|calls| - 1];
      StoreAllKeys(n, front);
      forall t | t in StoreAll(n, calls).recentTaskMap
        ensures t in n.recentTaskMap || exists i :: 0 <= i < |calls| && calls[i].currentTime == t
      {
        if t != calls[|calls| - 1].currentTime {
          assert t in StoreAll(n, front).recentTaskMap;
          if t !in n.recentTaskMap {
            var i :| 0 <= i < |front| && front[i].currentTime == t;
            assert calls[i].currentTime == t;
          }
        }
      }
    }
  }

  /** The only multiple of `m` strictly between `-m` and `m` is zero. */
  lemma MultipleInOpenInterval(d: int, m: int)
    requires m >= 1 && -m < d * m < m
    ensures d == 0
  {
  }

  /** Division with remainder has only one quotient and remainder. */
  lemma DivModUnique(x: int, q: int, r: int, m: int)
    requires m >= 1 && 0 <= r < m && x == q * m + r
    ensures x % m == r
  {
    var q', r' := x / m, x % m;
    assert x == q' * m + r';
    assert (q - q') * m == r' - r;
    MultipleInOpenInterval(q - q', m);
  }

  /** Counting one more modulo `m`. */
  lemma ModSuccessor(a: nat, m: int)
    requires m >= 1
    ensures (a + 1) % m == if a % m == m - 1 then 0 else a % m + 1
  {
    var q := a / m;
    assert a == q * m + a % m;
    if a % m == m - 1 {
      assert a + 1 == (q + 1) * m + 0;
      DivModUnique(a + 1, q + 1, 0, m);
    } else {
      DivModUnique(a + 1, q, a % m + 1, m);
    }
  }

  /**
   Starting from an empty buffer and storing at strictly increasing times, the
   buffer is flushed every `maxTasks` stores: it holds the number of calls
   modulo `maxTasks`.
   */
  lemma {:induction false} StoreAllSize(n: TalentNode, calls: seq<StoreCall>)
    requires n.maxTasks >= 1 && n.recentTaskMap == map[]
    requires StrictlyIncreasingTimes(calls)
    ensures |StoreAll(n, calls).recentTaskMap| == |calls| % n.maxTasks
  {
    if |calls| > 0 {
      var front := calls[..|calls| - 1];
      var last := calls[|calls| - 1];
      var before := StoreAll(n, front);
      StoreAllSize(n, front);
      StoreAllKeys(n, front);
      StoreAllKeepsIdentity(n, front);
      assert last.currentTime !in before.recentTaskMap by {
        forall i | 0 <= i < |front|
          ensures front[i].currentTime != last.currentTime
        {
          assert front[i] == calls[i];
        }
      }
      ModSuccessor(|front|, n.maxTasks);
    }
  }

  /** Six tasks stored on one talent at the logical times 1 to 6. */
  const SixTasks: seq<StoreCall> := [
    StoreCall("Some long task", 1),
    StoreCall("Some short task", 2),
    StoreCall("Some medium task", 3),
    StoreCall("Workbook", 4),
    StoreCall("Explaining it to someone else", 5),
    StoreCall("Trying it again", 6)]

  lemma SixTasksIncreasing()
    ensures StrictlyIncreasingTimes(SixTasks)
  {
  }

  /**
   With the default capacity of five, the fifth store flushes the buffer and
   the sixth is then the only buffered task.
   */
  lemma SixTasksLeaveOnlyTheLast(name: string)
    ensures StoreAll(DefaultTalentNode(name), SixTasks).recentTaskMap == map[6 := "Trying it again"]
  {
    var n := DefaultTalentNode(name);
    SixTasksIncreasing();
    assert StrictlyIncreasingTimes(SixTasks[..5]);
    StoreAllSize(n, SixTasks[..5]);
    StoreAllKeepsIdentity(n, SixTasks[..5]);
    var before := StoreAll(n, SixTasks[..5]);
    assert before.recentTaskMap == map[];
    assert SixTasks[..6][..5] == SixTasks[..5];
    var r := StoreAll(n, SixTasks);
    assert r == StoreTask(before, "Trying it again", 6);
    assert r.recentTaskMap.Keys == {6};
  }

  // The flush branch as the code is written: the call names a method the class
  // does not define, so the lookup fails after the buffer and the last access
  // have already been updated.

  /** The methods a Talent Node has, under the names they are defined with. */
  const TalentNodeMethods: set<string> := {"__init__", "store_task", "_convert_tasks_to_nodes"}

  /** The name the flush branch of `store_task` calls. */
  const FlushCallee: string := "convert_tasks_to_nodes"

  /** The run-time error a failed method lookup raises. */
  datatype LookupError = AttributeError(attributeName: string)

  /** How a call ends: it returns, or it raises after leaving the node in some state. */
  datatype StoreOutcome =
    | Returned(node: TalentNode)
    | Raised(node: TalentNode, error: LookupError)

  /**
   `store_task` exactly as written. Below capacity it agrees with `StoreTask`;
   at capacity it raises and leaves the full buffer behind.
   */
  function StoreTaskAsWritten(n: TalentNode, taskName: string, currentTime: int): (o: StoreOutcome)
    ensures o.node.lastAccess == currentTime && SameIdentity(n, o.node)
    ensures o.Raised? <==> FlushesAt(n, currentTime)
    ensures o.Returned? ==> o.node == StoreTask(n, taskName, currentTime)
    ensures o.Raised? ==>
      && o.error == AttributeError(FlushCallee)
      && o.node.recentTaskMap == n.recentTaskMap[currentTime := taskName]
  {
    var recorded := n.(recentTaskMap := n.recentTaskMap[currentTime := taskName], lastAccess := currentTime);
    MapUpdateSize(n.recentTaskMap, currentTime, taskName);
    if |recorded.recentTaskMap| >= recorded.maxTasks then
      if FlushCallee in TalentNodeMethods then Returned(ConvertTasksToNodes(recorded))
      else Raised(recorded, AttributeError(FlushCallee))
    else
      Returned(recorded)
  }

  /**
   As written, the store that fills a node's buffer raises, and the node it
   leaves behind is no longer below capacity.
   */
  lemma AsWrittenFillingStoreRaises(n: TalentNode, taskName: string, currentTime: int)
    requires BufferBelowCapacity(n)
    requires currentTime !in n.recentTaskMap
    requires |n.recentTaskMap| == n.maxTasks - 1
    ensures StoreTaskAsWritten(n, taskName, currentTime).Raised?
    ensures !BufferBelowCapacity(StoreTaskAsWritten(n, taskName, currentTime).node)
  {
    MapUpdateSize(n.recentTaskMap, currentTime, taskName);
  }

  /**
   As written, on a default node the first four of the six tasks above are
   stored normally and the fifth raises.
   */
  lemma AsWrittenFifthTaskRaises(name: string)
    ensures
      var o1 := StoreTaskAsWritten(DefaultTalentNode(name), SixTasks[0].taskName, 1);
      var o2 := StoreTaskAsWritten(o1.node, SixTasks[1].taskName, 2);
      var o3 := StoreTaskAsWritten(o2.node, SixTasks[2].taskName, 3);
      var o4 := StoreTaskAsWritten(o3.node, SixTasks[3].taskName, 4);
      var o5 := StoreTaskAsWritten(o4.node, SixTasks[4].taskName, 5);
      o1.Returned? && o2.Returned? && o3.Returned? && o4.Returned? && o5.Raised?
  {
    var o1 := StoreTaskAsWritten(DefaultTalentNode(name), SixTasks[0].taskName, 1);
    assert o1.node.recentTaskMap.Keys == {1};
    var o2 := StoreTaskAsWritten(o1.node, SixTasks[1].taskName, 2);
    assert o2.node.recentTaskMap.Keys == {1, 2};
    var o3 := StoreTaskAsWritten(o2.node, SixTasks[2].taskName, 3);
    assert o3.node.recentTaskMap.Keys == {1, 2, 3};
    var o4 := StoreTaskAsWritten(o3.node, SixTasks[3].taskName, 4);
    assert o4.node.recentTaskMap.Keys == {1, 2, 3, 4};
    AsWrittenFillingStoreRaises(o4.node, SixTasks[4].taskName, 5);
  }
}
