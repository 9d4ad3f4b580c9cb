# T Tree core, modelled in Dafny

This project models the core of an early revision of the "T Tree", a ranked tree of talents. Each talent records the tasks performed under it. In this revision the core has three record types:

- **TTree** (`TTrees`, `t_tree.dfy`) is the shell. It has a logical clock that every action advances by one, and a head Talent Node that the first added node sets and that nothing later replaces. It also holds the burnout and task limits it starts with (2 and 5). Teardown (`death`) does nothing yet.
- **TalentNode** (`TalentNodes`, `talent_node.dfy`) is a named talent. It has a rank, family pointers, fatigue and mastery limits, and a buffer of recent tasks keyed by the logical time they were stored at. Storing a task records it and stamps the last access. When the buffer reaches `max_tasks` entries it is flushed, and in this revision the flush only empties it.
- **TaskNode** (`TaskNodes`, `task_node.dfy`) is a task. It has a creation time, a last access time and two subtrees. `add_child` is a stub.

Every operation is a pure function from the old record to the new one. Family pointers are modelled as `Option<NodeIndex>`, where `NodeIndex` is a bare natural number that names a node but is not resolved against any store of nodes. An immutable value cannot refer back to its parent, and this revision never sets the pointers anyway. Records are values: the tree holds a copy of its head node, not a shared reference to it. `Wrappers` (`wrappers.dfy`) supplies `Option` for Python's `None`.

## Model

| member | source | states |
|---|---|---|
| TaskNodes.NewTaskNode | structs/task_node.py:2-7 | a new task node has been last accessed at its creation time, and it has no children |
| TaskNodes.UpdateAccessTime | structs/task_node.py:9-13 | the access time becomes the given time; the name, creation time and both subtrees are kept |
| TaskNodes.AddChild | structs/task_node.py:15-21 | adding a child is a no-op whatever the burnout flag and child are |
| TaskNodes.UpdateAccessTimeLastWins | structs/task_node.py:13 | after two access updates only the later time remains |
| TaskNodes.UpdateAccessTimeUndo | structs/task_node.py:13 | updating to a time and then back to the old access time gives back the original node |
| TaskNodes.UpdateAccessTimeDeterminesNode | structs/task_node.py:9-13 | two nodes that differ at most in access time are equal after the same update |
| TaskNodes.AccessedFreshNode | structs/task_node.py:2-13 | a new node accessed later keeps its creation time, takes the access time and stays childless |
| TalentNodes.NewTalentNode | structs/talent_node.py:2-14 | a new talent node has no parent or children, an empty buffer, no burnout, last access 0 and no task head, and it keeps the given name, rank and limits |
| TalentNodes.DefaultTalentNode | structs/talent_node.py:2 | when no limits are given, burnout limit is 2, max tasks is 5 and rank is 0 |
| TalentNodes.ConvertTasksToNodes | structs/talent_node.py:27-33 | the flush empties the buffer and leaves every other field as it was |
| TalentNodes.StoreTask | structs/talent_node.py:16-22 | the last access becomes the store time; if the buffer does not reach capacity, it gains or overwrites exactly that entry and every other entry is kept; if it reaches capacity, it ends up empty; rank, limits, name, burnout, task head and family pointers never change |
| TalentNodes.NewTalentNodeBelowCapacity | structs/talent_node.py:2-14 | a new node with room for at least one task starts below capacity |
| TalentNodes.StoreTaskKeepsBelowCapacity | structs/talent_node.py:16-33 | when max tasks is at least 1, every store leaves the buffer with fewer than max tasks entries |
| TalentNodes.StoreTaskOverwrites | structs/talent_node.py:17 | storing at a time already in the buffer overwrites that entry and keeps the size |
| TalentNodes.StoreTaskFlushesIffFull | structs/talent_node.py:17-22 | a store at a new time empties the buffer if and only if the buffer already held max tasks minus one entries |
| TalentNodes.StoreAllKeepsIdentity | structs/talent_node.py:16-33 | no sequence of stores changes identity, family pointers, burnout, task head, rank or limits |
| TalentNodes.StoreAllLastAccess | structs/talent_node.py:18 | after a sequence of stores the last access is the time of the last store |
| TalentNodes.StoreAllKeys | structs/talent_node.py:16-33 | every buffered time was either buffered at the start or used by one of the stores |
| TalentNodes.StoreAllSize | structs/talent_node.py:16-33 | from an empty buffer, storing at strictly increasing times leaves the number of stores modulo max tasks in the buffer |
| TalentNodes.SixTasksLeaveOnlyTheLast | structs/talent_node.py:16-33 | on a default node, six tasks stored at times 1 to 6 leave only the sixth task buffered |
| TalentNodes.StoreTaskAsWritten | structs/talent_node.py:16-22 | the code as written agrees with StoreTask below capacity; at capacity it raises AttributeError and leaves the un-flushed buffer behind |
| TalentNodes.AsWrittenFillingStoreRaises | structs/talent_node.py:21-22 | as written, the store that fills the buffer raises and leaves the node at capacity |
| TalentNodes.AsWrittenFifthTaskRaises | structs/talent_node.py:21-27 | as written, on a default node four stores at times 1 to 4 return normally and the fifth store, at time 5, raises |
| TTrees.NewTTree | structs/t_tree.py:2-6 | a new tree has time 0, no head, burnout limit 2 and max tasks 5 |
| TTrees.UpdateTime | structs/t_tree.py:8-15 | every action advances time by exactly one, whatever its type; head and limits do not change |
| TTrees.AddTalentNode | structs/t_tree.py:20-28 | on a tree with no head, the node becomes the head and nothing else changes; on a tree with a head, the tree is unchanged |
| TTrees.Death | structs/t_tree.py:30-33 | teardown leaves the tree unchanged |
| TTrees.RunTime | structs/t_tree.py:15 | over any sequence of operations the clock advances by the number of actions, and the limits stay fixed |
| TTrees.ActionsFromNew | structs/t_tree.py:2-15 | a new tree reads time n after n actions |
| TTrees.RunTimeMonotone | structs/t_tree.py:15 | the clock never decreases along a sequence of operations |
| TTrees.RunHead | structs/t_tree.py:20-28 | over any sequence of operations, an existing head is kept; otherwise the head is the node of the first add, or none if there is no add |

## Left out

- Ranking, promotion, shift-right, eviction, `lost_talents`, `add_task` and `access_task` are left out. Neither the tree nor the talent node implements them in this revision, so there is no code to model.
- The relearn rule and burnout classification are left out. They exist only as TODO comments in `store_task` (structs/talent_node.py:19-20), so the model never sets `is_burnout`.
- Rank updates and moving a node within the tree are left out. They exist only as a TODO in `store_task` (structs/talent_node.py:24), so `rank` never changes.
- Growth of the burnout and task limits is left out. It is mentioned only in comments (structs/talent_node.py:13-14, structs/t_tree.py:5-6), so the limits never change.
- Building Task Nodes from the buffer is left out. It is only a TODO in `_convert_tasks_to_nodes` (structs/talent_node.py:29-30), so the flush only empties the buffer and `task_head` stays empty.
- The `print` in `_convert_tasks_to_nodes` is left out because it is console output. Only the clearing of the buffer is modelled.
- The `is_mastered` field is left out because nothing reads or writes it after construction.
- TTrees.AddTalentNode: the head is a snapshot of the node's value rather than an alias of the caller's object. In the source (structs/t_tree.py:25), a later `store_task` on the same object would show through `talent_head`; in the model it does not.
- TTrees.UpdateTime: the keyword arguments of `update_time` are dropped, because the body never reads them.
- The family pointers of a Talent Node are plain numbers rather than object references, and they are not resolved against any store of nodes. No operation in this revision sets them.
- The console test runner and the randomised test fixture are left out. Both are test tooling that uses I/O and random choice.

## Findings

| source | as written | input that shows it | evidently intended | confidence | as-written member | corrected member |
|---|---|---|---|---|---|---|
| structs/talent_node.py:22 | the flush branch calls `self.convert_tasks_to_nodes()`, but the method is defined as `_convert_tasks_to_nodes` (line 27), so the lookup raises AttributeError after the buffer has already reached `max_tasks` entries | a node with default limits and four buffered tasks, then `store_task` at a fifth, new time | the flush runs, the buffer is cleared, and the buffer stays below `max_tasks` | high (not executed) | TalentNodes.StoreTaskAsWritten | TalentNodes.StoreTask |

The rest of the model uses `TalentNodes.StoreTask`, which calls the flush under its defined name. `TalentNodes.AsWrittenFifthTaskRaises` and `TalentNodes.AsWrittenFillingStoreRaises` prove that the code as written raises. `TalentNodes.StoreTaskKeepsBelowCapacity` proves the intended bound for the corrected version.
