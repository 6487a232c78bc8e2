// The records the engine works on: tree nodes and the animation steps it records.

module Interfaces {

  /** A tree node. A leaf has no children (the engine leaves its `children`
      undefined; here that is the empty sequence). `id` is the counter value
      behind the node's identifier `node-<id>`. The layout fields `x` and `y`
      play no part in the engine and are not modelled. */
  datatype Node = Node(keys: seq<int>, children: seq<Node>, isLeaf: bool, id: nat)

  datatype Option<T> = None | Some(value: T)

  /** The action tag of a step. */
  datatype Action = InsertAction | DeleteAction | SplitAction | MergeAction | TraverseAction

  /** The human-readable message of a step, kept as the values it is formatted from. */
  datatype Message =
    | StartingInsertion(key: int)
    | ProcessingNode(nodeKeys: seq<int>)
    | InsertedIntoLeaf(key: int)
    | MovingToChild(index: nat, childKeys: seq<int>)
    | SplittingRoot
    | SplitChildAt(index: nat, median: int)
    | FinishedInserting(key: int)

  /** One recorded step: an independent snapshot of the whole tree, the action,
      the message and the ids of the highlighted nodes (possibly none). */
  datatype Step = Step(tree: Node, action: Action, message: Message, highlight: Option<seq<nat>>)
}
