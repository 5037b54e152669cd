/**
  Runs of the B+ tree index: any sequence of its three operations answers as a finite map would.
 */
module TreeRuns {
  import opened TreeShape
  import opened BPlusTrees

  datatype Op = Insert(key: Key, value: int) | Remove(key: Key) | Get(key: Key)

  datatype Reply = Inserted(ok: bool) | Removed | Found(value: int) | NotFound

  function ReplyTo(m: map<Key, int>, op: Op): Reply {
    match op
    case Insert(k, v) => Inserted(k !in m)
    case Remove(k) => Removed
    case Get(k) => if k in m then Found(m[k]) else NotFound
  }

  function After(m: map<Key, int>, op: Op): map<Key, int> {
    match op
    case Insert(k, v) => if k in m then m else m[k := v]
    case Remove(k) => m - {k}
    case Get(k) => m
  }

  function AfterAll(m: map<Key, int>, ops: seq<Op>): map<Key, int> {
    if ops == [] then m else After(AfterAll(m, ops[..|ops| - 1]), ops[|ops| - 1])
  }

  /** What a plain map would answer. */
  function RepliesOf(m: map<Key, int>, ops: seq<Op>): (r: seq<Reply>)
    ensures |r| == |ops|
  {
    if ops == [] then []
    else RepliesOf(m, ops[..|ops| - 1]) + [ReplyTo(AfterAll(m, ops[..|ops| - 1]), ops[|ops| - 1])]
  }

  method Step(tree: BPlusTree, op: Op) returns (reply: Reply)
    requires tree.Valid()
    modifies tree, tree.pool
    ensures tree.Valid() && reply == ReplyTo(old(tree.contents), op) && tree.contents == After(old(tree.contents), op)
  {
    match op {
      case Insert(k, v) =>
        var ok := tree.Insert(k, v);
        reply := Inserted(ok);
      case Remove(k) =>
        ghost var _, _, _ := tree.Remove(k);
        reply := Removed;
      case Get(k) =>
        var found, value := tree.GetValue(k);
        reply := if found then Found(value) else NotFound;
    }
  }

  /** Every run of the tree answers as the map does. */
  method Run(tree: BPlusTree, ops: seq<Op>) returns (replies: seq<Reply>)
    requires tree.Valid()
    modifies tree, tree.pool
    ensures tree.Valid() && tree.contents == AfterAll(old(tree.contents), ops)
    ensures replies == RepliesOf(old(tree.contents), ops)
    decreases |ops|
  {
    if ops == [] {
      return [];
    }
    var last := |ops| - 1;
    replies := Run(tree, ops[..last]);
    var reply := Step(tree, ops[last]);
    replies := replies + [reply];
  }
}
