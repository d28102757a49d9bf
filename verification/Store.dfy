/** Operations on the key/value map, and what a list of them does to it. */
module Store {
  import opened Bytes
  import opened KeyOrder

  const MAX_KEY: nat := 0x10_0000
  const MAX_VALUE: nat := 0x100_0000

  /** The engine's own recovery, and the migration reader of the same files. */
  datatype Reader = Engine | Migration

  datatype OpType = Put | Delete

  datatype Operation = Operation(kind: OpType, key: Bytes, value: Bytes)

  /** The byte that stands for an operation type in every log format. */
  function Tag(kind: OpType): byte {
    if kind == Put then 1 else 2
  }

  function ApplyOne(m: Map, op: Operation): Map {
    if op.kind == Put then m[op.key := op.value] else m - {op.key}
  }

  /** The map after the operations, first to last. */
  function Apply(m: Map, ops: seq<Operation>): Map {
    if ops == [] then m else ApplyOne(Apply(m, ops[..|ops| - 1]), ops[|ops| - 1])
  }

  /** Keys that every reader and writer of the formats allows. */
  ghost predicate KeysValid(m: Map) {
    forall k :: k in m ==> 0 < |k| <= MAX_KEY
  }

  lemma {:induction false} ApplyConcat(m: Map, a: seq<Operation>, b: seq<Operation>)
    ensures Apply(m, a + b) == Apply(Apply(m, a), b)
    decreases |b|
  {
    if b == [] {
      assert a + b == a;
    } else {
      ApplyConcat(m, a, b[..|b| - 1]);
      assert (a + b)[..|a + b| - 1] == a + b[..|b| - 1];
    }
  }
}
