/** The life of the temporary `malloc`ed buffers an entry point uses to pass
    arrays to NLopt. Each call logs its allocations and frees in order; an
    allocation is named by the number it is given in that call. */
module Buffers {

  /** `Malloc(id, cells)` is a `malloc` of `cells` doubles; `FreeBuffer(id)` the
      matching `free`. */
  datatype BufferEvent = Malloc(id: nat, cells: nat) | FreeBuffer(id: nat)

  /** Every buffer the log allocates is freed later in the same log. */
  predicate AllFreed(log: seq<BufferEvent>) {
    forall i :: 0 <= i < |log| && log[i].Malloc? ==> FreeBuffer(log[i].id) in log[i + 1..]
  }

  /** The number of cells still allocated once the log has run: the sizes of
      the allocations that no later event frees. */
  function Outstanding(log: seq<BufferEvent>): (cells: nat)
    ensures |log| == 0 ==> cells == 0
    decreases |log|
  {
    if |log| == 0 then 0
    else
      var rest := Outstanding(log[1..]);
      match log[0]
      case Malloc(id, n) => if FreeBuffer(id) in log[1..] then rest else n + rest
      case FreeBuffer(_) => rest
  }

  /** A log that frees every buffer it allocates leaves no cell allocated. */
  lemma {:induction false} AllFreedLeavesNothing(log: seq<BufferEvent>)
    requires AllFreed(log)
    ensures Outstanding(log) == 0
    decreases |log|
  {
    if |log| > 0 {
      var tail := log[1..];
      forall i | 0 <= i < |tail| && tail[i].Malloc?
        ensures FreeBuffer(tail[i].id) in tail[i + 1..]
      {
        assert tail[i] == log[i + 1];
        assert tail[i + 1..] == log[i + 2..];
      }
      AllFreedLeavesNothing(tail);
      if log[0].Malloc? {
        assert FreeBuffer(log[0].id) in log[1..];
      }
    }
  }

  /** A buffer allocated and never freed is still allocated at the end, so a
      log that leaves nothing allocated frees every buffer of positive size. */
  lemma {:induction false} UnfreedIsOutstanding(log: seq<BufferEvent>, i: nat)
    requires i < |log| && log[i].Malloc? && FreeBuffer(log[i].id) !in log[i + 1..]
    ensures Outstanding(log) >= log[i].cells
    decreases |log|
  {
    if i > 0 {
      assert log[1..][i - 1] == log[i];
      assert log[1..][i - 1 + 1..] == log[i + 1..];
      UnfreedIsOutstanding(log[1..], i - 1);
    }
  }
}
