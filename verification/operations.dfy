/** The array setters and getters and `ml_nlopt_optimize`. Each native call
    is an input: a function from the buffer the binding passes to what NLopt
    answers, or, for a call that only fills a buffer, the status and the
    buffer contents NLopt leaves behind. */
module Operations {
  import opened Enums
  import opened Registry
  import opened Buffers
  import Marshal

  /** What an NLopt getter leaves behind: its status and the contents of the
      buffer it was given. */
  datatype NativeFill<E> = NativeFill(status: NativeResult, buffer: seq<E>)

  /** What `nlopt_optimize` leaves behind: its status, the contents of the
      `x` buffer it optimized in place, and `fopt`. */
  datatype NativeRun<E> = NativeRun(status: NativeResult, x: seq<E>, fopt: E)

  /** The triple `ml_nlopt_optimize` returns to OCaml. */
  datatype Outcome<E> = Outcome(ordinal: nat, x: seq<E>, value: E)

  /** The shape shared by the array setters: copy the whole host array into
      a temporary buffer of its length, hand that buffer to NLopt, free it,
      and map the status. NLopt reads `dimension` cells of the buffer, so
      each setter needs a host array with room for them; the C code does not
      check this. */
  method SetVector<E>(host: seq<E>, nlopt: seq<E> -> NativeResult) returns (ordinal: nat, buffers: seq<BufferEvent>)
    ensures ordinal == MapResult(nlopt(host))
    ensures ordinal < |ResultTable|
    ensures Malloc(0, |host|) in buffers && AllFreed(buffers) && Outstanding(buffers) == 0
  {
    buffers := [Malloc(0, |host|)];
    var b := Marshal.ToNative(host);
    var res := nlopt(b);
    buffers := buffers + [FreeBuffer(0)];
    AllFreedLeavesNothing(buffers);
    ordinal := MapResult(res);
  }

  /** `ml_nlopt_set_lower_bounds`: NLopt receives exactly the host array. */
  method SetLowerBounds<F, E>(h: Handle<F, E>, lb: seq<E>, nlopt: seq<E> -> NativeResult) returns (ordinal: nat, buffers: seq<BufferEvent>)
    requires h.native.Live? && h.native.dimension <= |lb|
    ensures ordinal == MapResult(nlopt(lb))
    ensures Malloc(0, |lb|) in buffers && AllFreed(buffers) && Outstanding(buffers) == 0
  {
    ordinal, buffers := SetVector(lb, nlopt);
  }

  /** `ml_nlopt_set_upper_bounds`: NLopt receives exactly the host array. */
  method SetUpperBounds<F, E>(h: Handle<F, E>, ub: seq<E>, nlopt: seq<E> -> NativeResult) returns (ordinal: nat, buffers: seq<BufferEvent>)
    requires h.native.Live? && h.native.dimension <= |ub|
    ensures ordinal == MapResult(nlopt(ub))
    ensures Malloc(0, |ub|) in buffers && AllFreed(buffers) && Outstanding(buffers) == 0
  {
    ordinal, buffers := SetVector(ub, nlopt);
  }

  /** `ml_nlopt_set_xtol_abs`: NLopt receives exactly the host array. */
  method SetXtolAbs<F, E>(h: Handle<F, E>, tol: seq<E>, nlopt: seq<E> -> NativeResult) returns (ordinal: nat, buffers: seq<BufferEvent>)
    requires h.native.Live? && h.native.dimension <= |tol|
    ensures ordinal == MapResult(nlopt(tol))
    ensures Malloc(0, |tol|) in buffers && AllFreed(buffers) && Outstanding(buffers) == 0
  {
    ordinal, buffers := SetVector(tol, nlopt);
  }

  /** `ml_nlopt_set_initial_step`: NLopt receives exactly the host array. */
  method SetInitialStep<F, E>(h: Handle<F, E>, dx: seq<E>, nlopt: seq<E> -> NativeResult) returns (ordinal: nat, buffers: seq<BufferEvent>)
    requires h.native.Live? && h.native.dimension <= |dx|
    ensures ordinal == MapResult(nlopt(dx))
    ensures Malloc(0, |dx|) in buffers && AllFreed(buffers) && Outstanding(buffers) == 0
  {
    ordinal, buffers := SetVector(dx, nlopt);
  }

  /** The shape shared by the array getters: NLopt fills an n-cell temporary
      buffer; only on SUCCESS are its n cells stored into the caller's array,
      which is otherwise left exactly as it was; the buffer is then freed. */
  method GetVector<E>(n: nat, out: seq<E>, fill: NativeFill<E>) returns (written: seq<E>, ordinal: nat, buffers: seq<BufferEvent>)
    requires |fill.buffer| == n
    requires n <= |out|
    ensures ordinal == MapResult(fill.status)
    ensures fill.status == Success ==> |written| == |out| && written[..n] == fill.buffer && written[n..] == out[n..]
    ensures fill.status != Success ==> written == out
    ensures Malloc(0, n) in buffers && AllFreed(buffers) && Outstanding(buffers) == 0
  {
    buffers := [Malloc(0, n)];
    if fill.status == Success {
      written := Marshal.WriteBack(fill.buffer, n, out);
      assert written[..n] == fill.buffer;
      assert written[n..] == out[n..];
    } else {
      written := out;
    }
    buffers := buffers + [FreeBuffer(0)];
    AllFreedLeavesNothing(buffers);
    ordinal := MapResult(fill.status);
  }

  /** `ml_nlopt_get_lower_bounds`: n is the optimizer's dimension, and the
      caller's array must have room for n cells (the C code does not check). */
  method GetLowerBounds<F, E>(h: Handle<F, E>, lb: seq<E>, fill: NativeFill<E>) returns (written: seq<E>, ordinal: nat, buffers: seq<BufferEvent>)
    requires h.native.Live?
    requires |fill.buffer| == h.native.dimension
    requires h.native.dimension <= |lb|
    ensures ordinal == MapResult(fill.status)
    ensures fill.status == Success ==>
      |written| == |lb| && written[..h.native.dimension] == fill.buffer && written[h.native.dimension..] == lb[h.native.dimension..]
    ensures fill.status != Success ==> written == lb
    ensures Malloc(0, h.native.dimension) in buffers && AllFreed(buffers) && Outstanding(buffers) == 0
  {
    written, ordinal, buffers := GetVector(h.native.dimension, lb, fill);
  }

  /** `ml_nlopt_get_upper_bounds`: as for the lower bounds. */
  method GetUpperBounds<F, E>(h: Handle<F, E>, ub: seq<E>, fill: NativeFill<E>) returns (written: seq<E>, ordinal: nat, buffers: seq<BufferEvent>)
    requires h.native.Live?
    requires |fill.buffer| == h.native.dimension
    requires h.native.dimension <= |ub|
    ensures ordinal == MapResult(fill.status)
    ensures fill.status == Success ==>
      |written| == |ub| && written[..h.native.dimension] == fill.buffer && written[h.native.dimension..] == ub[h.native.dimension..]
    ensures fill.status != Success ==> written == ub
    ensures Malloc(0, h.native.dimension) in buffers && AllFreed(buffers) && Outstanding(buffers) == 0
  {
    written, ordinal, buffers := GetVector(h.native.dimension, ub, fill);
  }

  /** `ml_nlopt_get_xtol_abs`: n is the length of the caller's array, so on
      SUCCESS the whole array is replaced by the buffer's contents. NLopt
      writes `dimension` cells into that buffer, so the array needs room for
      them (the C code does not check); any cells past `dimension` are
      uninitialized memory NLopt never wrote, which is why the buffer's
      contents are left unconstrained. */
  method GetXtolAbs<F, E>(h: Handle<F, E>, tol: seq<E>, fill: NativeFill<E>) returns (written: seq<E>, ordinal: nat, buffers: seq<BufferEvent>)
    requires h.native.Live? && h.native.dimension <= |tol|
    requires |fill.buffer| == |tol|
    ensures ordinal == MapResult(fill.status)
    ensures fill.status == Success ==> written == fill.buffer
    ensures fill.status != Success ==> written == tol
    ensures Malloc(0, |tol|) in buffers && AllFreed(buffers) && Outstanding(buffers) == 0
  {
    written, ordinal, buffers := GetVector(|tol|, tol, fill);
  }

  /** `ml_nlopt_get_initial_step`: n is the length of the reference point x,
      which is copied into a buffer for NLopt; on SUCCESS the n cells of the
      step buffer are stored into the caller's `dx`. NLopt reads and
      writes `dimension` cells of the two |x|-cell buffers, and the n cells
      are stored into `dx` unchecked, so x needs room for `dimension` cells
      and dx for |x| cells (the C code checks neither); cells past
      `dimension` are uninitialized memory NLopt never wrote. */
  method GetInitialStep<F, E>(h: Handle<F, E>, x: seq<E>, dx: seq<E>, nlopt: seq<E> -> NativeFill<E>) returns (written: seq<E>, ordinal: nat, buffers: seq<BufferEvent>)
    requires h.native.Live? && h.native.dimension <= |x|
    requires |nlopt(x).buffer| == |x|
    requires |x| <= |dx|
    ensures ordinal == MapResult(nlopt(x).status)
    ensures nlopt(x).status == Success ==>
      |written| == |dx| && written[..|x|] == nlopt(x).buffer && written[|x|..] == dx[|x|..]
    ensures nlopt(x).status != Success ==> written == dx
    ensures Malloc(0, |x|) in buffers && Malloc(1, |x|) in buffers
    ensures AllFreed(buffers) && Outstanding(buffers) == 0
  {
    buffers := [Malloc(0, |x|), Malloc(1, |x|)];
    var xb := Marshal.ToNative(x);
    var fill := nlopt(xb);
    var dxBuffer;
    written, ordinal, dxBuffer := GetVector(|x|, dx, fill);
    buffers := buffers + [FreeBuffer(0), FreeBuffer(1)];
    assert buffers[1..] == [Malloc(1, |x|), FreeBuffer(0), FreeBuffer(1)];
    assert buffers[2..] == [FreeBuffer(0), FreeBuffer(1)];
    AllFreedLeavesNothing(buffers);
  }

  /** `ml_nlopt_optimize` as it should be: copy the host x into a buffer,
      let NLopt optimize it in place, copy the buffer back into a fresh array
      of the same length whatever the status, free the buffer, and return
      (status ordinal, x, fopt). NLopt reads and writes `dimension` cells of
      the buffer, so x needs room for them (the C code does not check). */
  method Optimize<F, E>(h: Handle<F, E>, x: seq<E>, nlopt: seq<E> -> NativeRun<E>) returns (r: Outcome<E>, buffers: seq<BufferEvent>)
    requires h.native.Live? && h.native.dimension <= |x|
    requires |nlopt(x).x| == |x|
    ensures |r.x| == |x|
    ensures r.x == nlopt(x).x
    ensures r.value == nlopt(x).fopt
    ensures r.ordinal == MapResult(nlopt(x).status)
    ensures Malloc(0, |x|) in buffers && AllFreed(buffers) && Outstanding(buffers) == 0
  {
    var len := |x|;
    buffers := [Malloc(0, len)];
    var xb := Marshal.ToNative(x);
    var res := nlopt(xb);
    var xopt := Marshal.FromNative(res.x, len);
    buffers := buffers + [FreeBuffer(0)];
    AllFreedLeavesNothing(buffers);
    r := Outcome(MapResult(res.status), xopt, res.fopt);
  }

  /** `ml_nlopt_optimize` as written: the same result, but the buffer `x` is
      never freed, so every call leaves |x| cells allocated. */
  method OptimizeAsWritten<F, E>(h: Handle<F, E>, x: seq<E>, nlopt: seq<E> -> NativeRun<E>) returns (r: Outcome<E>, buffers: seq<BufferEvent>)
    requires h.native.Live? && h.native.dimension <= |x|
    requires |nlopt(x).x| == |x|
    ensures r.x == nlopt(x).x && r.value == nlopt(x).fopt && r.ordinal == MapResult(nlopt(x).status)
    ensures Malloc(0, |x|) in buffers && Outstanding(buffers) == |x|
    ensures 0 < |x| ==> !AllFreed(buffers)
  {
    var len := |x|;
    buffers := [Malloc(0, len)];
    var xb := Marshal.ToNative(x);
    var res := nlopt(xb);
    var xopt := Marshal.FromNative(res.x, len);
    r := Outcome(MapResult(res.status), xopt, res.fopt);
  }
}
