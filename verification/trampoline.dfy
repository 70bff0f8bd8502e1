/** `ml_nlopt_callback_wrapper`, the one C function NLopt calls back for the
    objective and every constraint. The OCaml closure it runs is an input:
    a function from the arguments it is given to what it returns and to the
    final contents of the gradient array it may fill in place. */
module Trampoline {
  import opened Wrappers
  import opened Registry
  import Marshal

  /** The arguments `caml_callback2` hands the stored closure: the closure
      itself, the fresh float array `x`, and `None` or `Some g`. */
  datatype Invocation<F, E> = Invocation(closure: F, x: seq<E>, gradient: Option<seq<E>>)

  /** What the closure produced: its float result and the contents of the
      gradient array `g` once it returned. */
  datatype Reply<E> = Reply(value: E, gradient: seq<E>)

  /** An OCaml closure cannot change the length of the array it is given. */
  ghost predicate KeepsGradientLength<F(!new), E(!new)>(run: Invocation<F, E> -> Reply<E>) {
    forall inv: Invocation<F, E> :: inv.gradient.Some? ==> |run(inv).gradient| == |inv.gradient.value|
  }

  /** The trampoline, called by NLopt with `n`, the native `x` buffer, the
      native gradient buffer (None for a NULL pointer) and a user-data
      pointer NLopt was given at registration. It reads the closure from the
      slot, copies `x` into a fresh host array, builds `None` or `Some g`
      with `g` a fresh copy of the gradient buffer, runs the closure, copies
      `g` back into the gradient buffer and returns the closure's result. */
  method CallbackWrapper<F(!new), E(!new)>(h: Handle<F, E>, funcData: Slot, n: nat, x: seq<E>,
                               gradient: Option<seq<E>>, run: Invocation<F, E> -> Reply<E>)
    returns (inv: Invocation<F, E>, result: E, gradientOut: Option<seq<E>>)
    requires Valid(h) && funcData in UserData(h.native)
    requires |x| == n
    requires gradient.Some? ==> |gradient.value| == n
    requires KeepsGradientLength(run)
    ensures funcData in h.heap && h.heap[funcData] == Callback(inv.closure)
    ensures inv.x == x
    ensures inv.gradient.None? <==> gradient.None?
    ensures gradient.Some? ==> inv.gradient == gradient
    ensures gradientOut.None? <==> gradient.None?
    ensures gradient.Some? ==> gradientOut == Some(run(inv).gradient) && |gradientOut.value| == n
    ensures result == run(inv).value
  {
    RegisteredSlotsAreLive(h);
    var cb := h.heap[funcData].closure;
    var mlX := Marshal.Copy(x, n);
    var mlGOption: Option<seq<E>>;
    if gradient.None? {
      mlGOption := None;
    } else {
      var mlG := Marshal.Copy(gradient.value, n);
      assert mlG == gradient.value;
      mlGOption := Some(mlG);
    }
    inv := Invocation(cb, mlX, mlGOption);
    var reply := run(inv);
    if gradient.Some? {
      var g := Marshal.Copy(reply.gradient, n);
      assert g == reply.gradient;
      gradientOut := Some(g);
    } else {
      gradientOut := None;
    }
    result := reply.value;
  }
}
