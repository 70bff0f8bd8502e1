/** The element-copy loops between OCaml float arrays and C `double` buffers.
    Elements are opaque: they are only ever copied. A host float array and a
    native buffer are both modelled as a sequence of elements. */
module Marshal {

  /** The loop `for(i=0; i<n; i++) dst[i] = src[i]` into a fresh array of n
      cells: used for host -> native buffers (`Double_field` into a
      `malloc`ed buffer) and native -> host arrays (`Store_double_field` into
      a `caml_alloc`ed array). */
  method Copy<E>(src: seq<E>, n: nat) returns (dst: seq<E>)
    requires n <= |src|
    ensures |dst| == n
    ensures forall i :: 0 <= i < n ==> dst[i] == src[i]
  {
    dst := [];
    var i := 0;
    while i < n
      invariant 0 <= i <= n
      invariant |dst| == i
      invariant forall k :: 0 <= k < i ==> dst[k] == src[k]
    {
      dst := dst + [src[i]];
      i := i + 1;
    }
  }

  /** A host array copied into a fresh native buffer of its own length. */
  method ToNative<E>(host: seq<E>) returns (buffer: seq<E>)
    ensures buffer == host
  {
    buffer := Copy(host, |host|);
  }

  /** The first n cells of a native buffer copied into a fresh host array. */
  method FromNative<E>(buffer: seq<E>, n: nat) returns (host: seq<E>)
    requires n <= |buffer|
    ensures host == buffer[..n]
  {
    host := Copy(buffer, n);
  }

  /** The loop `for(i=0; i<n; i++) Store_double_field(target, i, buffer[i])`
      into an existing host array: the first n cells take the buffer's
      values, the cells after them keep theirs. */
  method WriteBack<E>(buffer: seq<E>, n: nat, target: seq<E>) returns (written: seq<E>)
    requires n <= |buffer| && n <= |target|
    ensures |written| == |target|
    ensures forall i :: 0 <= i < n ==> written[i] == buffer[i]
    ensures forall i :: n <= i < |target| ==> written[i] == target[i]
  {
    written := target;
    var i := 0;
    while i < n
      invariant 0 <= i <= n
      invariant |written| == |target|
      invariant forall k :: 0 <= k < i ==> written[k] == buffer[k]
      invariant forall k :: i <= k < |target| ==> written[k] == target[k]
    {
      written := written[i := buffer[i]];
      i := i + 1;
    }
  }

  /** Host -> native -> host gives back the same array, the empty one
      included. */
  method RoundTrip<E>(v: seq<E>) returns (w: seq<E>)
    ensures w == v
  {
    var buffer := ToNative(v);
    w := FromNative(buffer, |v|);
  }
}
