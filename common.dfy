/** Small value types shared by the whole model: optional values, the unsigned
    8-bit cluster ids of the engine, and the resize operation of its vectors. */
module Common {

  datatype Option<+T> = None | Some(value: T)

  /** A cluster id as the engine stores it: an unsigned 8-bit integer. */
  type Byte = x: int | 0 <= x < 256

  /** Storing an index into an 8-bit id keeps its low 8 bits. */
  function ToByte(n: nat): (b: Byte)
    ensures b <= n
    ensures n < 256 ==> b == n
  {
    n % 256
  }

  /** n ids, all zero. */
  function Zeros(n: nat): (z: seq<Byte>)
    ensures |z| == n
    ensures forall i :: 0 <= i < n ==> z[i] == 0
  {
    seq(n, _ => 0)
  }

  /** Resizing a vector: it is cut to n entries, or grown with entries equal
      to `fill` (the value a new element is initialised with). */
  function Resize<T>(s: seq<T>, n: nat, fill: T): (r: seq<T>)
    ensures |r| == n
    ensures forall i :: 0 <= i < n && i < |s| ==> r[i] == s[i]
    ensures forall i :: |s| <= i < n ==> r[i] == fill
  {
    if n <= |s| then s[..n] else s + seq(n - |s|, _ => fill)
  }
}
