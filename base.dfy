/** Small shared vocabulary: optional values, results with `:-` support,
    bytes, and the zero-extending growth that `zalloc` performs. */
module Base {

  datatype Option<T> = None | Some(value: T)

  datatype Result<T, E> = Ok(value: T) | Err(error: E) {
    predicate IsFailure() { Err? }

    function PropagateFailure<U>(): Result<U, E>
      requires Err?
    {
      Err(error)
    }

    function Extract(): T
      requires Ok?
    {
      value
    }
  }

  /** A value `putchar` and `getchar` exchange: an unsigned char. */
  type Byte = b: int | 0 <= b < 256

  /** The byte `putchar(x)` writes: `x` converted to unsigned char, that is,
      its residue modulo 256 (Dafny's `%` never returns a negative value). */
  function LowByte(x: int): (b: Byte)
    ensures (x - b) % 256 == 0
    ensures 0 <= x < 256 ==> b == x
  {
    x % 256
  }

  /** What `zalloc(ptr, n, |s|)` leaves in the buffer: the old contents as a
      prefix and zero-filled cells up to the new length. */
  function Extend<T>(s: seq<T>, n: nat, zero: T): (r: seq<T>)
    requires |s| <= n
    ensures |r| == n && r[..|s|] == s
    ensures forall k :: |s| <= k < n ==> r[k] == zero
  {
    s + seq(n - |s|, _ => zero)
  }

  /** `zalloc` over a heap buffer: a fresh buffer of length `n` whose prefix is
      the old buffer and whose extension holds zeros. */
  method Zalloc<T>(a: array<T>, n: nat, zero: T) returns (b: array<T>)
    requires a.Length <= n
    ensures fresh(b)
    ensures b[..] == Extend(a[..], n, zero)
  {
    b := new T[n](_ => zero);
    forall k | 0 <= k < a.Length {
      b[k] := a[k];
    }
  }
}
