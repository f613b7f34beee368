/** Machine integers and result types shared by every module. */
module Prelude {
  const TWO_64: int := 0x1_0000_0000_0000_0000
  const U64_MAX: int := TWO_64 - 1
  const TWO_32: int := 0x1_0000_0000

  type u64 = n: int | 0 <= n < 0x1_0000_0000_0000_0000
  type u32 = n: int | 0 <= n < 0x1_0000_0000
  type i64 = n: int | -0x8000_0000_0000_0000 <= n < 0x8000_0000_0000_0000

  /** Unchecked `u64` arithmetic: the release profile of the crate wraps. */
  function Wrap64(n: int): u64 {
    n % TWO_64
  }

  /** Wrapping early or late makes no difference. */
  lemma WrapAdd(a: nat, b: nat)
    ensures Wrap64(Wrap64(a) + b) == Wrap64(a + b)
  {
    assert a == TWO_64 * (a / TWO_64) + a % TWO_64;
  }

  function WrapI64(n: int): i64 {
    (n + 0x8000_0000_0000_0000) % TWO_64 - 0x8000_0000_0000_0000
  }

  function Wrap128(n: int): nat {
    n % (TWO_64 * TWO_64)
  }

  function SatAdd(a: u64, b: u64): u64 {
    if a + b > U64_MAX then U64_MAX else a + b
  }

  function SatSub(a: u64, b: u64): u64 {
    if a < b then 0 else a - b
  }

  function SatMul(a: u64, b: u64): u64 {
    if a * b > U64_MAX then U64_MAX else MulNonNegative(a, b); a * b
  }

  lemma MulNonNegative(a: nat, b: nat)
    ensures 0 <= a * b
  {
  }

  datatype Option<+T> = None | Some(value: T)

  datatype Result<+T, +E> = Success(value: T) | Failure(error: E) {
    predicate IsFailure() {
      Failure?
    }

    function PropagateFailure<U>(): Result<U, E>
      requires Failure?
    {
      Failure(error)
    }

    function Extract(): T
      requires Success?
    {
      value
    }
  }

  datatype Unit = Unit

  lemma SplitAt(a: string, b: string, s: string, t: string)
    requires |a| == |b| && a + s == b + t
    ensures a == b && s == t
  {
    assert a == (a + s)[..|a|] == (b + t)[..|a|] == b;
    assert s == (a + s)[|a|..] == (b + t)[|a|..] == t;
  }

  /** Digests are 64 lowercase hexadecimal characters; only the length matters here. */
  type Digest = s: string | |s| == 64
    witness "0000000000000000000000000000000000000000000000000000000000000000"

  /** Two different inputs with one digest. */
  datatype Collision = Collision(x: string, y: string)

  predicate Collides(H: string -> Digest, c: Collision) {
    c.x != c.y && H(c.x) == H(c.y)
  }
}
