// Fixed-width integers and small helpers shared by the models.
module Common {
  type s8 = x: int | -0x80 <= x < 0x80
  type u8 = x: int | 0 <= x < 0x100
  type u16 = x: int | 0 <= x < 0x1_0000
  type u32 = x: int | 0 <= x < 0x1_0000_0000

  type byte = bv8

  datatype Option<+T> = None | Some(value: T)

  function Min(a: int, b: int): int {
    if a < b then a else b
  }

  function Max(a: int, b: int): int {
    if a < b then b else a
  }

  function Pow2(n: nat): (p: nat)
    ensures p >= 1
  {
    if n == 0 then 1 else 2 * Pow2(n - 1)
  }

  // Integer conversion to an unsigned type keeps the low bits.
  function ToU8(x: int): u8 {
    x % 0x100
  }

  function ToU16(x: int): u16 {
    x % 0x1_0000
  }

  function ToU32(x: int): u32 {
    x % 0x1_0000_0000
  }

  // What stands at a position of a buffer.
  ghost predicate At(data: seq<u8>, at: nat, b: seq<u8>) {
    at + |b| <= |data| && forall k :: 0 <= k < |b| ==> data[at + k] == b[k]
  }

  lemma AtConcat(data: seq<u8>, at: nat, a: seq<u8>, b: seq<u8>)
    ensures At(data, at, a + b) <==> At(data, at, a) && At(data, at + |a|, b)
  {
    if At(data, at, a + b) {
      forall k | 0 <= k < |a|
        ensures data[at + k] == a[k]
      {
        assert (a + b)[k] == a[k];
      }
      forall k | 0 <= k < |b|
        ensures data[at + |a| + k] == b[k]
      {
        assert (a + b)[|a| + k] == b[k];
      }
    }
    if At(data, at, a) && At(data, at + |a|, b) {
      forall k | 0 <= k < |a + b|
        ensures data[at + k] == (a + b)[k]
      {
        assert k >= |a| ==> data[at + |a| + (k - |a|)] == b[k - |a|];
      }
    }
  }
}
