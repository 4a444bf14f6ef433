/** Machine-level value types shared by the converter: the bytes it reads
    and writes, the 32-bit `unsigned` that carries one character, and the
    optional result used wherever the program reports failure by
    returning `false`. */
module Base {

  /** One byte of a file, as `fread` stores it into an `unsigned char`. */
  type byte = b: int | 0 <= b < 0x100

  /** The C `unsigned` (32 bits) that holds one character value. */
  type u32 = v: int | 0 <= v < 0x1_0000_0000

  datatype Option<+T> = None | Some(value: T)

  /** 64 to the power `k`: the weight of a six-bit group `k` places up. */
  function Pow64(k: nat): (r: nat)
    ensures r >= 1
  {
    if k == 0 then 1 else 64 * Pow64(k - 1)
  }

  /** Every value is a 7-bit ASCII code. */
  predicate IsAscii(s: seq<int>)
  {
    forall i :: 0 <= i < |s| ==> 0 <= s[i] <= 0x7F
  }

  /** Sequence concatenation regroups freely. */
  lemma Associative<T>(a: seq<T>, b: seq<T>, c: seq<T>)
    ensures a + (b + c) == (a + b) + c
  {
  }
}
