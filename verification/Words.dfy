// 32-bit words as numbers, and two facts about products.
module Words {

  const WORD := 0x1_0000_0000
  const INT_MAX := 0x7FFF_FFFF

  type u32 = x: int | 0 <= x < 0x1_0000_0000
  type s32 = x: int | -0x8000_0000 <= x < 0x8000_0000

  lemma Scale(a: nat, b: nat, n: nat)
    requires a <= b
    ensures a * n <= b * n
  {
  }

  lemma Apart(k: int, base: nat, r: int)
    requires k * (base as int) == r && -(base as int) < r < base
    ensures k == 0
  {
  }
}
