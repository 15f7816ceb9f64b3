module PowersOfTwo {
  import opened MachineInts

  const TWO112: int := 0x1_0000_0000_0000_0000_0000_0000_0000
  const TWO113: int := 0x2_0000_0000_0000_0000_0000_0000_0000

  function Pow2(n: nat): (r: int)
    ensures 0 < r
  {
    if n == 0 then 1 else 2 * Pow2(n - 1)
  }

  lemma {:induction false} Pow2Add(a: nat, b: nat)
    ensures Pow2(a + b) == Pow2(a) * Pow2(b)
  {
    if a > 0 {
      Pow2Add(a - 1, b);
      assert Pow2(a + b) == 2 * Pow2(a - 1 + b);
    }
  }

  lemma {:induction false} Pow2Mono(a: nat, b: nat)
    requires a <= b
    ensures Pow2(a) <= Pow2(b)
    ensures a < b ==> 2 * Pow2(a) <= Pow2(b)
  {
    if a < b {
      Pow2Mono(a, b - 1);
    }
  }

  lemma Pow2Constants()
    ensures Pow2(15) == 0x8000 && Pow2(48) == TWO48 && Pow2(63) == TWO63 && Pow2(64) == TWO64
    ensures Pow2(112) == TWO112
  {
    assert Pow2(15) == 0x8000 && Pow2(16) == 0x1_0000;
    Pow2Add(16, 16);
    Pow2Add(32, 16);
    Pow2Add(48, 15);
    Pow2Add(48, 16);
    Pow2Add(64, 48);
  }
}
