/** The size multipliers `Unit.BYTES`, `Unit.KB` and `Unit.MB`. */
module Units {

  datatype Unit = Bytes | KB | MB

  /** `1 << n` */
  function Pow2(n: nat): (r: nat)
    ensures r >= 1
  {
    if n == 0 then 1 else 2 * Pow2(n - 1)
  }

  /** The multiplier the enum constant was constructed with: `1`, `1 << 10`, `1 << 20`. */
  function The(u: Unit): (r: nat)
    ensures r >= 1
  {
    match u
    case Bytes => 1
    case KB => Pow2(10)
    case MB => Pow2(20)
  }

  /** Shifting by `m + n` is shifting by `m`, then by `n`. */
  lemma {:induction false} Pow2Add(m: nat, n: nat)
    ensures Pow2(m + n) == Pow2(m) * Pow2(n)
  {
    if n > 0 {
      Pow2Add(m, n - 1);
      assert Pow2(m + n) == 2 * Pow2(m + n - 1);
    }
  }

  /** Each unit is 1024 times the one below it, so a megabyte is a kilobyte of kilobytes. */
  lemma UnitScale()
    ensures The(KB) == 1024 * The(Bytes)
    ensures The(MB) == 1024 * The(KB)
    ensures The(MB) == The(KB) * The(KB)
  {
    Pow2Add(10, 10);
    Pow2Ten();
  }

  /** The three multipliers as plain numbers. */
  lemma UnitValues()
    ensures The(Bytes) == 1
    ensures The(KB) == 1024
    ensures The(MB) == 1_048_576
  {
    UnitScale();
  }

  lemma Pow2Ten()
    ensures Pow2(10) == 1024
  {
    Pow2Add(5, 5);
    Pow2Add(2, 3);
  }
}
