/** The master-clock cycle counter (`com.JMPE.cpu.Clock`). */
module Clock {
  import opened Faults

  /** Mac Plus master clock, in Hz. */
  const MasterHz: int := 7_833_600

  /** The counter's `long cycles` field, unbounded here. */
  datatype Clock = Clock(cycles: int)

  function New(): (c: Clock)
    ensures c.cycles == 0
  {
    Clock(0)
  }

  /** `advance(n)`: the count moves by exactly `n`; a negative `n` is accepted. */
  function Advance(c: Clock, n: int): (r: Clock)
    ensures r.cycles - c.cycles == n
    ensures n >= 0 ==> r.cycles >= c.cycles
  {
    Clock(c.cycles + n)
  }

  function Sum(ns: seq<int>): int {
    if |ns| == 0 then 0 else Sum(ns[..|ns| - 1]) + ns[|ns| - 1]
  }

  /** The counter after advancing by each delta in turn, as a scheduler does. */
  function AdvanceAll(c: Clock, ns: seq<int>): Clock {
    if |ns| == 0 then c else Advance(AdvanceAll(c, ns[..|ns| - 1]), ns[|ns| - 1])
  }

  /** Starting from a new clock, the count is the sum of all deltas advanced by. */
  lemma {:induction false} AdvanceAllSums(ns: seq<int>)
    ensures AdvanceAll(New(), ns).cycles == Sum(ns)
  {
    if |ns| > 0 {
      AdvanceAllSums(ns[..|ns| - 1]);
    }
  }

  /** Two advances make one advance by the sum. */
  lemma AdvanceTwice(c: Clock, m: int, n: int)
    ensures Advance(Advance(c, m), n) == Advance(c, m + n)
  {
  }

  /** `asCycles(period)`: `MASTER_HZ / period` in Java `long` division, which
      truncates toward zero and throws on a zero divisor. */
  function AsCycles(period: int): (r: Result<int>)
    ensures r.Err? <==> period == 0
    ensures r.Err? ==> r.fault == DivideByZero
    ensures period > 0 ==> r.Ok? && r.value * period <= MasterHz < (r.value + 1) * period
    ensures period < 0 ==> r.Ok? && r.value * period <= MasterHz < (r.value - 1) * period
  {
    if period == 0 then Err(DivideByZero)
    else if period > 0 then Ok(MasterHz / period)
    else Ok(-(MasterHz / -period))
  }

  /** One tick per period is the master clock rate itself. */
  lemma AsCyclesOne()
    ensures AsCycles(1) == Ok(MasterHz)
    ensures AsCycles(MasterHz) == Ok(1)
  {
  }
}
