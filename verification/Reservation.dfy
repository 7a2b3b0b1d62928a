/** How much CPU and memory kubelet reserves, as step functions of what the machine has. */
module Reservation {

  // ----- CPU: rates are in ten-thousandths of each range -----

  function InRange(total: int, start: int, end: int, percentage: int): int
  {
    if total <= start then 0
    else ((if total > end then end else total) - start) * percentage / 10000
  }

  const PERCENTAGES: seq<int> := [600, 100, 50, 25]

  function Ranges(total: int): seq<int>
  {
    [0, 1000, 2000, 4000, total]
  }

  /** The sum over the first n ranges. */
  function SumOfRanges(total: int, n: nat): int
    requires n <= 4
  {
    if n == 0 then 0
    else SumOfRanges(total, n - 1) + InRange(total, Ranges(total)[n - 1], Ranges(total)[n], PERCENTAGES[n - 1])
  }

  // ----- The marginal schedule: what each single millicore adds -----

  function RateOf(millicore: nat): nat
  {
    if millicore < 1000 then 600
    else if millicore < 2000 then 100
    else if millicore < 4000 then 50
    else 25
  }

  function MarginalCPU(total: nat): nat
  {
    if total == 0 then 0 else MarginalCPU(total - 1) + RateOf(total - 1)
  }

  lemma SumUnfolded(total: int)
    ensures SumOfRanges(total, 4)
            == InRange(total, 0, 1000, 600) + InRange(total, 1000, 2000, 100)
               + InRange(total, 2000, 4000, 50) + InRange(total, 4000, total, 25)
  {
    var r := Ranges(total);
    assert SumOfRanges(total, 1) == InRange(total, r[0], r[1], PERCENTAGES[0]);
    assert SumOfRanges(total, 2) == SumOfRanges(total, 1) + InRange(total, r[1], r[2], PERCENTAGES[1]);
    assert SumOfRanges(total, 3) == SumOfRanges(total, 2) + InRange(total, r[2], r[3], PERCENTAGES[2]);
    assert SumOfRanges(total, 4) == SumOfRanges(total, 3) + InRange(total, r[3], r[4], PERCENTAGES[3]);
  }

  lemma {:induction false} MarginalClosedForm(total: nat)
    ensures MarginalCPU(total)
            == if total <= 1000 then 600 * total
               else if total <= 2000 then 600_000 + 100 * (total - 1000)
               else if total <= 4000 then 700_000 + 50 * (total - 2000)
               else 800_000 + 25 * (total - 4000)
  {
    if total > 0 {
      MarginalClosedForm(total - 1);
    }
  }

  lemma FloorShift(whole: int, part: int)
    ensures (10000 * whole + part) / 10000 == whole + part / 10000
  {
  }

  /** What each range holds: all of the ranges below the total, and a rounded part of the one it lies in. */
  lemma RangeParts(total: nat)
    ensures InRange(total, 0, 1000, 600) == if total <= 1000 then 600 * total / 10000 else 60
    ensures InRange(total, 1000, 2000, 100)
            == if total <= 1000 then 0 else if total <= 2000 then 100 * (total - 1000) / 10000 else 10
    ensures InRange(total, 2000, 4000, 50)
            == if total <= 2000 then 0 else if total <= 4000 then 50 * (total - 2000) / 10000 else 10
    ensures InRange(total, 4000, total, 25) == if total <= 4000 then 0 else 25 * (total - 4000) / 10000
  {
  }

  /** Rounding down in every range loses nothing beyond rounding down once: only one range is partly filled. */
  lemma SumIsFlooredMarginal(total: nat)
    ensures SumOfRanges(total, 4) == MarginalCPU(total) / 10000
  {
    SumUnfolded(total);
    RangeParts(total);
    MarginalClosedForm(total);
    if total > 4000 {
      FloorShift(80, 25 * (total - 4000));
    } else if total > 2000 {
      FloorShift(70, 50 * (total - 2000));
    } else if total > 1000 {
      FloorShift(60, 100 * (total - 1000));
    }
  }

  /** The millicores to reserve of `total`; nothing when counting the cores failed. */
  method GetCPUMillicoresToReserve(total: int, counted: bool) returns (reserved: int)
    ensures counted && total >= 0 ==> reserved == MarginalCPU(total) / 10000
    ensures !counted || total < 0 ==> reserved == 0
  {
    if !counted {
      return 0;
    }
    var ranges := [0, 1000, 2000, 4000, total];
    reserved := 0;
    for i := 0 to 4
      invariant reserved == SumOfRanges(total, i)
    {
      var part := InRange(total, ranges[i], ranges[i + 1], PERCENTAGES[i]);
      reserved := reserved + part;
    }
    if total >= 0 {
      SumIsFlooredMarginal(total);
    } else {
      SumUnfolded(total);
    }
  }

  // ----- What the CPU schedule promises -----

  lemma {:induction false} MarginalMonotone(total: nat, more: nat)
    requires total <= more
    ensures MarginalCPU(total) <= MarginalCPU(more)
  {
    if total < more {
      MarginalMonotone(total, more - 1);
    }
  }

  /** A larger machine never reserves less, and no machine more than six percent. */
  lemma CPUReservationIsMonotoneAndBounded(total: nat, more: nat)
    requires total <= more
    ensures SumOfRanges(total, 4) <= SumOfRanges(more, 4)
    ensures 100 * SumOfRanges(total, 4) <= 6 * total
    ensures 10000 * SumOfRanges(total, 4) <= MarginalCPU(total) < 10000 * (SumOfRanges(total, 4) + 1)
  {
    SumIsFlooredMarginal(total);
    SumIsFlooredMarginal(more);
    MarginalMonotone(total, more);
    MarginalClosedForm(total);
  }

  /** For four or more whole cores: 80 millicores and two and a half per core beyond four, rounded down. */
  lemma CPUReservationOfWholeCores(cores: nat)
    requires cores >= 4
    ensures SumOfRanges(1000 * cores, 4) == 80 + 5 * (cores - 4) / 2
  {
    SumIsFlooredMarginal(1000 * cores);
    MarginalClosedForm(1000 * cores);
  }

  // ----- Memory: amounts are in hundredths of a GiB -----

  const GIB := 1024 * 1024 * 1024

  datatype Reserved = Mi(amount: nat) | Gi(amount: nat)

  /** Rounds hundredths to the nearest whole number, halves up. */
  function Round(hundredths: nat): nat
  {
    (hundredths + 50) / 100
  }

  function MemoryHundredths(gib: nat): nat
  {
    if gib < 4 then gib * 25
    else if gib < 8 then 25 * 4 + (gib - 4) * 20
    else if gib < 16 then 25 * 4 + 20 * 4 + (gib - 8) * 10
    else if gib <= 128 then 25 * 4 + 20 * 4 + 10 * 8 + (gib - 16) * 6
    else 25 * 4 + 20 * 4 + 10 * 8 + 6 * 112 + (gib - 128) * 2
  }

  function MemoryToReserve(bytes: nat): Reserved
  {
    var gib := bytes / GIB;
    if gib < 1 then Mi(255) else Gi(Round(MemoryHundredths(gib)))
  }

  /** Hundredths of a GiB that the given GiB of memory adds to the reservation. */
  function MemoryRate(gib: nat): nat
  {
    if gib < 4 then 25 else if gib < 8 then 20 else if gib < 16 then 10 else if gib < 128 then 6 else 2
  }

  function MarginalMemory(gib: nat): nat
  {
    if gib == 0 then 0 else MarginalMemory(gib - 1) + MemoryRate(gib - 1)
  }

  /** The five branches are one marginal schedule of 25, 20, 10, 6 and 2 percent. */
  lemma {:induction false} MemoryIsMarginalSum(gib: nat)
    ensures MemoryHundredths(gib) == MarginalMemory(gib)
  {
    if gib > 0 {
      MemoryIsMarginalSum(gib - 1);
    }
  }

  /** The part of n beyond start, up to width. */
  function Clamp(n: nat, start: nat, width: nat): nat
  {
    if n <= start then 0 else if n - start <= width then n - start else width
  }

  /** 25 percent of the first 4 GiB, 20 of the next 4, 10 of the next 8, 6 of the next 112 and 2 of the rest. */
  lemma {:induction false} MemoryByBrackets(gib: nat)
    ensures MarginalMemory(gib)
            == 25 * Clamp(gib, 0, 4) + 20 * Clamp(gib, 4, 4) + 10 * Clamp(gib, 8, 8) + 6 * Clamp(gib, 16, 112)
               + 2 * Clamp(gib, 128, gib)
  {
    if gib > 0 {
      MemoryByBrackets(gib - 1);
    }
  }

  lemma {:induction false} MarginalMemoryMonotone(gib: nat, more: nat)
    requires gib <= more
    ensures MarginalMemory(gib) <= MarginalMemory(more) <= MarginalMemory(gib) + 25 * (more - gib)
  {
    if gib < more {
      MarginalMemoryMonotone(gib, more - 1);
    }
  }

  lemma RoundIsNear(hundredths: nat, gib: nat)
    ensures 100 * Round(hundredths) - 50 <= hundredths < 100 * Round(hundredths) + 50
    ensures hundredths <= 25 * gib ==> Round(hundredths) <= gib
  {
  }

  lemma RoundIsMonotone(hundredths: nat, more: nat)
    requires hundredths <= more
    ensures Round(hundredths) <= Round(more)
  {
  }

  lemma ProductIsMonotone(a: nat, b: nat, m: nat)
    requires a <= b
    ensures a * m <= b * m
  {
  }

  lemma WholeGiBs(bytes: nat, more: nat)
    requires GIB <= bytes <= more
    ensures 1 <= bytes / GIB <= more / GIB && bytes / GIB * GIB <= bytes
  {
  }

  /**
   From 1 GiB on, the reservation is the marginal sum to within half a GiB, grows with the memory and never
   exceeds it.
   */
  lemma MemoryReservation(bytes: nat, more: nat)
    requires GIB <= bytes <= more
    ensures var gib := bytes / GIB;
            var r := MemoryToReserve(bytes);
            && r.Gi? && MemoryToReserve(more).Gi?
            && r.amount <= MemoryToReserve(more).amount
            && r.amount * 100 - 50 <= MarginalMemory(gib) < r.amount * 100 + 50
            && r.amount * GIB <= bytes
  {
    var gib, gib' := bytes / GIB, more / GIB;
    WholeGiBs(bytes, more);
    MemoryIsMarginalSum(gib);
    MemoryIsMarginalSum(gib');
    MarginalMemoryMonotone(gib, gib');
    MarginalMemoryMonotone(0, gib);
    RoundIsNear(MarginalMemory(gib), gib);
    RoundIsMonotone(MarginalMemory(gib), MarginalMemory(gib'));
    ProductIsMonotone(Round(MarginalMemory(gib)), gib, GIB);
  }

  const MIB := 1024 * 1024

  function ReservedBytes(bytes: nat): nat
  {
    match MemoryToReserve(bytes)
    case Mi(amount) => amount * MIB
    case Gi(amount) => amount * GIB
  }

  lemma ReservedBelowTwoGiB(bytes: nat)
    requires bytes < 2 * GIB
    ensures ReservedBytes(bytes) == if bytes < GIB then 255 * MIB else 0
  {
    if bytes < GIB {
      assert bytes / GIB == 0;
    } else {
      assert bytes / GIB == 1 && Round(MemoryHundredths(1)) == 0;
    }
  }

  lemma ReservedGrows(bytes: nat, more: nat)
    requires GIB <= bytes <= more
    ensures ReservedBytes(bytes) <= ReservedBytes(more)
  {
    MemoryReservation(bytes, more);
  }

  lemma ReservedFromTwoGiB(bytes: nat)
    requires 2 * GIB <= bytes
    ensures ReservedBytes(bytes) >= GIB
  {
    assert ReservedBytes(2 * GIB) == GIB by {
      assert 2 * GIB / GIB == 2 && Round(MemoryHundredths(2)) == 1;
    }
    ReservedGrows(2 * GIB, bytes);
  }

  /** More memory means a smaller reservation exactly from below 1 GiB to at least 1 but below 2 GiB. */
  lemma ReservationDropsIff(bytes: nat, more: nat)
    requires bytes <= more
    ensures ReservedBytes(more) < ReservedBytes(bytes) <==> bytes < GIB <= more < 2 * GIB
  {
    if GIB <= bytes {
      ReservedGrows(bytes, more);
    } else {
      ReservedBelowTwoGiB(bytes);
      if more < 2 * GIB {
        ReservedBelowTwoGiB(more);
      } else {
        ReservedFromTwoGiB(more);
      }
    }
  }

  /** At the edge: a machine one byte short of 1 GiB reserves 255 MiB, one with it nothing. */
  lemma ReservationDropsAtOneGiB()
    ensures MemoryToReserve(1_073_741_823) == Mi(255)
    ensures MemoryToReserve(1_073_741_824) == Gi(0)
  {
  }
}
