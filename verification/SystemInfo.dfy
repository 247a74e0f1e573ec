/** The rescaling at the end of `do_sysinfo`: memory sizes counted in units become sizes in bytes where that fits a
    machine word. */
module SystemInfo {

  function Pow2(n: nat): (p: nat)
    ensures p >= 1
  {
    if n == 0 then 1 else 2 * Pow2(n - 1)
  }

  /** How often a number can be halved before it is at most 1. */
  function Halvings(n: nat): nat {
    if n <= 1 then 0 else 1 + Halvings(n / 2)
  }

  /** The memory sizes of `struct sysinfo`, each an unsigned word of `width` bits, and the unit they are counted in. */
  datatype Sizes = Sizes(totalram: nat, freeram: nat, sharedram: nat, bufferram: nat, totalswap: nat, freeswap: nat,
                         totalhigh: nat, freehigh: nat)
  {
    ghost predicate Fits(width: nat) {
      && totalram < Pow2(width) && freeram < Pow2(width) && sharedram < Pow2(width) && bufferram < Pow2(width)
      && totalswap < Pow2(width) && freeswap < Pow2(width) && totalhigh < Pow2(width) && freehigh < Pow2(width)
    }

    /** The part sizes do not exceed all memory there is. */
    predicate Bounded() {
      var total := totalram + totalswap;
      freeram <= total && sharedram <= total && bufferram <= total && freeswap <= total && totalhigh <= total &&
      freehigh <= total
    }

    /** Every size is `k` times what it is here. */
    ghost predicate ScaledTo(s: Sizes, k: nat) {
      && s.totalram == totalram * k
      && s.freeram == freeram * k
      && s.sharedram == sharedram * k
      && s.bufferram == bufferram * k
      && s.totalswap == totalswap * k
      && s.freeswap == freeswap * k
      && s.totalhigh == totalhigh * k
      && s.freehigh == freehigh * k
    }
  }

  /** A left shift by `k` in a word of `width` bits. */
  function Shifted(x: nat, k: nat, width: nat): nat {
    (x * Pow2(k)) % Pow2(width)
  }

  function ShiftedSizes(s: Sizes, k: nat, width: nat): Sizes {
    Sizes(Shifted(s.totalram, k, width), Shifted(s.freeram, k, width), Shifted(s.sharedram, k, width),
          Shifted(s.bufferram, k, width), Shifted(s.totalswap, k, width), Shifted(s.freeswap, k, width),
          Shifted(s.totalhigh, k, width), Shifted(s.freehigh, k, width))
  }

  /** All memory, in the unit reached by halving `unit`, fits a word. */
  ghost predicate TotalFits(s: Sizes, unit: nat, width: nat) {
    (s.totalram + s.totalswap) * Pow2(Halvings(unit)) < Pow2(width)
  }

  /** A wrapped sum is smaller than its operands, and only a wrapped one is. */
  lemma SumWraps(a: nat, b: nat, m: nat)
    requires a < m && b < m
    ensures var sum := (a + b) % m;
      if a + b < m then sum == a + b else sum < a && sum < b
  {
    if a + b >= m {
      assert (a + b) % m == a + b - m by {
        ModOnce(a + b - m, m);
      }
    }
  }

  lemma ModOnce(x: nat, m: nat)
    requires x < m
    ensures x % m == x && (x + m) % m == x
  {
  }

  /** A doubling that wraps leaves less than there was, and only a wrapped one does. */
  lemma DoublingWraps(total: nat, width: nat)
    requires width >= 1 && total < Pow2(width)
    ensures var doubled := (2 * total) % Pow2(width);
      if 2 * total < Pow2(width) then doubled == 2 * total else doubled < total
  {
    SumWraps(total, total, Pow2(width));
  }

  lemma {:induction false} PowersGrow(a: nat, b: nat)
    requires a <= b
    ensures Pow2(a) <= Pow2(b)
  {
    if a < b {
      PowersGrow(a, b - 1);
    }
  }

  lemma ScaleUp(x: nat, a: nat, b: nat)
    requires a <= b
    ensures x * a <= x * b
  {
  }

  /** One round of the detection loop. */
  lemma DoubledOnce(all: nat, k: nat, total: nat, width: nat)
    requires width >= 1 && total == all * Pow2(k) < Pow2(width)
    ensures var doubled := (2 * total) % Pow2(width);
      if all * Pow2(k + 1) < Pow2(width) then total <= doubled == all * Pow2(k + 1) else doubled < total
  {
    DoublingWraps(total, width);
    assert all * (2 * Pow2(k)) == 2 * (all * Pow2(k));
  }

  lemma StaysTooLarge(all: nat, k: nat, goal: nat, width: nat)
    requires k <= goal && all * Pow2(k) >= Pow2(width)
    ensures all * Pow2(goal) >= Pow2(width)
  {
    PowersGrow(k, goal);
    ScaleUp(all, Pow2(k), Pow2(goal));
  }

  /** The detection loop: it gives up exactly when all memory, scaled, does not fit. */
  method CountShifts(totalram: nat, totalswap: nat, unit: nat, width: nat) returns (fits: bool, bitcount: nat)
    requires width >= 1 && totalram < Pow2(width) && totalswap < Pow2(width)
    ensures fits <==> (totalram + totalswap) * Pow2(Halvings(unit)) < Pow2(width)
    ensures fits ==> bitcount == Halvings(unit)
  {
    ghost var all, goal := totalram + totalswap, Halvings(unit);
    var memTotal := (totalram + totalswap) % Pow2(width);
    bitcount := 0;
    SumWraps(totalram, totalswap, Pow2(width));
    if memTotal < totalram || memTotal < totalswap {
      StaysTooLarge(all, 0, goal, width);
      return false, 0;
    }
    var memUnit := unit;
    while memUnit > 1
      invariant bitcount + Halvings(memUnit) == goal
      invariant memTotal == all * Pow2(bitcount) < Pow2(width)
      decreases memUnit
    {
      DoubledOnce(all, bitcount, memTotal, width);
      bitcount := bitcount + 1;
      memUnit := memUnit / 2;
      var savTotal := memTotal;
      memTotal := (2 * memTotal) % Pow2(width);
      if memTotal < savTotal {
        StaysTooLarge(all, bitcount, goal, width);
        return false, 0;
      }
    }
    return true, bitcount;
  }

  lemma SmallPartFits(part: nat, all: nat, k: nat, width: nat)
    requires part <= all && all * Pow2(k) < Pow2(width)
    ensures Shifted(part, k, width) == part * Pow2(k)
  {
    ScalePart(part, all, Pow2(k));
    ModOnce(part * Pow2(k), Pow2(width));
  }

  lemma ScalePart(part: nat, all: nat, k: nat)
    requires part <= all
    ensures part * k <= all * k
  {
  }

  /** Where all memory fits, no size wraps when shifted. */
  lemma ShiftsAreExact(s: Sizes, k: nat, width: nat)
    requires s.Bounded() && (s.totalram + s.totalswap) * Pow2(k) < Pow2(width)
    ensures s.ScaledTo(ShiftedSizes(s, k, width), Pow2(k))
  {
    var all := s.totalram + s.totalswap;
    SmallPartFits(s.totalram, all, k, width);
    SmallPartFits(s.freeram, all, k, width);
    SmallPartFits(s.sharedram, all, k, width);
    SmallPartFits(s.bufferram, all, k, width);
    SmallPartFits(s.totalswap, all, k, width);
    SmallPartFits(s.freeswap, all, k, width);
    SmallPartFits(s.totalhigh, all, k, width);
    SmallPartFits(s.freehigh, all, k, width);
  }

  lemma {:induction false} HalvingsReachUnit(unit: nat)
    requires unit >= 1
    ensures Pow2(Halvings(unit)) <= unit < 2 * Pow2(Halvings(unit))
  {
    if unit > 1 {
      HalvingsReachUnit(unit / 2);
    }
  }

  lemma EqualProducts(size: nat, a: nat, b: nat)
    requires a < b
    ensures size * a == size * b <==> size == 0
  {
    ScaleUp(size, a + 1, b);
    assert size * (a + 1) == size * a + size;
  }

  /** A size keeps its meaning in bytes exactly when it is zero or the unit is a power of two. */
  lemma MeaningKept(size: nat, unit: nat)
    requires unit >= 1
    ensures size * Pow2(Halvings(unit)) == size * unit <==> size == 0 || unit == Pow2(Halvings(unit))
  {
    HalvingsReachUnit(unit);
    if Pow2(Halvings(unit)) < unit {
      EqualProducts(size, Pow2(Halvings(unit)), unit);
    }
  }

  class SysInfo {
    var sizes: Sizes
    var memUnit: nat

    /** Rescale to bytes, or leave everything alone when all memory in bytes would not fit a word. */
    method Rescale(width: nat)
      requires width >= 1 && sizes.Fits(width)
      modifies this
      ensures TotalFits(old(sizes), old(memUnit), width) ==>
                && memUnit == 1
                && sizes == ShiftedSizes(old(sizes), Halvings(old(memUnit)), width)
                && (old(sizes).Bounded() ==> old(sizes).ScaledTo(sizes, Pow2(Halvings(old(memUnit)))))
                && (old(sizes).Bounded() && old(memUnit) == Pow2(Halvings(old(memUnit))) ==>
                      old(sizes).ScaledTo(sizes, old(memUnit)))
      ensures !TotalFits(old(sizes), old(memUnit), width) ==> memUnit == old(memUnit) && sizes == old(sizes)
    {
      var fits, bitcount := CountShifts(sizes.totalram, sizes.totalswap, memUnit, width);
      if fits {
        if sizes.Bounded() {
          ShiftsAreExact(sizes, bitcount, width);
        }
        memUnit := 1;
        sizes := ShiftedSizes(sizes, bitcount, width);
      }
    }
  }
}
