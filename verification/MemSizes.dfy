/** Size classes of the memory pool: rounding to slots, and pages that hold
    a whole number of them. Arithmetic is 32 bits wide. */
module MemSizes {
  import opened Arith
  import opened Codec

  function Pow2(e: nat): (p: nat)
    ensures p > 0
  {
    if e == 0 then 1 else 2 * Pow2(e - 1)
  }

  lemma {:induction false} Pow2Add(a: nat, b: nat)
    ensures Pow2(a + b) == Pow2(a) * Pow2(b)
  {
    if a > 0 {
      Pow2Add(a - 1, b);
    }
  }

  /** `in << (32 - exponent)`, then the low bits cleared and one step added; the
      shift and the sum wrap. */
  function RoundUp(size: nat, exponent: nat): (r: nat)
    requires size < U32 && 0 < exponent < 32
  {
    var step := Pow2(exponent);
    if size * Pow2(32 - exponent) % U32 == 0 then size
    else (size / step * step + step) % U32
  }

  lemma {:induction false} ShiftKeepsLowBits(x: nat, a: nat, b: nat)
    requires a > 0 && b > 0
    ensures x * b % (a * b) == x % a * b
  {
    var q, r := x / a, x % a;
    assert x * b == q * (a * b) + r * b by {
      assert x == q * a + r;
      assert (q * a + r) * b == q * a * b + r * b;
    }
    assert 0 <= r * b < a * b;
    Unique(x * b, a * b, q, r * b);
  }

  /** Multiples of a step differ by at least one step. */
  lemma {:induction false} Whole(a: nat, b: nat, step: nat)
    requires step > 0 && Multiple(a, step) && Multiple(b, step) && a < b
    ensures a + step <= b
  {
    Gap(a / step, b / step, step);
  }

  lemma {:induction false} Gap(x: nat, y: nat, step: nat)
    requires x * step < y * step
    ensures x * step + step <= y * step
  {
    InOrder(y, x, step);
    AtLeast(y - x, step);
    assert (y - x) * step == y * step - x * step;
  }

  lemma InOrder(x: nat, y: nat, step: nat)
    ensures x <= y ==> x * step <= y * step
  {
    assert (y - x) * step == y * step - x * step;
    assert x <= y ==> (y - x) * step >= 0;
  }

  /** Shifting left by 32 - e leaves nothing just for multiples of 2^e. */
  lemma {:induction false} LowBits(size: nat, exponent: nat)
    requires exponent <= 32
    ensures U32 % Pow2(exponent) == 0
    ensures size * Pow2(32 - exponent) % U32 == 0 <==> size % Pow2(exponent) == 0
  {
    hide Pow2;
    var step, b := Pow2(exponent), Pow2(32 - exponent);
    Pow2Add(exponent, 32 - exponent);
    Pow32();
    ShiftKeepsLowBits(size, step, b);
    Unique(U32, step, b, 0);
    if size % step != 0 {
      AtLeast(size % step, b);
    }
  }

  lemma {:induction false} Pow32()
    ensures Pow2(32) == U32
  {
    Pow2Add(16, 16);
    Pow2Add(8, 8);
    assert Pow2(8) == 16 * Pow2(4) == 256;
  }

  predicate Multiple(a: nat, step: nat)
    requires step > 0
  {
    a % step == 0
  }

  lemma {:induction false} StepUp(low: nat, step: nat)
    requires step > 0 && Multiple(low, step)
    ensures Multiple(low + step, step) && Multiple(0, step)
  {
    Unique(low + step, step, low / step + 1, 0);
  }

  ghost predicate Rounded(size: nat, r: nat, step: nat, m: nat)
    requires step > 0
  {
    && Multiple(r, step)
    && (r >= size <==> size <= U32 - step)
    && (r >= size ==> r < size + step && (m >= size ==> m >= r))
    && (r < size ==> r == 0)
  }

  lemma {:induction false} NextMultiple(size: nat, low: nat, step: nat, m: nat)
    requires step > 0 && Multiple(low, step) && Multiple(m, step) && Multiple(U32, step)
    requires low < size < low + step && size < U32
    ensures Rounded(size, (low + step) % U32, step, m)
  {
    hide Multiple;
    Whole(low, U32, step);
    if m >= size {
      Whole(low, m, step);
    }
    StepUp(low, step);
    if low + step == U32 {
      assert (low + step) % U32 == 0;
    } else {
      Whole(low + step, U32, step);
      assert (low + step) % U32 == low + step;
    }
  }

  /** Exactly: the least multiple of the step that is no smaller, if it is below
      2^32, and otherwise zero. */
  lemma {:induction false} RoundUpExact(size: nat, exponent: nat, m: nat)
    requires 0 < size < U32 && 0 < exponent < 32 && Multiple(m, Pow2(exponent))
    ensures Rounded(size, RoundUp(size, exponent), Pow2(exponent), m)
  {
    hide Pow2;
    LowBits(size, exponent);
    var step := Pow2(exponent);
    if size % step == 0 {
      Whole(size, U32, step);
    } else {
      var low := size / step * step;
      Unique(low, step, size / step, 0);
      NextMultiple(size, low, step, m);
    }
  }

  const TINY := 16
  const FOOTSTEP := 32
  const FOOTSTEP_EXPONENT := 5
  const BULK := 131072
  const FACTOR := 32

  /** Room for `factor` objects in whole pages; both products wrap. */
  function ExpandSize(objSize: nat, factor: nat, page: nat): nat
    requires page > 0
  {
    var size := objSize * factor % U32;
    (size / page + if size % page != 0 then 1 else 0) * page % U32
  }

  /** Exactly: the fewest pages that hold the objects, if these end below 2^32, and
      otherwise too few. */
  lemma {:induction false} ExpandExact(objSize: nat, factor: nat, page: nat)
    requires page > 0 && Multiple(U32, page)
    ensures var all, r := objSize * factor, ExpandSize(objSize, factor, page);
            && Multiple(r, page)
            && (r >= all <==> all <= U32 - page)
            && (r >= all ==> r < all + page)
  {
    hide Multiple;
    var all := objSize * factor;
    var size := all % U32;
    var q := size / page;
    var c := (q + if size % page != 0 then 1 else 0) * page;
    PagesFor(size, page);
    if c < U32 {
      assert c % U32 == c;
      Whole(c, U32, page);
    } else {
      assert c == U32;
    }
    if all < U32 {
      assert size == all;
    }
    ZeroPages(page);
  }

  lemma {:induction false} PagesFor(size: nat, page: nat)
    requires page > 0 && Multiple(U32, page) && size < U32
    ensures var c := (size / page + if size % page != 0 then 1 else 0) * page;
            Multiple(c, page) && size <= c < size + page && c <= U32
  {
    var q := size / page;
    assert size == q * page + size % page;
    Unique(q * page, page, q, 0);
    Unique((q + 1) * page, page, q + 1, 0);
    assert (q + 1) * page == q * page + page;
    Whole(q * page, U32, page);
  }

  lemma ZeroPages(page: nat)
    requires page > 0
    ensures Multiple(0, page)
  {}

  datatype Kind = Tiny | Small | Big

  /** A slot: one size of object. */
  datatype Key = Key(kind: Kind, idx: nat)

  /** Slots are laid out for a page of 2^e bytes. */
  predicate IsSlot(k: Key, e: nat) {
    match k.kind
    case Tiny => k.idx == 0
    case Small => 1 <= k.idx <= Pow2(e) / FOOTSTEP
    case Big => 1 <= k.idx <= BULK / Pow2(e)
  }

  function SlotSize(k: Key, e: nat): nat {
    match k.kind
    case Tiny => TINY
    case Small => k.idx * FOOTSTEP
    case Big => k.idx * Pow2(e)
  }

  function PageSize(k: Key, e: nat): nat {
    if k.kind.Tiny? then Pow2(e) else ExpandSize(SlotSize(k, e), FACTOR, Pow2(e))
  }

  /** The slot a request is served from. */
  function SlotFor(size: nat, e: nat): Key
    requires 0 < size <= BULK && 0 < e < 32
  {
    if size <= TINY then Key(Tiny, 0)
    else if size > Pow2(e) then Key(Big, Fit(RoundUp(size, e), Pow2(e)))
    else Key(Small, Fit(RoundUp(size, FOOTSTEP_EXPONENT), FOOTSTEP))
  }

  lemma {:induction false} SmallPowers()
    ensures Pow2(5) == 32 && Pow2(17) == BULK
  {
    assert Pow2(5) == 2 * Pow2(4) == 32;
    Pow2Add(5, 12);
    Pow2Add(5, 7);
    assert Pow2(7) == 4 * Pow2(5);
  }

  lemma {:induction false} PageDivides(e: nat)
    requires 5 <= e <= 17
    ensures Multiple(Pow2(e), FOOTSTEP) && Multiple(BULK, Pow2(e)) && FOOTSTEP <= Pow2(e) <= BULK
    ensures Pow2(FOOTSTEP_EXPONENT) == FOOTSTEP
  {
    hide Pow2;
    SmallPowers();
    Pow2Add(5, e - 5);
    Pow2Add(e, 17 - e);
    Unique(Pow2(e), 32, Pow2(e - 5), 0);
    Unique(BULK, Pow2(e), Pow2(17 - e), 0);
    AtLeast(Pow2(e - 5), 32);
    AtLeast(Pow2(17 - e), Pow2(e));
  }

  /** Every request finds an existing slot, whose objects are large enough and,
      above 16 bytes, exceed it by less than 32 bytes, or a page if it is larger
      than one.  The class depends on nothing but the size. */
  lemma {:induction false} SlotFits(size: nat, e: nat)
    requires 0 < size <= 131072 && 5 <= e <= 17
    ensures var k := SlotFor(size, e);
            && IsSlot(k, e)
            && size <= SlotSize(k, e)
            && (k.kind.Tiny? <==> size <= 16) && (k.kind.Tiny? ==> SlotSize(k, e) == 16)
            && (k.kind.Small? <==> 16 < size <= Pow2(e)) && (k.kind.Small? ==> SlotSize(k, e) < size + 32)
            && (k.kind.Big? <==> Pow2(e) < size) && (k.kind.Big? ==> SlotSize(k, e) < size + Pow2(e))
  {
    hide Pow2, RoundUp;
    PageDivides(e);
    var page := Pow2(e);
    if TINY < size {
      if size > page {
        RoundUpExact(size, e, BULK);
        InSlot(RoundUp(size, e), page, BULK);
      } else {
        RoundUpExact(size, FOOTSTEP_EXPONENT, page);
        InSlot(RoundUp(size, FOOTSTEP_EXPONENT), FOOTSTEP, page);
      }
    }
  }

  /** No slot whose objects are large enough has smaller ones. */
  lemma {:induction false} SlotIsLeast(size: nat, e: nat, k: Key)
    requires 0 < size <= 131072 && 5 <= e <= 17 && IsSlot(k, e) && SlotSize(k, e) >= size
    ensures SlotSize(SlotFor(size, e), e) <= SlotSize(k, e)
  {
    hide Pow2, RoundUp;
    PageDivides(e);
    SlotFits(size, e);
    var page := Pow2(e);
    if k.kind.Small? {
      Product(k.idx, page / FOOTSTEP, FOOTSTEP, page);
    }
    if size > page {
      Unique(k.idx * page, page, k.idx, 0);
      RoundUpExact(size, e, k.idx * page);
      RoundedSlot(size, e, BULK, page);
    } else if size > TINY {
      if k.kind.Small? {
        Unique(k.idx * FOOTSTEP, FOOTSTEP, k.idx, 0);
        RoundUpExact(size, FOOTSTEP_EXPONENT, k.idx * FOOTSTEP);
      } else {
        RoundUpExact(size, FOOTSTEP_EXPONENT, page);
        AtLeast(k.idx, page);
      }
      RoundedSlot(size, FOOTSTEP_EXPONENT, page, FOOTSTEP);
    } else if k.kind.Big? {
      AtLeast(k.idx, page);
    }
  }

  lemma {:induction false} RoundedSlot(size: nat, exponent: nat, top: nat, step: nat)
    requires 0 < size <= top < U32 && 0 < exponent < 32 && step == Pow2(exponent) && Multiple(top, step)
    requires size <= U32 - step
    ensures Fit(RoundUp(size, exponent), step) * step == RoundUp(size, exponent)
  {
    hide Pow2, RoundUp;
    RoundUpExact(size, exponent, top);
    InSlot(RoundUp(size, exponent), step, top);
  }

  lemma {:induction false} InSlot(r: nat, step: nat, top: nat)
    requires step > 0 && Multiple(r, step) && 0 < r <= top
    ensures 1 <= r / step <= top / step && r / step * step == r
  {
    var x, y := r / step, top / step;
    assert x * step == r;
    assert x * step - y * step == (x - y) * step && top == y * step + top % step;
    if y < x {
      AtLeast(x - y, step);
    }
  }

  /** A page of any slot holds at least one object; above the tiny size it holds 32
      and is the smallest that does. */
  lemma {:induction false} PageHolds(k: Key, e: nat)
    requires 5 <= e <= 17 && IsSlot(k, e)
    ensures 0 < SlotSize(k, e) <= BULK && SlotSize(k, e) <= PageSize(k, e)
    ensures var n := Fit(PageSize(k, e), SlotSize(k, e)); n >= 1 && n * SlotSize(k, e) <= PageSize(k, e)
    ensures PageSize(k, e) % Pow2(e) == 0
    ensures k.kind.Tiny? ==> PageSize(k, e) == Pow2(e)
    ensures !k.kind.Tiny? ==> 32 * SlotSize(k, e) <= PageSize(k, e) < 32 * SlotSize(k, e) + Pow2(e)
  {
    hide Pow2, ExpandSize;
    PageDivides(e);
    var size, page := SlotSize(k, e), Pow2(e);
    if k.kind.Small? {
      Product(k.idx, page / FOOTSTEP, FOOTSTEP, page);
    } else if k.kind.Big? {
      Product(k.idx, BULK / page, page, BULK);
    }
    if !k.kind.Tiny? {
      LowBits(0, e);
      ExpandExact(size, FACTOR, page);
    }
    Quotient(PageSize(k, e), size);
  }

  lemma {:induction false} Product(i: nat, top: nat, step: nat, whole: nat)
    requires 1 <= i <= top && step > 0 && top == whole / step
    ensures 0 < i * step <= whole
  {
    AtLeast(i, step);
    assert top * step <= whole;
    assert (top - i) * step >= 0 && (top - i) * step == top * step - i * step;
  }
}
