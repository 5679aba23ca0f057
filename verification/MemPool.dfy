/** The memory pool: pages cut into equal objects, free lists per page, and the
    release of pages that are wholly free. */
module MemPool {
  import opened Arith
  import opened Common
  import opened MemSizes

  // ------------------------------------------------------------ cells of a page

  /** The addresses of the first `n` objects of a page. */
  ghost function Cells(page: nat, size: nat, n: nat): (s: set<nat>)
    ensures |s| <= n
  {
    if n == 0 then {} else Cells(page, size, n - 1) + {page + size * (n - 1)}
  }

  lemma {:induction false} CellRange(page: nat, size: nat, n: nat, c: nat)
    requires c in Cells(page, size, n)
    ensures page <= c && c + size <= page + size * n
    decreases n
  {
    assert size * n == size * (n - 1) + size;
    if c in Cells(page, size, n - 1) {
      CellRange(page, size, n - 1, c);
    } else {
      assert size * (n - 1) >= 0;
    }
  }

  /** Different objects of a page do not overlap. */
  lemma {:induction false} CellsApart(page: nat, size: nat, n: nat, c: nat, d: nat)
    requires c in Cells(page, size, n) && d in Cells(page, size, n) && c != d
    ensures c + size <= d || d + size <= c
    decreases n
  {
    var last := page + size * (n - 1);
    if c == last {
      CellRange(page, size, n - 1, d);
    } else if d == last {
      CellRange(page, size, n - 1, c);
    } else {
      CellsApart(page, size, n - 1, c, d);
    }
  }

  lemma {:induction false} CellCount(page: nat, size: nat, n: nat)
    requires size > 0
    ensures |Cells(page, size, n)| == n
    decreases n
  {
    if n > 0 {
      CellCount(page, size, n - 1);
      var last := page + size * (n - 1);
      if last in Cells(page, size, n - 1) {
        CellRange(page, size, n - 1, last);
      }
    }
  }

  // ------------------------------------------------------------ free lists

  function Elems(s: seq<nat>): set<nat> { set x | x in s }

  ghost predicate Distinct(s: seq<nat>) {
    forall i, j | 0 <= i < j < |s| :: s[i] != s[j]
  }

  lemma {:induction false} Head(s: seq<nat>)
    requires Distinct(s) && s != []
    ensures Distinct(s[1..]) && s[0] !in Elems(s[1..]) && Elems(s) == Elems(s[1..]) + {s[0]}
  {
    var t := s[1..];
    assert forall i | 0 <= i < |t| :: t[i] == s[i + 1];
    assert s == [s[0]] + t;
    forall x
      ensures x in Elems(s) <==> x in Elems(t) + {s[0]}
    {
      assert x in s <==> x in t || x == s[0];
    }
  }

  lemma {:induction false} Snoc(s: seq<nat>, c: nat)
    requires Distinct(s) && c !in Elems(s)
    ensures Distinct(s + [c]) && Elems(s + [c]) == Elems(s) + {c}
  {
    assert c !in s;
    forall x
      ensures x in Elems(s + [c]) <==> x in Elems(s) + {c}
    {
      assert x in s + [c] <==> x in s || x == c;
    }
  }

  lemma {:induction false} DistinctCount(s: seq<nat>)
    requires Distinct(s)
    ensures |Elems(s)| == |s|
  {
    if s != [] {
      Head(s);
      DistinctCount(s[1..]);
    }
  }

  /** The length of all free lists together. */
  ghost function Total(objs: map<nat, seq<nat>>): nat {
    if objs == map[] then 0
    else
      var p :| p in objs;
      |objs[p]| + Total(objs - {p})
  }

  lemma {:induction false} TotalWithout(objs: map<nat, seq<nat>>, p: nat)
    requires p in objs
    ensures Total(objs) == |objs[p]| + Total(objs - {p})
    decreases |objs|
  {
    var q :| q in objs && Total(objs) == |objs[q]| + Total(objs - {q});
    if q != p {
      TotalWithout(objs - {q}, p);
      TotalWithout(objs - {p}, q);
      assert objs - {q} - {p} == objs - {p} - {q};
    }
  }

  lemma {:induction false} TotalUpdate(objs: map<nat, seq<nat>>, p: nat, s: seq<nat>)
    ensures Total(objs[p := s]) == Total(objs - {p}) + |s|
  {
    TotalWithout(objs[p := s], p);
    assert objs[p := s] - {p} == objs - {p};
  }

  // ------------------------------------------------------------ one slot

  ghost function With(used: map<nat, set<nat>>, p: nat, u: set<nat>): map<nat, set<nat>> { used[p := u] }

  /** Free lists by page, the number of free objects, and the pages owned. */
  datatype Slot = Slot(objs: map<nat, seq<nat>>, cnt: nat, pages: set<nat>)

  function FreeList(s: Slot, p: nat): seq<nat> { if p in s.objs then s.objs[p] else [] }

  /** The free list and the objects in use share out the page. */
  ghost predicate PageOk(p: nat, size: nat, n: nat, free: seq<nat>, used: set<nat>) {
    Distinct(free) && Elems(free) !! used && Elems(free) + used == Cells(p, size, n)
  }

  ghost predicate PagesOk(size: nat, n: nat, s: Slot, used: map<nat, set<nat>>) {
    used.Keys == s.pages && forall p | p in used :: PageOk(p, size, n, FreeList(s, p), used[p])
  }

  ghost predicate ListsOk(s: Slot) {
    s.objs.Keys <= s.pages && (forall p | p in s.objs :: s.objs[p] != [])
  }

  ghost predicate SlotOk(size: nat, n: nat, s: Slot, used: map<nat, set<nat>>) {
    PagesOk(size, n, s, used) && ListsOk(s) && s.cnt == Total(s.objs)
  }

  /** Above the resident number and one page more, no page is wholly free. */
  ghost predicate Trimmed(resident: nat, n: nat, s: Slot) {
    s.cnt >= resident + n ==> forall p | p in s.objs :: |s.objs[p]| != n
  }

  /** A page is wholly free just when none of its objects is in use. */
  lemma {:induction false} WhollyFree(p: nat, size: nat, n: nat, free: seq<nat>, used: set<nat>)
    requires size > 0 && PageOk(p, size, n, free, used)
    ensures |free| <= n && (|free| == n <==> used == {})
  {
    hide Cells;
    DistinctCount(free);
    CellCount(p, size, n);
    assert |Elems(free) + used| == |Elems(free)| + |used|;
  }

  lemma {:induction false} NewPage(size: nat, n: nat, s: Slot, used: map<nat, set<nat>>, p: nat, free: seq<nat>)
    requires SlotOk(size, n, s, used) && s.objs == map[] && p !in s.pages && n > 0
    requires Distinct(free) && Elems(free) == Cells(p, size, n) && |free| == n
    ensures SlotOk(size, n, Slot(s.objs[p := free], n, s.pages + {p}), used[p := {}])
  {
    hide Cells, Elems, Distinct, PageOk;
    assert PageOk(p, size, n, free, {}) by {
      Untouched(p, size, n, free);
    }
    TotalUpdate(s.objs, p, free);
    assert s.objs - {p} == map[];
    var t := Slot(s.objs[p := free], n, s.pages + {p});
    forall q | q in used[p := {}]
      ensures PageOk(q, size, n, FreeList(t, q), used[p := {}][q])
    {
      if q != p {
        assert FreeList(t, q) == FreeList(s, q);
      }
    }
  }

  lemma Untouched(p: nat, size: nat, n: nat, free: seq<nat>)
    requires Distinct(free) && Elems(free) == Cells(p, size, n)
    ensures PageOk(p, size, n, free, {})
  {
    assert Elems(free) + {} == Elems(free);
  }

  /** The free list of one page changes, and the objects in use with it. */
  lemma {:induction false} Change(size: nat, n: nat, s: Slot, used: map<nat, set<nat>>, p: nat, free: seq<nat>,
        u: set<nat>, t: Slot)
    requires PagesOk(size, n, s, used) && ListsOk(s) && s.cnt == Total(s.objs) && p in used
    requires PageOk(p, size, n, free, u)
    requires t.pages == s.pages && t.objs == (if free == [] then s.objs - {p} else s.objs[p := free])
    requires t.cnt == s.cnt - |FreeList(s, p)| + |free|
    ensures SlotOk(size, n, t, used[p := u])
  {
    hide Cells, Elems, Distinct, PageOk;
    TotalUpdate(s.objs, p, free);
    if p in s.objs {
      TotalWithout(s.objs, p);
    } else {
      assert s.objs - {p} == s.objs;
    }
    forall q | q in used[p := u]
      ensures PageOk(q, size, n, FreeList(t, q), used[p := u][q])
    {
      if q == p {
        assert FreeList(t, p) == free;
      } else {
        assert FreeList(t, q) == FreeList(s, q);
      }
    }
  }

  lemma {:induction false} Take(p: nat, size: nat, n: nat, free: seq<nat>, used: set<nat>)
    requires PageOk(p, size, n, free, used) && free != []
    ensures free[0] !in used && PageOk(p, size, n, free[1..], used + {free[0]})
  {
    hide Cells, Elems, Distinct;
    Head(free);
    assert Elems(free[1..]) + (used + {free[0]}) == Elems(free) + used;
  }

  /** The slot without the first free object of a page. */
  function TakeFrom(s: Slot, p: nat): Slot
    requires p in s.objs && s.objs[p] != [] && s.cnt > 0
  {
    var rest := s.objs[p][1..];
    Slot(if rest == [] then s.objs - {p} else s.objs[p := rest], s.cnt - 1, s.pages)
  }

  lemma {:induction false} Stocked(size: nat, n: nat, s: Slot, used: map<nat, set<nat>>, p: nat)
    requires SlotOk(size, n, s, used) && size > 0 && p in s.objs
    ensures p in used && s.cnt > 0 && 0 < |s.objs[p]| <= n
  {
    hide Cells, Elems, Distinct, PageOk;
    TotalWithout(s.objs, p);
    assert p in used && FreeList(s, p) == s.objs[p];
    WhollyFree(p, size, n, s.objs[p], used[p]);
  }

  lemma {:induction false} TakeKeeps(size: nat, n: nat, s: Slot, used: map<nat, set<nat>>, p: nat, resident: nat)
    requires SlotOk(size, n, s, used) && size > 0 && p in s.objs && s.objs[p] != [] && s.cnt > 0
    ensures var c := s.objs[p][0];
            && p in used && c !in used[p]
            && SlotOk(size, n, TakeFrom(s, p), With(used, p, used[p] + {c}))
    ensures Trimmed(resident, n, s) || s.cnt == n ==> Trimmed(resident, n, TakeFrom(s, p))
  {
    hide Cells, Elems, Distinct, PageOk;
    var free := s.objs[p];
    assert FreeList(s, p) == free && p in used;
    Take(p, size, n, free, used[p]);
    Change(size, n, s, used, p, free[1..], used[p] + {free[0]}, TakeFrom(s, p));
    Stocked(size, n, s, used, p);
  }

  lemma {:induction false} Return(p: nat, size: nat, n: nat, free: seq<nat>, used: set<nat>, c: nat)
    requires PageOk(p, size, n, free, used) && c in used
    ensures PageOk(p, size, n, free + [c], used - {c})
  {
    hide Cells, Elems, Distinct;
    Snoc(free, c);
    assert Elems(free) + {c} + (used - {c}) == Elems(free) + used;
  }

  /** The slot with an object back on the free list of its page. */
  function GiveBack(s: Slot, p: nat, c: nat): Slot {
    Slot(s.objs[p := FreeList(s, p) + [c]], s.cnt + 1, s.pages)
  }

  lemma {:induction false} GiveBackKeeps(size: nat, n: nat, s: Slot, used: map<nat, set<nat>>, p: nat, c: nat)
    requires SlotOk(size, n, s, used) && p in used && c in used[p]
    ensures SlotOk(size, n, GiveBack(s, p, c), With(used, p, used[p] - {c}))
  {
    hide Cells, Elems, Distinct, PageOk;
    Return(p, size, n, FreeList(s, p), used[p], c);
    Change(size, n, s, used, p, FreeList(s, p) + [c], used[p] - {c}, GiveBack(s, p, c));
  }

  /** The slot without a page. */
  function Without(s: Slot, p: nat, n: nat): Slot
    requires s.cnt >= n
  {
    Slot(s.objs - {p}, s.cnt - n, s.pages - {p})
  }

  /** Releasing one wholly free page on reaching the limit is enough. */
  lemma {:induction false} ReleaseTrims(resident: nat, n: nat, s: Slot, p: nat, c: nat, q: nat)
    requires Trimmed(resident, n, s) && n > 0
    requires var t := GiveBack(s, p, c); t.cnt >= n && q in t.objs && |t.objs[q]| == n
    ensures Trimmed(resident, n, Without(GiveBack(s, p, c), q, n))
  {}

  lemma {:induction false} Release(size: nat, n: nat, s: Slot, used: map<nat, set<nat>>, p: nat)
    requires SlotOk(size, n, s, used) && size > 0 && p in s.objs && |s.objs[p]| == n
    ensures s.cnt >= n && p in used && used[p] == {} && SlotOk(size, n, Without(s, p, n), used - {p})
  {
    hide Cells, Elems, Distinct, PageOk;
    TotalWithout(s.objs, p);
    assert p in used && FreeList(s, p) == s.objs[p];
    WhollyFree(p, size, n, s.objs[p], used[p]);
    var t := Without(s, p, n);
    forall q | q in used - {p}
      ensures PageOk(q, size, n, FreeList(t, q), (used - {p})[q])
    {
      assert FreeList(t, q) == FreeList(s, q);
    }
  }

  // ------------------------------------------------------------ the pool


  /** What a caller holds: its kind, size, address and page. */
  datatype Obj = Obj(kind: Kind, size: nat, pv: nat, page: nat)

  lemma Empty(page: nat, size: nat)
    ensures Distinct([]) && Elems([]) == Cells(page, size, 0)
  {}

  method SplitMemPage(size: nat, page: nat, pageSize: nat) returns (res: seq<nat>)
    requires size > 0
    ensures Distinct(res) && Elems(res) == Cells(page, size, Fit(pageSize, size)) && |res| == Fit(pageSize, size)
  {
    hide Fit, Cells, Elems, Distinct;
    Empty(page, size);
    res := [];
    var cnt := Fit(pageSize, size);
    for i := 0 to cnt
      invariant Distinct(res) && Elems(res) == Cells(page, size, i) && |res| == i
    {
      NextCell(page, size, i, res);
      res := res + [page + size * i];
    }
  }

  lemma {:induction false} NextCell(page: nat, size: nat, i: nat, res: seq<nat>)
    requires size > 0 && Distinct(res) && Elems(res) == Cells(page, size, i)
    ensures var t := res + [page + size * i]; Distinct(t) && Elems(t) == Cells(page, size, i + 1)
  {
    hide Elems, Distinct;
    var c := page + size * i;
    if c in Cells(page, size, i) {
      CellRange(page, size, i, c);
    }
    Snoc(res, c);
  }

  /** Looks for a page with `n` free objects. */
  method FindWhollyFree(objs: map<nat, seq<nat>>, n: nat) returns (p: Option<nat>)
    ensures p.Some? ==> p.value in objs && |objs[p.value]| == n
    ensures p.None? ==> forall q | q in objs :: |objs[q]| != n
  {
    var todo := objs.Keys;
    while todo != {}
      invariant todo <= objs.Keys
      invariant forall q | q in objs && q !in todo :: |objs[q]| != n
      decreases |todo|
    {
      var q :| q in todo;
      if |objs[q]| == n {
        return Some(q);
      }
      todo := todo - {q};
    }
    return None;
  }

  function SlotOf(e: nat, o: Obj): Key {
    Key(o.kind, match o.kind case Tiny => 0 case Small => Fit(o.size, FOOTSTEP) case Big => Fit(o.size, Pow2(e)))
  }

  ghost predicate Held(e: nat, used: map<Key, map<nat, set<nat>>>, o: Obj) {
    var k := SlotOf(e, o);
    k in used && o.page in used[k] && o.pv in used[k][o.page] && o.size == SlotSize(k, e)
  }

  lemma HeldParts(e: nat, used: map<Key, map<nat, set<nat>>>, o: Obj)
    requires Held(e, used, o)
    ensures var k := SlotOf(e, o); k in used && o.page in used[k] && o.pv in used[k][o.page] && o.size == SlotSize(k, e)
  {}

  lemma {:induction false} HeldLessAt(e: nat, used: map<Key, map<nat, set<nat>>>, o: Obj, u: map<nat, set<nat>>,
        released: Option<nat>, x: Obj)
    requires Held(e, used, o)
    requires var k := SlotOf(e, o); var v := With(used[k], o.page, used[k][o.page] - {o.pv});
             if released.None? then u == v
             else released.value in v && v[released.value] == {} && u == v - {released.value}
    ensures Held(e, used[SlotOf(e, o) := u], x) <==> Held(e, used, x) && x != o
    ensures released.Some? && Held(e, used[SlotOf(e, o) := u], x) && SlotOf(e, x) == SlotOf(e, o) ==>
              x.page != released.value
  {
    hide SlotSize, Fit;
    var k := SlotOf(e, o);
    var now := used[k := u];
    assert SlotOf(e, x) != k ==> (Held(e, now, x) <==> Held(e, used, x)) && x != o;
    if SlotOf(e, x) == k {
      assert x.kind == o.kind && now[k] == u;
      var left := used[k][o.page] - {o.pv};
      if x.page == o.page {
        assert x.pv == o.pv && x.size == o.size ==> x == o;
        assert x.pv in left <==> x.pv in used[k][o.page] && x.pv != o.pv;
      }
    }
  }

  lemma {:induction false} HeldLess(e: nat, used: map<Key, map<nat, set<nat>>>, o: Obj, u: map<nat, set<nat>>,
        released: Option<nat>)
    requires Held(e, used, o)
    requires var k := SlotOf(e, o); var v := With(used[k], o.page, used[k][o.page] - {o.pv});
             if released.None? then u == v
             else released.value in v && v[released.value] == {} && u == v - {released.value}
    ensures forall x :: Held(e, used[SlotOf(e, o) := u], x) <==> Held(e, used, x) && x != o
    ensures released.Some? ==>
              forall x | Held(e, used[SlotOf(e, o) := u], x) && SlotOf(e, x) == SlotOf(e, o) ::
                x.page != released.value
  {
    hide Held, SlotOf, With;
    forall x
      ensures Held(e, used[SlotOf(e, o) := u], x) <==> Held(e, used, x) && x != o
      ensures released.Some? && Held(e, used[SlotOf(e, o) := u], x) && SlotOf(e, x) == SlotOf(e, o) ==>
                x.page != released.value
    {
      HeldLessAt(e, used, o, u, released, x);
    }
  }

  /** No two pages overlap. */
  ghost predicate Apart(e: nat, slots: map<Key, Slot>) {
    forall k, l, p, q | k in slots && l in slots && p in slots[k].pages && q in slots[l].pages && (k != l || p != q) ::
      p + PageSize(k, e) <= q || q + PageSize(l, e) <= p
  }

  /** A stretch of memory lies beside all pages. */
  ghost predicate Beside(e: nat, slots: map<Key, Slot>, at: nat, size: nat) {
    forall l, p | l in slots && p in slots[l].pages :: at + size <= p || p + PageSize(l, e) <= at
  }

  lemma {:induction false} FewerPages(e: nat, slots: map<Key, Slot>, k: Key, s: Slot)
    requires Apart(e, slots) && k in slots && s.pages <= slots[k].pages
    ensures Apart(e, slots[k := s])
  {
    hide PageSize;
    var now := slots[k := s];
    forall i, l, p, q | i in now && l in now && p in now[i].pages && q in now[l].pages && (i != l || p != q)
      ensures p + PageSize(i, e) <= q || q + PageSize(l, e) <= p
    {
      assert p in slots[i].pages && q in slots[l].pages;
    }
  }

  lemma {:induction false} OneMorePage(e: nat, slots: map<Key, Slot>, k: Key, s: Slot, page: nat)
    requires Apart(e, slots) && k in slots && s.pages == slots[k].pages + {page}
              && Beside(e, slots, page, PageSize(k, e))
    ensures Apart(e, slots[k := s])
  {
    hide PageSize;
    var now := slots[k := s];
    forall i, l, p, q | i in now && l in now && p in now[i].pages && q in now[l].pages && (i != l || p != q)
      ensures p + PageSize(i, e) <= q || q + PageSize(l, e) <= p
    {
      if i == k && p == page {
        assert q in slots[l].pages;
      } else if l == k && q == page {
        assert p in slots[i].pages;
      } else {
        assert p in slots[i].pages && q in slots[l].pages;
      }
    }
  }

  lemma Owned(size: nat, n: nat, s: Slot, used: map<nat, set<nat>>)
    requires SlotOk(size, n, s, used)
    ensures used.Keys == s.pages && s.objs.Keys <= s.pages
  {}

  const NEW_SLOT := Slot(map[], 0, {})

  lemma NewSlots(e: nat, m: map<Key, Slot>)
    requires forall k | k in m :: m[k] == NEW_SLOT
    ensures Apart(e, m)
    ensures forall size, n :: SlotOk(size, n, NEW_SLOT, map[])
    ensures forall resident, n :: Trimmed(resident, n, NEW_SLOT)
  {}

  class MemPool {
    /** The page size is 2^e. */
    const e: nat
    const resident: Kind -> nat
    var slots: map<Key, Slot>
    /** The objects in use, by slot and page. */
    ghost var used: map<Key, map<nat, set<nat>>>

    constructor (e: nat, tiny: nat, small: nat, big: nat)
      requires 5 <= e <= 17
      ensures this.e == e && Valid() && forall o :: !InUse(o)
      ensures resident(Tiny) == tiny && resident(Small) == small && resident(Big) == big
    {
      hide SlotSize, PageSize, Apart, SlotOk, Trimmed;
      var m := map[Key(Tiny, 0) := NEW_SLOT];
      var smallSlots, bigSlots := Fit(Pow2(e), FOOTSTEP), Fit(BULK, Pow2(e));
      for i := 0 to smallSlots
        invariant forall k | k in m :: m[k] == NEW_SLOT && IsSlot(k, e)
        invariant forall k: Key :: (k.kind.Tiny? && k.idx == 0) || (k.kind.Small? && 1 <= k.idx <= i) ==> k in m
      {
        m := m[Key(Small, i + 1) := NEW_SLOT];
      }
      for i := 0 to bigSlots
        invariant forall k | k in m :: m[k] == NEW_SLOT && IsSlot(k, e)
        invariant forall k: Key | k.kind.Tiny? && k.idx == 0 :: k in m
        invariant forall k: Key | k.kind.Small? && 1 <= k.idx <= smallSlots :: k in m
        invariant forall k: Key | k.kind.Big? && 1 <= k.idx <= i :: k in m
      {
        m := m[Key(Big, i + 1) := NEW_SLOT];
      }
      this.e, slots := e, m;
      resident := (k: Kind) => match k case Tiny => tiny case Small => small case Big => big;
      used := map k | k in m :: map[];
      NewSlots(e, m);
    }

    function OnePage(k: Key): nat
      requires 5 <= e <= 17 && IsSlot(k, e)
    {
      PageHolds(k, e);
      Fit(PageSize(k, e), SlotSize(k, e))
    }

    function KeyOf(o: Obj): Key { SlotOf(e, o) }

    ghost predicate InUse(o: Obj)
      reads this
    {
      Held(e, used, o)
    }

    ghost predicate Slots()
      reads this
    {
      && 5 <= e <= 17 && slots.Keys == used.Keys
      && (forall k | IsSlot(k, e) :: k in slots)
      && (forall k | k in slots :: IsSlot(k, e))
    }

    ghost predicate Sound()
      reads this
    {
      Slots() && Apart(e, slots) && forall k | k in slots :: SlotOk(SlotSize(k, e), OnePage(k), slots[k], used[k])
    }

    ghost predicate Valid()
      reads this
    {
      Sound() && forall k | k in slots :: Trimmed(resident(k.kind), OnePage(k), slots[k])
    }

    /** The allocator's answer: no memory, or a page apart from all owned. */
    ghost predicate Offered(k: Key, offer: Option<nat>)
      reads this
    {
      offer.Some? ==> Beside(e, slots, offer.value, PageSize(k, e))
    }

    /** Allocates a page for a slot that has run out. */
    method AllocPageObjs(k: Key, page: nat)
      requires Sound() && k in slots && slots[k].objs == map[] && Offered(k, Some(page))
      modifies this
      ensures Sound() && slots.Keys == old(slots.Keys)
      ensures slots[k].pages == old(slots[k].pages) + {page} && page !in old(slots[k].pages)
      ensures slots[k].cnt == OnePage(k) && slots[k].objs.Keys == {page}
      ensures slots == old(slots)[k := slots[k]] && forall o :: InUse(o) <==> old(InUse(o))
    {
      hide Cells, Elems, Distinct, SlotSize, PageSize, IsSlot, SlotOk, Fit, Apart;
      PageHolds(k, e);
      Owned(SlotSize(k, e), OnePage(k), slots[k], used[k]);
      var objs := SplitMemPage(SlotSize(k, e), page, PageSize(k, e));
      var s := slots[k];
      assert page !in s.pages;
      NewPage(SlotSize(k, e), OnePage(k), s, used[k], page, objs);
      var t := Slot(s.objs[page := objs], Fit(PageSize(k, e), SlotSize(k, e)), s.pages + {page});
      OneMorePage(e, slots, k, t, page);
      slots := slots[k := t];
      used := used[k := With(used[k], page, {})];
    }

    lemma {:induction false} KeyBack(k: Key, pv: nat, page: nat)
      requires IsSlot(k, e)
      ensures KeyOf(Obj(k.kind, SlotSize(k, e), pv, page)) == k
    {
      match k.kind {
        case Tiny =>
        case Small => Unique(k.idx * FOOTSTEP, FOOTSTEP, k.idx, 0);
        case Big => Unique(k.idx * Pow2(e), Pow2(e), k.idx, 0);
      }
    }

    /** Takes the first free object of some page that has one. */
    method GetFreeObj(k: Key) returns (o: Obj)
      requires Sound() && k in slots && slots[k].objs != map[]
      modifies this
      ensures Sound() && slots == old(slots)[k := slots[k]] && slots[k].pages == old(slots[k].pages)
      ensures var n := OnePage(k);
              old(slots[k].cnt) == n || Trimmed(resident(k.kind), n, old(slots[k])) ==>
                Trimmed(resident(k.kind), n, slots[k])
      ensures KeyOf(o) == k && o.kind == k.kind && o.size == SlotSize(k, e) && !old(InUse(o))
      ensures forall x :: InUse(x) <==> old(InUse(x)) || x == o
    {
      hide SlotSize, PageSize, IsSlot, Fit, SlotOk, Trimmed, TakeFrom, Apart;
      var s := slots[k];
      var p :| p in s.objs;
      PageHolds(k, e);
      Stocked(SlotSize(k, e), OnePage(k), s, used[k], p);
      TakeKeeps(SlotSize(k, e), OnePage(k), s, used[k], p, resident(k.kind));
      var c := s.objs[p][0];
      SamePages(s, p);
      FewerPages(e, slots, k, TakeFrom(s, p));
      slots := slots[k := TakeFrom(s, p)];
      used := used[k := With(used[k], p, used[k][p] + {c})];
      KeyBack(k, c, p);
      o := Obj(k.kind, SlotSize(k, e), c, p);
    }

    lemma LeastOnOffer(size: nat)
      requires Sound() && 0 < size <= BULK
      ensures 5 <= e <= 17 && SlotFor(size, e) in slots && IsSlot(SlotFor(size, e), e)
      ensures forall k | k in slots && SlotSize(k, e) >= size :: SlotSize(SlotFor(size, e), e) <= SlotSize(k, e)
    {
      hide SlotSize, IsSlot, SlotOk, Apart;
      SlotFits(size, e);
      forall k | k in slots && SlotSize(k, e) >= size
        ensures SlotSize(SlotFor(size, e), e) <= SlotSize(k, e)
      {
        SlotIsLeast(size, e, k);
      }
    }

    /** An object of the smallest size on offer that holds `size` bytes, or none if
        the class has run out and the allocator has no page.  Up to 16 bytes it is a
        tiny one, up to a page a small one. */
    method Get(size: nat, offer: Option<nat>) returns (r: Option<Obj>)
      requires Valid() && 0 < size <= BULK && Offered(SlotFor(size, e), offer)
      modifies this
      ensures Valid() && slots.Keys == old(slots.Keys)
      ensures var k := SlotFor(size, e); k in slots && slots == old(slots)[k := slots[k]]
      ensures r.None? ==> slots == old(slots) && offer.None? && slots[SlotFor(size, e)].objs == map[]
      ensures var k := SlotFor(size, e);
              slots[k].pages ==
              old(slots[k].pages) + if old(slots[k].objs) == map[] && offer.Some? then {offer.value} else {}
      ensures r.Some? ==> !old(InUse(r.value)) && KeyOf(r.value) == SlotFor(size, e) && r.value.size >= size
      ensures r.Some? ==> forall k | k in slots && SlotSize(k, e) >= size :: r.value.size <= SlotSize(k, e)
      ensures r.Some? ==> r.value.kind == if size <= 16 then Tiny else if size <= Pow2(e) then Small else Big
      ensures forall o :: InUse(o) <==> old(InUse(o)) || r == Some(o)
    {
      hide SlotOk, SlotSize, PageSize, IsSlot, Fit, Trimmed, InUse, KeyOf, SlotFor, Pow2, Sound, Slots;
      LeastOnOffer(size);
      SlotFits(size, e);
      var k := SlotFor(size, e);
      if slots[k].objs == map[] && offer.Some? {
        AllocPageObjs(k, offer.value);
      }
      if slots[k].objs == map[] {
        return None;
      }
      var o := GetFreeObj(k);
      r := Some(o);
    }

    /** Takes an object back; past the limit one wholly free page is released. */
    method Put(o: Obj) returns (ghost released: Option<nat>)
      requires Valid() && InUse(o)
      modifies this
      ensures Valid()
      ensures var k := KeyOf(o); k in old(slots) && slots == old(slots)[k := slots[k]]
      ensures forall x :: InUse(x) <==> old(InUse(x)) && x != o
      ensures var k, p := KeyOf(o), released;
              slots[k].pages == if p.Some? then old(slots[k].pages) - {p.value} else old(slots[k].pages)
      ensures released.Some? ==>
                var k, p := KeyOf(o), released.value;
                && p in old(slots[k].pages) && old(slots[k].cnt) + 1 >= resident(k.kind) + OnePage(k)
                && forall x | InUse(x) && KeyOf(x) == k :: x.page != p
    {
      hide SlotSize, PageSize, IsSlot, Fit, SlotOk, Apart, Trimmed, Held, SlotOf;
      var k := KeyOf(o);
      HeldParts(e, used, o);
      PageHolds(k, e);
      Owned(SlotSize(k, e), OnePage(k), slots[k], used[k]);
      var t;
      ghost var u;
      t, u, released := PutBack(SlotSize(k, e), OnePage(k), resident(k.kind), slots[k], used[k], o.page, o.pv);
      FewerPages(e, slots, k, t);
      HeldLess(e, used, o, u, released);
      slots, used := slots[k := t], used[k := u];
    }
  }

  /** Puts an object on the free list of its page, then looks for a page to
      release if too many are free. */
  method PutBack(size: nat, n: nat, resident: nat, s: Slot, ghost used: map<nat, set<nat>>, p: nat, c: nat)
      returns (t: Slot, ghost u: map<nat, set<nat>>, ghost released: Option<nat>)
    requires SlotOk(size, n, s, used) && Trimmed(resident, n, s) && size > 0 && n > 0
    requires p in used && c in used[p]
    ensures SlotOk(size, n, t, u) && Trimmed(resident, n, t)
    ensures released.None? ==> t.pages == s.pages && u == With(used, p, used[p] - {c})
    ensures released.Some? ==>
              var q := released.value;
              && q in s.pages && t.pages == s.pages - {q} && s.cnt + 1 >= resident + n
              && With(used, p, used[p] - {c})[q] == {} && u == With(used, p, used[p] - {c}) - {q}
  {
    hide SlotOk, Trimmed, GiveBack, Without;
    GiveBackKeeps(size, n, s, used, p, c);
    t, u, released := GiveBack(s, p, c), With(used, p, used[p] - {c}), None;
    SameAfterGiveBack(s, p, c);
    if t.cnt >= resident + n {
      var q := FindWhollyFree(t.objs, n);
      if q.Some? {
        Release(size, n, t, u, q.value);
        Owned(size, n, t, u);
        ReleaseTrims(resident, n, s, p, c, q.value);
        SameAfterRelease(t, q.value, n);
        t, u, released := Without(t, q.value, n), u - {q.value}, q;
        return;
      }
    }
    NoneIsTrimmed(resident, n, t);
  }

  /** Whatever was asked for and given back before: an object in use lies in a
      page the pool owns, and no other object in use overlaps it. */
  lemma {:induction false} Disjoint(m: MemPool, x: Obj, y: Obj)
    requires m.Valid() && m.InUse(x) && m.InUse(y) && x != y
    ensures x.pv + x.size <= y.pv || y.pv + y.size <= x.pv
  {
    hide SlotSize, PageSize, Fit, IsSlot, Apart;
    Inside(m, x);
    Inside(m, y);
    var k, l := m.KeyOf(x), m.KeyOf(y);
    if k == l && x.page == y.page {
      CellsApart(x.page, SlotSize(k, m.e), m.OnePage(k), x.pv, y.pv);
    } else {
      PagesApart(m.e, m.slots, k, l, x.page, y.page);
    }
  }

  lemma PagesApart(e: nat, slots: map<Key, Slot>, k: Key, l: Key, p: nat, q: nat)
    requires Apart(e, slots) && k in slots && l in slots && p in slots[k].pages && q in slots[l].pages
              && (k != l || p != q)
    ensures p + PageSize(k, e) <= q || q + PageSize(l, e) <= p
  {}

  lemma {:induction false} Inside(m: MemPool, x: Obj)
    requires m.Valid() && m.InUse(x)
    ensures var k := m.KeyOf(x);
            && k in m.slots && x.page in m.slots[k].pages && x.page <= x.pv
                && x.pv + x.size <= x.page + PageSize(k, m.e)
            && x.size == SlotSize(k, m.e) && x.pv in Cells(x.page, x.size, m.OnePage(k))
  {
    hide SlotSize, PageSize, Fit, IsSlot, Apart, Cells, Elems, Distinct;
    var k := m.KeyOf(x);
    PageHolds(k, m.e);
    assert PageOk(x.page, x.size, m.OnePage(k), FreeList(m.slots[k], x.page), m.used[k][x.page]);
    CellRange(x.page, x.size, m.OnePage(k), x.pv);
    assert x.size * m.OnePage(k) == m.OnePage(k) * x.size;
  }

  /** The free counter is the length of the free lists, and once it reaches the
      limit every page has an object in use. */
  lemma {:induction false} CountIsExact(m: MemPool, k: Key)
    requires m.Valid() && k in m.slots
    ensures m.slots[k].cnt == Total(m.slots[k].objs)
    ensures m.slots[k].cnt >= m.resident(k.kind) + m.OnePage(k) ==>
              forall p | p in m.slots[k].pages :: exists o :: m.InUse(o) && m.KeyOf(o) == k && o.page == p
  {
    hide SlotSize, PageSize, Fit, IsSlot, Apart, Cells, Elems, Distinct, PageOk, SlotOf;
    var s, n := m.slots[k], m.OnePage(k);
    PageHolds(k, m.e);
    if s.cnt >= m.resident(k.kind) + n {
      forall p | p in s.pages
        ensures exists o :: m.InUse(o) && m.KeyOf(o) == k && o.page == p
      {
        WhollyFree(p, SlotSize(k, m.e), n, FreeList(s, p), m.used[k][p]);
        var c :| c in m.used[k][p];
        m.KeyBack(k, c, p);
        assert m.InUse(Obj(k.kind, SlotSize(k, m.e), c, p));
      }
    }
  }

  lemma SameAfterGiveBack(s: Slot, p: nat, c: nat)
    ensures GiveBack(s, p, c).pages == s.pages && GiveBack(s, p, c).cnt == s.cnt + 1
  {}

  lemma SameAfterRelease(s: Slot, p: nat, n: nat)
    requires s.cnt >= n
    ensures Without(s, p, n).pages == s.pages - {p}
  {}

  lemma NoneIsTrimmed(resident: nat, n: nat, s: Slot)
    requires s.cnt < resident + n || (forall p | p in s.objs :: |s.objs[p]| != n)
    ensures Trimmed(resident, n, s)
  {}

  lemma SamePages(s: Slot, p: nat)
    requires p in s.objs && s.objs[p] != [] && s.cnt > 0
    ensures TakeFrom(s, p).pages == s.pages
  {}
}
