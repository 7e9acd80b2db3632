/** mmap/manager.go and mmap/syscall_unix.go: where fixed mappings may go, and the record of the active
    ones.  The operating system is a set of disjoint address ranges; whether it grants a mapping is
    up to it. */
module AddressSpace {
  import opened Bytes
  import opened Optional

  /** Addresses `start` up to, not including, `end`. */
  datatype Range = Range(start: nat, end: nat)

  predicate Apart(a: Range, b: Range) { a.end <= b.start || b.end <= a.start }

  /** Ranges of 64-bit addresses, none empty. */
  predicate Proper(r: Range) { r.start < r.end < TWO_64 }

  ghost predicate AllApart(os: set<Range>) {
    (forall r :: r in os ==> Proper(r)) && forall a, b :: a in os && b in os && a != b ==> Apart(a, b)
  }

  /** A page size: a power of two, of which only this is used. */
  predicate PageSize(page: nat) { 2 <= page <= TWO_31 && TWO_64 % page == 0 }

  function RoundPageDown(page: nat, p: nat): nat
    requires page > 0
  {
    p - p % page
  }

  /** Always adds a page, also to what is already on a boundary. */
  function RoundPageUp(page: nat, p: nat): nat
    requires page > 0
  {
    U64(RoundPageDown(page, p) + page)
  }

  /** What `sort.Slice` leaves of the current mappings. */
  ghost predicate Sorted(maps: seq<Range>) {
    forall i, j :: 0 <= i < j < |maps| ==> maps[i].start < maps[j].start
  }

  /** The gap behind the mapping at `i`; the last one is open-ended. */
  function GapAfter(page: nat, maps: seq<Range>, i: nat): Range
    requires page > 0 && i < |maps|
  {
    Range(RoundPageUp(page, maps[i].end),
          if i + 1 < |maps| then RoundPageDown(page, maps[i + 1].start) else TWO_64 - 1)
  }

  /** The filter: behind the target, and large enough by a signed difference that wraps. */
  predicate Suitable(g: Range, target: nat, size: nat) {
    g.start > target && S64(g.end - g.start) >= size
  }

  function SuitableGaps(page: nat, maps: seq<Range>, n: nat, target: nat, size: nat): seq<Range>
    requires page > 0 && n <= |maps|
  {
    if n == 0 then []
    else SuitableGaps(page, maps, n - 1, target, size)
         + var g := GapAfter(page, maps, n - 1);
           if Suitable(g, target, size) then [g] else []
  }

  /** `findNextFreeAddressesAfterTarget`, after its sort. */
  method FindNextFree(page: nat, maps: seq<Range>, target: nat, size: nat) returns (gaps: seq<Range>)
    requires PageSize(page) && |maps| > 0
    ensures gaps == SuitableGaps(page, maps, |maps|, target, size)
  {
    var allGaps: seq<Range> := [];
    var i := 0;
    while i < |maps| - 1
      invariant 0 <= i <= |maps| - 1 == |maps| - 1 && |allGaps| == i
      invariant forall k :: 0 <= k < i ==> allGaps[k] == GapAfter(page, maps, k)
    {
      allGaps := allGaps + [Range(RoundPageUp(page, maps[i].end), RoundPageDown(page, maps[i + 1].start))];
      i := i + 1;
    }
    allGaps := allGaps + [Range(RoundPageUp(page, maps[i].end), TWO_64 - 1)];
    gaps := [];
    var k := 0;
    while k < |allGaps|
      invariant 0 <= k <= |allGaps| == |maps|
      invariant gaps == SuitableGaps(page, maps, k, target, size)
    {
      if allGaps[k].start > target && S64(allGaps[k].end - allGaps[k].start) >= size {
        gaps := gaps + [allGaps[k]];
      }
      k := k + 1;
    }
  }

  // ----- pages -----

  lemma MultipleSum(x: nat, y: nat, p: nat)
    requires p >= 1 && x % p == 0 && y % p == 0
    ensures (x + y) % p == 0
  {
    var a, b := x / p, y / p;
    assert x == a * p && y == b * p;
    assert x + y == (a + b) * p;
    ModMultiple(a + b, p);
  }

  lemma MulMono(a: nat, b: nat, p: nat)
    requires a <= b
    ensures a * p <= b * p
  {
    assert b * p == a * p + (b - a) * p;
  }

  /** Between two multiples there is room for the divisor. */
  lemma NextMultiple(x: nat, y: nat, p: nat)
    requires p >= 1 && x % p == 0 && y % p == 0 && x < y
    ensures x + p <= y
  {
    var a, b := x / p, y / p;
    assert x == a * p && y == b * p;
    if b <= a {
      MulMono(b, a, p);
    } else {
      MulMono(a + 1, b, p);
    }
  }

  lemma RoundsToPages(page: nat, p: nat)
    requires PageSize(page) && p < TWO_64
    ensures RoundPageDown(page, p) % page == 0 && RoundPageDown(page, p) <= p < RoundPageDown(page, p) + page
    ensures RoundPageUp(page, p) % page == 0 && RoundPageDown(page, p) + page <= TWO_64
    ensures RoundPageUp(page, p) == if RoundPageDown(page, p) + page == TWO_64 then 0 else RoundPageDown(page, p) + page
  {
    var down, top: nat := RoundPageDown(page, p), TWO_64;
    assert p == (p / page) * page + p % page;
    ModMultiple(p / page, page);
    NextMultiple(down, top, page);
    ModMultiple(1, page);
    MultipleSum(down, page, page);
  }

  lemma RoundDownMonotone(page: nat, p: nat, q: nat)
    requires page >= 1 && p <= q
    ensures RoundPageDown(page, p) <= RoundPageDown(page, q)
  {
    var a, b := p / page, q / page;
    assert RoundPageDown(page, p) == a * page && RoundPageDown(page, q) == b * page;
    if b < a {
      MulMono(b + 1, a, page);
    } else {
      MulMono(a, b, page);
    }
  }

  // ----- what a suitable gap is -----

  /** A gap bounded by a following mapping is suitable exactly when it lies behind the target and has
      room (for less than half the address space); where two mappings adjoin, the subtraction wraps
      below zero and the gap is passed over. */
  lemma BoundedGapSuitableIff(page: nat, maps: seq<Range>, i: nat, target: nat, size: nat)
    requires PageSize(page) && i + 1 < |maps| && 0 < size < TWO_63
    requires Proper(maps[i]) && Proper(maps[i + 1]) && maps[i].end <= maps[i + 1].start
    ensures var g := GapAfter(page, maps, i);
            Suitable(g, target, size) <==> g.start > target && g.start + size <= g.end < g.start + TWO_63
  {
    hide S64, RoundPageDown, RoundPageUp;
    var g := GapAfter(page, maps, i);
    RoundsToPages(page, maps[i].end);
    RoundsToPages(page, maps[i + 1].start);
    RoundDownMonotone(page, maps[i].end, maps[i + 1].start);
    if g.start > 0 {
      var d: int := g.end - g.start;
      assert d + page >= 0;
      SignedDifference(d);
    }
  }

  lemma SignedDifference(d: int)
    requires -TWO_63 <= d < TWO_64
    ensures S64(d) == if d < TWO_63 then d else d - TWO_64
  {
  }

  /** The open-ended last gap is suitable only from the upper half of the address space on. */
  lemma LastGapSuitableIff(page: nat, maps: seq<Range>, target: nat, size: nat)
    requires PageSize(page) && |maps| > 0
    ensures var g := GapAfter(page, maps, |maps| - 1);
            Suitable(g, target, size) <==> g.start > target && g.start >= TWO_63 && g.start + size <= g.end
  {
    var g := GapAfter(page, maps, |maps| - 1);
    SignedDifference(g.end - g.start);
  }

  /** A suitable bounded gap touches no mapping. */
  lemma GapIsFree(page: nat, maps: seq<Range>, i: nat, target: nat, size: nat, r: Range, j: nat)
    requires PageSize(page) && i + 1 < |maps| && j < |maps| && Sorted(maps) && AllApart(set m | m in maps)
    requires Suitable(GapAfter(page, maps, i), target, size)
    requires GapAfter(page, maps, i).start <= r.start && r.end <= GapAfter(page, maps, i).end
    ensures Apart(r, maps[j])
  {
    hide S64, RoundPageDown, RoundPageUp, Sorted, AllApart;
    InOrder(maps, i, i + 1);
    RoundsToPages(page, maps[i].end);
    RoundsToPages(page, maps[i + 1].start);
    if j <= i {
      InOrder(maps, j, i);
    } else {
      InOrder(maps, i + 1, j);
    }
  }

  lemma InOrder(maps: seq<Range>, i: nat, j: nat)
    requires i <= j < |maps| && Sorted(maps) && AllApart(set m | m in maps)
    ensures maps[i].end <= maps[j].end && maps[i].start <= maps[j].start
    ensures i < j ==> maps[i].end <= maps[j].start
    ensures Proper(maps[i]) && Proper(maps[j])
  {
    var all := set m | m in maps;
    assert maps[i] in all && maps[j] in all;
  }

  // ----- the addresses tried in one gap -----

  /** The sum that ends the loop `for i := start; i+step < end; i += step`, did it not wrap. */
  function FirstBeyond(i: nat, step: nat, end: nat): (r: nat)
    requires step > 0
    ensures r >= end && r >= i + step && (i < end ==> r < end + step)
    decreases if i < end then end - i else 0
  {
    if i + step < end then FirstBeyond(i + step, step, end) else i + step
  }

  /** The sums of the loop stay within 64 bits. */
  predicate NoWrap(g: Range, step: nat)
    requires step > 0
  {
    FirstBeyond(g.start, step, g.end) < TWO_64
  }

  function Candidates(i: nat, step: nat, end: nat): seq<nat>
    requires step > 0
    decreases if i < end then end - i else 0
  {
    if i + step < end then [i] + Candidates(i + step, step, end) else []
  }

  /** The loop variable after `k` rounds, in 64-bit arithmetic. */
  ghost function LoopAddress(g: Range, step: nat, k: nat): nat {
    if k == 0 then g.start else U64(LoopAddress(g, step, k - 1) + step)
  }

  /** All rounds up to the one with number `k` pass the loop's test. */
  ghost predicate Reaches(g: Range, step: nat, k: nat) {
    U64(LoopAddress(g, step, k) + step) < g.end && (k > 0 ==> Reaches(g, step, k - 1))
  }

  /** There is room for `step` bytes in the gap at this address. */
  predicate Inside(g: Range, step: nat, addr: nat) { g.start <= addr && addr + step <= g.end }

  /** Every address the loop can come to leaves room for `step` bytes in the gap. */
  ghost predicate StaysInside(g: Range, step: nat) {
    forall k: nat :: Reaches(g, step, k) ==> Inside(g, step, LoopAddress(g, step, k))
  }

  /** Some round fails the loop's test: the loop ends even when nothing is ever granted. */
  ghost predicate Ends(g: Range, step: nat) {
    exists k: nat :: !Reaches(g, step, k)
  }

  /** With sums that do not wrap it does. */
  lemma UnwrappedEnds(g: Range, step: nat)
    requires step > 0 && NoWrap(g, step) && g.start < TWO_64
    ensures Ends(g, step)
  {
    if !Ends(g, step) {
      assert Reaches(g, step, g.end);
      UnwrappedGrows(g, step, g.end);
    }
  }

  lemma ReachedBefore(g: Range, step: nat, k: nat)
    requires k > 0 && Reaches(g, step, k)
    ensures Reaches(g, step, k - 1)
  {
  }

  lemma {:induction false} UnwrappedGrows(g: Range, step: nat, k: nat)
    requires step > 0 && NoWrap(g, step) && Reaches(g, step, k) && g.start < TWO_64
    ensures k <= LoopAddress(g, step, k) < g.end
  {
    hide U64, Reaches;
    UnwrappedAddress(g, step, k);
    if k > 0 {
      ReachedBefore(g, step, k);
      UnwrappedGrows(g, step, k - 1);
      UnwrappedAddress(g, step, k - 1);
      InRange(LoopAddress(g, step, k - 1) + step);
    }
  }

  /** In the open-ended gap it does not: no multiple of the page size is as large as the end of that gap,
      so against a system that keeps refusing the loop runs forever. */
  lemma OpenGapNeverEnds(page: nat, g: Range, step: nat)
    requires PageSize(page) && step % page == 0 && g.start % page == 0 && g.start < TWO_64 && g.end == TWO_64 - 1
    ensures !Ends(g, step)
  {
    forall k: nat ensures Reaches(g, step, k) {
      AlwaysReaches(page, g, step, k);
    }
  }

  lemma {:induction false} AlwaysReaches(page: nat, g: Range, step: nat, k: nat)
    requires PageSize(page) && step % page == 0 && g.start % page == 0 && g.start < TWO_64 && g.end == TWO_64 - 1
    ensures Reaches(g, step, k) && LoopAddress(g, step, k) % page == 0 && LoopAddress(g, step, k) < TWO_64
  {
    hide U64;
    if k > 0 {
      AlwaysReaches(page, g, step, k - 1);
      NextAddress(page, LoopAddress(g, step, k - 1), step);
    }
    NextAddress(page, LoopAddress(g, step, k), step);
  }

  /** The loop comes to page boundaries only, wrapped or not. */
  lemma {:induction false} LoopPages(page: nat, g: Range, step: nat, k: nat)
    requires PageSize(page) && step % page == 0 && g.start % page == 0
    ensures LoopAddress(g, step, k) % page == 0
  {
    if k > 0 {
      LoopPages(page, g, step, k - 1);
      NextAddress(page, LoopAddress(g, step, k - 1), step);
    }
  }

  lemma NextAddress(page: nat, i: nat, step: nat)
    requires PageSize(page) && step % page == 0 && i % page == 0
    ensures U64(i + step) % page == 0 && U64(i + step) < TWO_64 - 1
  {
    hide U64;
    MultipleSum(i, step, page);
    WrappedIsMultiple(page, i + step);
  }

  lemma WrappedIsMultiple(page: nat, x: nat)
    requires PageSize(page) && x % page == 0
    ensures U64(x) % page == 0 && U64(x) < TWO_64 - 1
  {
    var top: nat := TWO_64;
    var a, b, q, r := x / page, top / page, x / top, x % top;
    assert x == a * page && top == b * page && x == q * top + r;
    assert q * (b * page) == (q * b) * page;
    assert r == (a - q * b) * page;
    if a < q * b {
      MulMono(a + 1, q * b, page);
    }
    ModMultiple(a - q * b, page);
    NextMultiple(r, top, page);
  }

  lemma {:induction false} UnwrappedAddress(g: Range, step: nat, k: nat)
    requires step > 0 && NoWrap(g, step) && Reaches(g, step, k) && g.start < TWO_64
    ensures g.start <= LoopAddress(g, step, k) && LoopAddress(g, step, k) + step < g.end
    ensures FirstBeyond(LoopAddress(g, step, k), step, g.end) == FirstBeyond(g.start, step, g.end)
  {
    if k > 0 {
      UnwrappedAddress(g, step, k - 1);
      InRange(LoopAddress(g, step, k - 1) + step);
    }
    var i := LoopAddress(g, step, k);
    InRange(i + step);
  }

  lemma WrapsOnce(x: nat)
    requires TWO_64 <= x < 2 * TWO_64
    ensures U64(x) == x - TWO_64
  {
  }

  /** From an address `i` the loop has come to, it goes on to one that does not fit. */
  lemma {:induction false} WrapEscapes(g: Range, step: nat, k: nat) returns (k': nat)
    requires 0 < step && g.start + step <= g.end < TWO_64
    requires g.start <= LoopAddress(g, step, k) < g.end && (k > 0 ==> Reaches(g, step, k - 1))
    requires FirstBeyond(LoopAddress(g, step, k), step, g.end) >= TWO_64
    ensures Reaches(g, step, k') && LoopAddress(g, step, k') + step > g.end
    decreases g.end - LoopAddress(g, step, k)
  {
    hide U64;
    var i := LoopAddress(g, step, k);
    if i + step < g.end {
      InRange(i + step);
      k' := WrapEscapes(g, step, k + 1);
    } else {
      WrapsOnce(i + step);
      k' := k;
    }
  }

  /** The loop over a suitable gap stays inside it exactly when its sums do not wrap. */
  lemma StaysInsideIff(g: Range, step: nat)
    requires 0 < step && g.start + step <= g.end < TWO_64
    ensures StaysInside(g, step) <==> NoWrap(g, step)
  {
    if NoWrap(g, step) {
      forall k: nat | Reaches(g, step, k)
        ensures Inside(g, step, LoopAddress(g, step, k))
      {
        UnwrappedAddress(g, step, k);
      }
    } else {
      var k := WrapEscapes(g, step, 0);
    }
  }

  /** A gap that ends a step below the top of the address space is safe, wherever it starts. */
  lemma BoundedBelowTheTop(g: Range, step: nat)
    requires 0 < step && g.start < g.end && g.end + step <= TWO_64
    ensures NoWrap(g, step)
  {
  }

  /** The open-ended last gap never is. */
  lemma LastGapWraps(page: nat, g: Range, step: nat)
    requires PageSize(page) && 0 < step && step % page == 0 && g.start % page == 0 && g.end == TWO_64 - 1
    ensures !NoWrap(g, step)
  {
    BeyondIsMultiple(page, g.start, step, g.end);
    var r := FirstBeyond(g.start, step, g.end);
    var top: nat := TWO_64;
    if r < top {
      NextMultiple(r, top, page);
    }
  }

  lemma {:induction false} BeyondIsMultiple(page: nat, i: nat, step: nat, end: nat)
    requires page >= 1 && step > 0 && i % page == 0 && step % page == 0
    ensures FirstBeyond(i, step, end) % page == 0
    decreases if i < end then end - i else 0
  {
    MultipleSum(i, step, page);
    if i + step < end {
      BeyondIsMultiple(page, i + step, step, end);
    }
  }

  // ----- the record of active mappings -----

  /** A Go byte slice over memory. */
  datatype Slice = Slice(base: nat, len: nat, cap: nat)

  /** A fixed mapping is put over whatever is there; what it runs into is lost. */
  ghost function Overlaid(os: set<Range>, r: Range): set<Range> {
    (set x | x in os && Apart(x, r)) + {r}
  }

  /** Nothing the operating system has mapped is in the way. */
  ghost predicate Free(os: set<Range>, r: Range) {
    forall x :: x in os ==> Apart(x, r)
  }

  /** Where a mapping goes: with an address, exactly there (`MAP_FIXED`); without, where the system likes. */
  function Placed(addr: nat, length: nat, elsewhere: nat): Range {
    var base := if addr != 0 then addr else elsewhere;
    Range(base, base + length)
  }

  /** The slice is whole and its last byte is that of an active mapping which starts where it does. */
  predicate Registered(active: map<nat, Range>, data: Slice) {
    data.len != 0 && data.len == data.cap
    && var p := data.base + data.cap - 1; p in active && active[p].start == data.base
  }

  /** Every active mapping is there in memory, under its last byte, and all memory ranges are apart. */
  ghost predicate ValidState(os: set<Range>, active: map<nat, Range>) {
    AllApart(os) && forall k :: k in active ==> active[k] in os && active[k].end - 1 == k
  }

  /** Only a slice that is, as a whole, an active mapping can be taken back. */
  lemma RegisteredIff(os: set<Range>, active: map<nat, Range>, data: Slice)
    requires ValidState(os, active)
    ensures Registered(active, data)
       <==> Range(data.base, data.base + data.len) in active.Values && data.len == data.cap
  {
    var whole := Range(data.base, data.base + data.len);
    if whole in active.Values {
      var k :| k in active && active[k] == whole;
      assert Proper(whole);
    }
    if Registered(active, data) {
      assert active[data.base + data.len - 1] == whole;
    }
  }

  class Mmapper {
    ghost var os: set<Range>  // what the system has mapped
    var active: map<nat, Range>  // by last byte

    ghost predicate Valid()
      reads this
    {
      ValidState(os, active)
    }

    /** `Mmap`, with the system's answer: refused, or granted. */
    method Mmap(addr: nat, length: int, refused: bool, elsewhere: nat) returns (r: Option<Range>)
      modifies this
      ensures length <= 0 || refused ==> r.None? && os == old(os) && active == old(active)
      ensures length > 0 && !refused ==>
        && r == Some(Placed(addr, length, elsewhere))
        && os == Overlaid(old(os), r.value) && active == old(active)[r.value.end - 1 := r.value]
      ensures length > 0 && !refused && old(Valid()) && Free(old(os), r.value) && Proper(r.value) ==>
        Valid() && os == old(os) + {r.value}
    {
      if length <= 0 {
        return None;
      }
      if refused {
        return None;
      }
      var b := Placed(addr, length, elsewhere);
      os := Overlaid(os, b);
      active := active[b.end - 1 := b];
      r := Some(b);
    }

    /** `Munmap`: takes back a slice registered under its last byte. */
    method Munmap(data: Slice, refused: bool) returns (ok: bool)
      modifies this
      ensures ok <==> Registered(old(active), data) && !refused
      ensures ok ==> os == old(os) - {old(active)[data.base + data.len - 1]}
      ensures ok ==> active == old(active) - {data.base + data.len - 1}
      ensures !ok ==> os == old(os) && active == old(active)
      ensures old(Valid()) ==> Valid()
    {
      if data.len == 0 || data.len != data.cap {
        return false;
      }
      var p := data.base + data.cap - 1;
      if p !in active || active[p].start != data.base {
        return false;
      }
      if refused {
        return false;
      }
      ghost var gone, before := active[p], active;
      os := os - {gone};
      active := active - {p};
      ok := true;
      assert AllApart(old(os)) ==> AllApart(os);
    }

    /** The loop over one gap: asks for each address in turn until one is granted.  Which requests of
        the search are refused, counted from its first, is up to the system. */
    method TryGap(gaps: seq<Range>, g: nat, step: nat, refused: nat -> bool, elsewhere: nat, tried: seq<Attempt>)
      returns (r: Option<Range>, attempts: seq<Attempt>)
      requires g < |gaps| && 0 < step < TWO_63 && gaps[g].start < TWO_64 && gaps[g].end < TWO_64
      requires Ends(gaps[g], step) || GrantsFrom(refused, |tried|)
      modifies this
      ensures tried <= attempts
      ensures forall k :: |tried| <= k < |attempts| ==>
        attempts[k].gap == g && attempts[k].addr == LoopAddress(gaps[g], step, k - |tried|)
      ensures NoWrap(gaps[g], step) ==>
        forall k :: |tried| <= k < |attempts| ==> InGap(gaps[g], step, attempts[k].addr)
      ensures r.None? ==> os == old(os) && active == old(active)
      ensures r.None? && NoWrap(gaps[g], step) ==>
        attempts == tried + Attempts(g, Candidates(gaps[g].start, step, gaps[g].end))
      ensures forall k :: |tried| <= k < |attempts| - 1 ==> refused(k)
      ensures r.None? <==> |attempts| == |tried| || refused(|attempts| - 1)
      ensures r.Some? ==> |attempts| > |tried| && Granted(old(os), old(active), attempts[|attempts| - 1].addr, step,
                                                         elsewhere, r.value, os, active)
    {
      hide NoWrap, Candidates, Attempts, Reaches, LoopAddress, InGap, InLoop;
      attempts := tried;
      r := None;
      var i: nat := gaps[g].start;
      LoopEntry(gaps[g], step);
      var end := gaps[g].end;
      ghost var ends, bound: nat := Ends(gaps[g], step), 0;
      if ends {
        bound :| !Reaches(gaps[g], step, bound);
      } else {
        ghost var granted: nat :| |tried| <= granted && !refused(granted);
        bound := granted - |tried|;
      }
      ghost var n: nat := 0;
      while U64(i + step) < end
        invariant i < TWO_64 && tried <= attempts && r.None? && os == old(os) && active == old(active)
        invariant i == LoopAddress(gaps[g], step, n) && |attempts| == |tried| + n <= |tried| + bound
        invariant if ends then !Reaches(gaps[g], step, bound) && (n > 0 ==> Reaches(gaps[g], step, n - 1))
                  else !refused(|tried| + bound)
        invariant forall k :: |tried| <= k < |attempts| ==> refused(k)
        invariant forall k :: |tried| <= k < |attempts| ==>
          attempts[k].gap == g && attempts[k].addr == LoopAddress(gaps[g], step, k - |tried|)
        invariant NoWrap(gaps[g], step) ==>
          && InLoop(gaps[g], step, i)
          && attempts + Attempts(g, Candidates(i, step, end))
             == tried + Attempts(g, Candidates(gaps[g].start, step, end))
          && forall k :: |tried| <= k < |attempts| ==> InGap(gaps[g], step, attempts[k].addr)
        decreases bound - n
      {
        if NoWrap(gaps[g], step) {
          LoopRound(gaps[g], step, i);
          FirstAttempt(g, i, Candidates(i + step, step, end));
        }
        NextAddressIs(gaps[g], step, n);
        if ends {
          NextRound(gaps[g], step, n, bound);
        }
        ghost var before := attempts;
        attempts := attempts + [Attempt(g, i)];
        r := Mmap(i, step, refused(|attempts| - 1), elsewhere);
        if r.Some? {
          return;
        }
        assert forall rest: seq<Attempt> :: before + ([Attempt(g, i)] + rest) == attempts + rest;
        i := U64(i + step);
        n := n + 1;
      }
      if NoWrap(gaps[g], step) {
        LoopRound(gaps[g], step, i);
        assert attempts + [] == attempts;
        NoAttempt(g);
      }
    }

    /** `AcquireMapping`, from the sorted list of current mappings on.  It ends if some request would be
        granted or all loops over gaps end; what it may have asked for and changed by then, `AllHarmless`
        and `Outcome` say. */
    method AcquireMapping(page: nat, target: nat, size: nat, maps: seq<Range>, refused: nat -> bool, elsewhere: nat,
                          unmapRefused: bool)
      returns (r: Result, attempts: seq<Attempt>)
      requires PageSize(page) && size + page < TWO_63 && target < TWO_64 && Valid() && Lists(maps, os)
      requires AllEnd(SuitableGaps(page, maps, |maps|, target, StepFor(page, size)), StepFor(page, size))
               || GrantsFrom(refused, 0)
      modifies this
      ensures AllHarmless(page, target, StepFor(page, size), maps, old(os), attempts)
      ensures Outcome(target, StepFor(page, size), SuitableGaps(page, maps, |maps|, target, StepFor(page, size)),
                      old(os), old(active), r, attempts, os, active)
      ensures forall k :: 0 <= k < |attempts| ==> (refused(k) <==> k < |attempts| - 1 || r.AllTaken?)
      ensures GrantedInside(page, target, StepFor(page, size), maps, r, attempts) ==> Valid()
    {
      hide SuitableGaps, Ends, NoWrap, Inside, InGap, LoopAddress, AllAttempts, Harmless, AllApart, Sorted, U64,
        Overlaid;
      var step := StepFor(page, size);
      var gaps := FindNextFree(page, maps, target, step);
      attempts := [];
      if |gaps| == 0 {
        return NoGap, [];
      }
      GapsAreAddresses(page, maps, os, target, step);
      var g := 0;
      NoAttempts(gaps, step);
      while g < |gaps|
        invariant 0 <= g <= |gaps| && os == old(os) && active == old(active)
        invariant AllHarmless(page, target, step, maps, os, attempts)
        invariant (forall g :: g in gaps ==> NoWrap(g, step)) ==> attempts == AllAttempts(gaps, step, g)
        invariant forall k :: 0 <= k < |attempts| ==> refused(k)
      {
        ghost var before := attempts;
        assert Ends(gaps[g], step) || GrantsFrom(refused, |attempts|) by {
          assert gaps[g] in gaps;
        }
        var m;
        m, attempts := TryGap(gaps, g, step, refused, elsewhere, attempts);
        MoreHarmless(page, target, step, maps, old(os), before, attempts, g);
        AllAttemptsStep(gaps, step, g);
        if m.Some? {
          ghost var granted := os;
          GrantedIs(page, target, step, maps, old(os), old(active), attempts, elsewhere, m.value, os, active);
          if U64(m.value.end - 1 - target) > TWO_32 {
            var unmapped := Munmap(Slice(m.value.start, step, step), unmapRefused);
            return TooFar(m.value, unmapped), attempts;
          }
          return Acquired(m.value), attempts;
        }
        g := g + 1;
      }
      r := AllTaken;
    }
  }

  /** The end of a search. */
  datatype Result = NoGap | Acquired(range: Range) | TooFar(range: Range, unmapped: bool) | AllTaken

  /** The size asked for: whole pages, and always at least one byte more than needed. */
  function StepFor(page: nat, size: nat): (step: nat)
    requires PageSize(page) && size + page < TWO_63
    ensures size < step <= size + page && step < 0x8000_0000_0000_0000 && step % page == 0
  {
    RoundsToPages(page, size);
    RoundPageUp(page, size)
  }

  /** Every request inside its gap was harmless, and where sums do not wrap every request was inside. */
  ghost predicate AllHarmless(page: nat, target: nat, step: nat, maps: seq<Range>, os: set<Range>,
                              attempts: seq<Attempt>)
    requires page > 0 && step > 0
  {
    var gaps := SuitableGaps(page, maps, |maps|, target, step);
    forall k :: 0 <= k < |attempts| ==> HarmlessAttempt(page, target, step, gaps, os, attempts[k])
  }

  ghost predicate HarmlessAttempt(page: nat, target: nat, step: nat, gaps: seq<Range>, os: set<Range>, a: Attempt)
    requires page > 0 && step > 0
  {
    && a.gap < |gaps| && (NoWrap(gaps[a.gap], step) ==> Inside(gaps[a.gap], step, a.addr))
    && (Inside(gaps[a.gap], step, a.addr) ==> Harmless(page, target, os, Range(a.addr, a.addr + step)))
  }

  /** What a search leaves.  With no gap, or all requests refused, nothing has changed (and then, sums
      not wrapping, every candidate was tried).  What was acquired ends within 4 GiB of the target and,
      if it was asked for inside a gap, is exactly what was asked for, added to what was mapped; if it is
      too far and was given back, nothing has changed. */
  ghost predicate Outcome(target: nat, step: nat, gaps: seq<Range>, os: set<Range>, active: map<nat, Range>,
                          r: Result, attempts: seq<Attempt>, os': set<Range>, active': map<nat, Range>)
    requires step > 0
  {
    match r
    case NoGap => gaps == [] && os' == os && active' == active
    case AllTaken =>
      && gaps != [] && os' == os && active' == active
      && ((forall g :: g in gaps ==> NoWrap(g, step)) ==> attempts == AllAttempts(gaps, step, |gaps|))
    case Acquired(range) =>
      && U64(range.end - 1 - target) <= TWO_32
      && attempts != [] && (LastInside(gaps, step, attempts) ==>
           && range == LastRequest(step, attempts) && os' == os + {range} && active' == active[range.end - 1 := range])
    case TooFar(range, unmapped) =>
      && U64(range.end - 1 - target) > TWO_32
      && attempts != [] && (LastInside(gaps, step, attempts) ==>
           && range == LastRequest(step, attempts)
           && (if unmapped then os' == os && active' == active
               else os' == os + {range} && active' == active[range.end - 1 := range]))
  }

  /** What is kept ends within 4 GiB of the target, by a 64-bit difference; what is given back does not. */
  lemma KeptIsNear(target: nat, step: nat, gaps: seq<Range>, os: set<Range>, active: map<nat, Range>, r: Result,
                   attempts: seq<Attempt>, os': set<Range>, active': map<nat, Range>)
    requires step > 0 && Outcome(target, step, gaps, os, active, r, attempts, os', active')
    ensures r.Acquired? ==> (r.range.end - 1 - target) % 0x1_0000_0000_0000_0000 <= 0x1_0000_0000
    ensures r.TooFar? ==> (r.range.end - 1 - target) % 0x1_0000_0000_0000_0000 > 0x1_0000_0000
  {
    hide NoWrap, LastInside, AllAttempts;
  }

  /** The last request was for a place inside its gap. */
  predicate LastInside(gaps: seq<Range>, step: nat, attempts: seq<Attempt>)
    requires attempts != []
  {
    var last := attempts[|attempts| - 1];
    last.gap < |gaps| && Inside(gaps[last.gap], step, last.addr)
  }

  /** What was granted, if anything, was asked for inside its gap. */
  predicate GrantedInside(page: nat, target: nat, step: nat, maps: seq<Range>, r: Result, attempts: seq<Attempt>)
    requires page > 0
  {
    r.Acquired? || r.TooFar? ==>
      attempts != [] && LastInside(SuitableGaps(page, maps, |maps|, target, step), step, attempts)
  }

  /** Some request with this number or a later one would be granted. */
  ghost predicate GrantsFrom(refused: nat -> bool, n: nat) {
    exists k: nat :: n <= k && !refused(k)
  }

  /** The loop over every gap ends on its own. */
  ghost predicate AllEnd(gaps: seq<Range>, step: nat) {
    forall g :: g in gaps ==> Ends(g, step)
  }

  ghost function LastRequest(step: nat, attempts: seq<Attempt>): Range
    requires attempts != []
  {
    var a := attempts[|attempts| - 1].addr;
    Range(a, a + step)
  }

  function AllAttempts(gaps: seq<Range>, step: nat, n: nat): seq<Attempt>
    requires step > 0 && n <= |gaps|
  {
    if n == 0 then []
    else AllAttempts(gaps, step, n - 1) + Attempts(n - 1, Candidates(gaps[n - 1].start, step, gaps[n - 1].end))
  }

  /** One request for a mapping: the gap it belongs to and the address. */
  datatype Attempt = Attempt(gap: nat, addr: nat)

  function Attempts(g: nat, addrs: seq<nat>): (r: seq<Attempt>)
    ensures |r| == |addrs|
  {
    if addrs == [] then [] else [Attempt(g, addrs[0])] + Attempts(g, addrs[1..])
  }

  /** `step` bytes from this address are in the gap, a whole number of steps behind its start. */
  ghost predicate InGap(g: Range, step: nat, addr: nat)
    requires step > 0
  {
    g.start <= addr && addr + step < g.end && (addr - g.start) % step == 0
  }

  ghost predicate InLoop(g: Range, step: nat, i: nat)
    requires step > 0
  {
    g.start <= i && (i - g.start) % step == 0 && FirstBeyond(i, step, g.end) == FirstBeyond(g.start, step, g.end)
  }

  /** What a granted request changed. */
  ghost predicate Granted(os: set<Range>, active: map<nat, Range>, addr: nat, step: nat, elsewhere: nat, r: Range,
                          os': set<Range>, active': map<nat, Range>)
    requires step > 0
  {
    r == Placed(addr, step, elsewhere) && os' == Overlaid(os, r) && active' == active[r.end - 1 := r]
  }

  /** One round of the loop where its sums do not wrap. */
  lemma LoopRound(g: Range, step: nat, i: nat)
    requires step > 0 && NoWrap(g, step) && InLoop(g, step, i) && i < TWO_64
    ensures U64(i + step) == i + step
    ensures i + step < g.end ==> InGap(g, step, i) && InLoop(g, step, i + step)
    ensures i + step < g.end ==> Candidates(i, step, g.end) == [i] + Candidates(i + step, step, g.end)
    ensures i + step >= g.end ==> Candidates(i, step, g.end) == []
  {
    InRange(i + step);
    AddModulus(i - g.start, step);
  }

  lemma LoopEntry(g: Range, step: nat)
    requires step > 0
    ensures InLoop(g, step, g.start) && LoopAddress(g, step, 0) == g.start
  {
  }

  /** Passing the test is a round that one with a larger number than it will end. */
  lemma NextRound(g: Range, step: nat, n: nat, rounds: nat)
    requires !Reaches(g, step, rounds) && n <= rounds && (n > 0 ==> Reaches(g, step, n - 1))
    requires U64(LoopAddress(g, step, n) + step) < g.end
    ensures n < rounds && Reaches(g, step, n)
  {
  }

  lemma NextAddressIs(g: Range, step: nat, n: nat)
    ensures LoopAddress(g, step, n + 1) == U64(LoopAddress(g, step, n) + step)
  {
  }

  lemma FirstAttempt(g: nat, i: nat, rest: seq<nat>)
    ensures Attempts(g, [i] + rest) == [Attempt(g, i)] + Attempts(g, rest)
  {
    assert ([i] + rest)[1..] == rest;
  }

  lemma NoAttempt(g: nat)
    ensures Attempts(g, []) == []
  {
  }

  /** Once all gaps are through, every place a whole number of steps behind the start of a gap has been
      asked for, as long as a byte is left behind it. */
  lemma AllPlacesTried(gaps: seq<Range>, step: nat, n: nat, g: nat, k: nat)
    requires step > 0 && g < n <= |gaps| && gaps[g].start + k * step + step < gaps[g].end
    ensures Attempt(g, gaps[g].start + k * step) in AllAttempts(gaps, step, n)
  {
    if g < n - 1 {
      AllPlacesTried(gaps, step, n - 1, g, k);
    } else {
      PlaceIsCandidate(gaps[g].start, step, gaps[g].end, k);
      CandidateIsTried(g, Candidates(gaps[g].start, step, gaps[g].end), gaps[g].start + k * step);
    }
  }

  lemma {:induction false} PlaceIsCandidate(i: nat, step: nat, end: nat, k: nat)
    requires step > 0 && i + k * step + step < end
    ensures i + k * step in Candidates(i, step, end)
    decreases k
  {
    MulMono(0, k, step);
    if k > 0 {
      assert k * step == (k - 1) * step + step;
      PlaceIsCandidate(i + step, step, end, k - 1);
    }
  }

  lemma {:induction false} CandidateIsTried(g: nat, addrs: seq<nat>, addr: nat)
    requires addr in addrs
    ensures Attempt(g, addr) in Attempts(g, addrs)
  {
    if addrs[0] != addr {
      CandidateIsTried(g, addrs[1..], addr);
    }
  }

  // ----- a search for a mapping -----

  /** Between two mappings, the pages from the first one that starts behind the end of the first mapping
      up to the start of the second are a gap the search tries, if they lie behind the target and have room. */
  lemma RoomIsListed(page: nat, maps: seq<Range>, i: nat, target: nat, size: nat, from: nat, to: nat)
    requires PageSize(page) && i + 1 < |maps| && 0 < size < TWO_63 && Proper(maps[i]) && Proper(maps[i + 1])
    requires from % page == 0 && from - page <= maps[i].end < from
    requires to % page == 0 && to <= maps[i + 1].start < to + page
    requires target < from && from + size <= to < from + 0x8000_0000_0000_0000
    ensures Range(from, to) in SuitableGaps(page, maps, |maps|, target, size)
  {
    hide S64, U64, RoundPageDown, RoundPageUp, SuitableGaps, Suitable;
    GapIs(page, maps, i, from, to);
    BoundedGapSuitableIff(page, maps, i, target, size);
    IsListed(page, maps, |maps|, i, target, size);
  }

  lemma GapIs(page: nat, maps: seq<Range>, i: nat, from: nat, to: nat)
    requires PageSize(page) && i + 1 < |maps| && Proper(maps[i]) && Proper(maps[i + 1])
    requires from % page == 0 && from - page <= maps[i].end < from < TWO_64
    requires to % page == 0 && to <= maps[i + 1].start < to + page
    ensures GapAfter(page, maps, i) == Range(from, to)
  {
    hide S64, U64, RoundPageDown, RoundPageUp;
    var p, q := maps[i].end, maps[i + 1].start;
    RoundsToPages(page, p);
    RoundsToPages(page, q);
    ModMultiple(1, page);
    MultipleSum(RoundPageDown(page, p), page, page);
    SamePage(page, from, RoundPageDown(page, p) + page);
    SamePage(page, to, RoundPageDown(page, q));
  }

  lemma SamePage(page: nat, x: nat, y: nat)
    requires page >= 1 && x % page == 0 && y % page == 0 && x < y + page && y < x + page
    ensures x == y
  {
    if x < y {
      NextMultiple(x, y, page);
    } else if y < x {
      NextMultiple(y, x, page);
    }
  }

  lemma {:induction false} IsListed(page: nat, maps: seq<Range>, n: nat, i: nat, target: nat, size: nat)
    requires page > 0 && i < n <= |maps| && Suitable(GapAfter(page, maps, i), target, size)
    ensures GapAfter(page, maps, i) in SuitableGaps(page, maps, n, target, size)
  {
    hide Suitable, GapAfter;
    if i < n - 1 {
      IsListed(page, maps, n - 1, i, target, size);
    }
  }

  lemma {:induction false} SuitableIs(page: nat, maps: seq<Range>, n: nat, target: nat, size: nat, k: nat)
    returns (j: nat)
    requires page > 0 && n <= |maps| && k < |SuitableGaps(page, maps, n, target, size)|
    ensures j < n && SuitableGaps(page, maps, n, target, size)[k] == GapAfter(page, maps, j)
    ensures Suitable(GapAfter(page, maps, j), target, size)
  {
    hide GapAfter, Suitable;
    var before := SuitableGaps(page, maps, n - 1, target, size);
    if k < |before| {
      j := SuitableIs(page, maps, n - 1, target, size, k);
    } else {
      j := n - 1;
    }
  }

  /** The current mappings, sorted: what the search starts from. */
  ghost predicate Lists(maps: seq<Range>, os: set<Range>) {
    |maps| > 0 && Sorted(maps) && forall r :: r in maps <==> r in os
  }

  /** What every request is promised to be: on pages, behind the target, clear of all mappings. */
  ghost predicate Harmless(page: nat, target: nat, os: set<Range>, r: Range)
    requires page > 0
  {
    r.start % page == 0 && r.start > target && Proper(r) && Free(os, r)
  }

  /** Every request inside a gap is harmless, in the open-ended gap too. */
  lemma RequestIsHarmless(page: nat, target: nat, step: nat, maps: seq<Range>, os: set<Range>, g: nat, addr: nat)
    requires PageSize(page) && 0 < step < TWO_63 && addr % page == 0
    requires Lists(maps, os) && AllApart(os)
    requires g < |SuitableGaps(page, maps, |maps|, target, step)|
    requires Inside(SuitableGaps(page, maps, |maps|, target, step)[g], step, addr)
    ensures Harmless(page, target, os, Range(addr, addr + step))
  {
    hide SuitableGaps, AllApart, Sorted, S64, RoundPageUp, RoundPageDown;
    var gap := SuitableGaps(page, maps, |maps|, target, step)[g];
    var j := SuitableIs(page, maps, |maps|, target, step, g);
    assert (set m | m in maps) == os;
    InOrder(maps, j, j);
    RoundsToPages(page, maps[j].end);
    var r := Range(addr, addr + step);
    if j + 1 == |maps| {
      forall x | x in os ensures Apart(x, r) {
        var k :| 0 <= k < |maps| && maps[k] == x;
        InOrder(maps, k, j);
      }
    } else {
      InOrder(maps, j + 1, j + 1);
      RoundsToPages(page, maps[j + 1].start);
      forall x | x in os ensures Apart(x, r) {
        var k :| 0 <= k < |maps| && maps[k] == x;
        GapIsFree(page, maps, j, target, step, r, k);
      }
    }
  }

  lemma GapsAreAddresses(page: nat, maps: seq<Range>, os: set<Range>, target: nat, step: nat)
    requires PageSize(page) && Lists(maps, os) && AllApart(os)
    ensures forall g :: g in SuitableGaps(page, maps, |maps|, target, step) ==>
      g.start < TWO_64 && g.end < TWO_64 && g.start % page == 0
  {
    hide SuitableGaps, RoundPageDown, RoundPageUp, U64;
    var gaps := SuitableGaps(page, maps, |maps|, target, step);
    forall g | g in gaps ensures g.start < TWO_64 && g.end < TWO_64 && g.start % page == 0 {
      var k :| 0 <= k < |gaps| && gaps[k] == g;
      var j := SuitableIs(page, maps, |maps|, target, step, k);
      assert maps[j] in maps;
      RoundsToPages(page, maps[j].end);
      if j + 1 < |maps| {
        assert maps[j + 1] in maps;
        RoundsToPages(page, maps[j + 1].start);
      }
    }
  }

  lemma NoAttempts(gaps: seq<Range>, step: nat)
    requires step > 0
    ensures AllAttempts(gaps, step, 0) == []
  {
  }

  lemma AllAttemptsStep(gaps: seq<Range>, step: nat, g: nat)
    requires step > 0 && g < |gaps|
    ensures AllAttempts(gaps, step, g + 1)
         == AllAttempts(gaps, step, g) + Attempts(g, Candidates(gaps[g].start, step, gaps[g].end))
  {
  }

  lemma MoreHarmless(page: nat, target: nat, step: nat, maps: seq<Range>, os: set<Range>,
                     before: seq<Attempt>, attempts: seq<Attempt>, g: nat)
    requires PageSize(page) && 0 < step < TWO_63 && step % page == 0 && Lists(maps, os) && AllApart(os)
    requires AllHarmless(page, target, step, maps, os, before) && before <= attempts
    requires var gaps := SuitableGaps(page, maps, |maps|, target, step);
             && g < |gaps|
             && (forall k :: |before| <= k < |attempts| ==>
                   attempts[k].gap == g && attempts[k].addr == LoopAddress(gaps[g], step, k - |before|))
             && (NoWrap(gaps[g], step) ==>
                   forall k :: |before| <= k < |attempts| ==> InGap(gaps[g], step, attempts[k].addr))
    ensures AllHarmless(page, target, step, maps, os, attempts)
  {
    hide SuitableGaps, NoWrap, Harmless, AllApart, Lists, LoopAddress;
    var gaps := SuitableGaps(page, maps, |maps|, target, step);
    GapsAreAddresses(page, maps, os, target, step);
    forall k | 0 <= k < |attempts| ensures HarmlessAttempt(page, target, step, gaps, os, attempts[k]) {
      if k < |before| {
        assert HarmlessAttempt(page, target, step, gaps, os, before[k]);
      } else {
        LoopPages(page, gaps[g], step, k - |before|);
        if Inside(gaps[g], step, attempts[k].addr) {
          RequestIsHarmless(page, target, step, maps, os, g, attempts[k].addr);
        }
      }
    }
  }

  /** A harmless request that was granted adds one range and loses none. */
  lemma GrantedIs(page: nat, target: nat, step: nat, maps: seq<Range>, os: set<Range>, active: map<nat, Range>,
                  attempts: seq<Attempt>, elsewhere: nat, r: Range, os': set<Range>, active': map<nat, Range>)
    requires PageSize(page) && 0 < step && attempts != [] && ValidState(os, active)
    requires AllHarmless(page, target, step, maps, os, attempts)
    requires Granted(os, active, attempts[|attempts| - 1].addr, step, elsewhere, r, os', active')
    ensures LastInside(SuitableGaps(page, maps, |maps|, target, step), step, attempts) ==>
      && r == LastRequest(step, attempts) && os' == os + {r} && r !in os && r.end - 1 !in active
      && active' == active[r.end - 1 := r] && Registered(active', Slice(r.start, step, step))
      && ValidState(os', active')
  {
    hide SuitableGaps, NoWrap, Inside;
    var gaps := SuitableGaps(page, maps, |maps|, target, step);
    var last := attempts[|attempts| - 1];
    assert HarmlessAttempt(page, target, step, gaps, os, last);
    if Inside(gaps[last.gap], step, last.addr) {
      assert Overlaid(os, r) == os + {r};
    }
  }

  /** What was acquired inside a gap: on pages, clear of all that was mapped before, which is
      all still there; and every byte of it within 4 GiB behind the target. */
  lemma AcquiredIsSafe(page: nat, target: nat, step: nat, maps: seq<Range>, os: set<Range>, active: map<nat, Range>,
                       r: Result, attempts: seq<Attempt>, os': set<Range>, active': map<nat, Range>)
    requires PageSize(page) && 0 < step && ValidState(os, active) && r.Acquired?
    requires AllHarmless(page, target, step, maps, os, attempts)
    requires var gaps := SuitableGaps(page, maps, |maps|, target, step);
             && Outcome(target, step, gaps, os, active, r, attempts, os', active')
             && LastInside(gaps, step, attempts)
    ensures r.range.start % page == 0 && Free(os, r.range) && os <= os' && r.range in os'
    ensures target < r.range.start && r.range.end - 1 <= target + TWO_32
    ensures ValidState(os', active')
  {
    hide SuitableGaps, NoWrap, Inside;
    var gaps := SuitableGaps(page, maps, |maps|, target, step);
    var last := attempts[|attempts| - 1];
    assert HarmlessAttempt(page, target, step, gaps, os, last);
    InRange(r.range.end - 1 - target);
  }

  /** A search that was granted nothing, or a place inside a gap, keeps the record. */
  lemma AcquireKeeps(page: nat, target: nat, step: nat, maps: seq<Range>, os: set<Range>, active: map<nat, Range>,
                     r: Result, attempts: seq<Attempt>, os': set<Range>, active': map<nat, Range>)
    requires PageSize(page) && 0 < step && ValidState(os, active)
    requires GrantedInside(page, target, step, maps, r, attempts)
    requires AllHarmless(page, target, step, maps, os, attempts)
    requires var gaps := SuitableGaps(page, maps, |maps|, target, step);
             Outcome(target, step, gaps, os, active, r, attempts, os', active')
    ensures ValidState(os', active')
    ensures forall k :: k in active ==> k in active' && active'[k] == active[k]
  {
    hide SuitableGaps, NoWrap, Inside, AllAttempts;
    var gaps := SuitableGaps(page, maps, |maps|, target, step);
    if r.Acquired? || r.TooFar? {
      assert HarmlessAttempt(page, target, step, gaps, os, attempts[|attempts| - 1]);
    }
  }

  // ----- when a search ends -----

  /** A search under way: the gap, the round of its loop, and how many requests were refused; or its end. */
  datatype Search = Looking(gap: nat, round: nat, asked: nat) | Over

  /** One test of a loop condition, with the request it leads to. */
  ghost function Next(gaps: seq<Range>, step: nat, refused: nat -> bool, s: Search): Search {
    if s.Over? || s.gap >= |gaps| then Over
    else if U64(LoopAddress(gaps[s.gap], step, s.round) + step) >= gaps[s.gap].end then Looking(s.gap + 1, 0, s.asked)
    else if !refused(s.asked) then Over
    else Looking(s.gap, s.round + 1, s.asked + 1)
  }

  ghost function After(gaps: seq<Range>, step: nat, refused: nat -> bool, n: nat): Search {
    if n == 0 then Looking(0, 0, 0) else Next(gaps, step, refused, After(gaps, step, refused, n - 1))
  }

  ghost predicate SearchEnds(gaps: seq<Range>, step: nat, refused: nat -> bool) {
    exists n: nat :: After(gaps, step, refused, n).Over?
  }

  /** The search ends if and only if some request would be granted or the loop over every gap ends. */
  lemma SearchEndsIff(gaps: seq<Range>, step: nat, refused: nat -> bool)
    ensures SearchEnds(gaps, step, refused) <==> AllEnd(gaps, step) || GrantsFrom(refused, 0)
  {
    hide Ends;
    if granted: nat :| !refused(granted) {
      EndsWhenGranted(gaps, step, refused, 0, granted);
    } else if AllEnd(gaps, step) {
      EndsAlone(gaps, step, refused, 0, 0);
    } else {
      var g :| g in gaps && !Ends(g, step);
      var k: nat :| k < |gaps| && gaps[k] == g;
      forall n: nat ensures !After(gaps, step, refused, n).Over? {
        NeverPast(gaps, step, refused, k, n);
      }
    }
  }

  lemma {:induction false} EndsWhenGranted(gaps: seq<Range>, step: nat, refused: nat -> bool, n: nat, granted: nat)
    requires !refused(granted)
    requires var s := After(gaps, step, refused, n); s.Looking? ==> s.asked <= granted && s.gap <= |gaps|
    ensures SearchEnds(gaps, step, refused)
    decreases var s := After(gaps, step, refused, n); if s.Looking? then granted - s.asked else 0,
              var s := After(gaps, step, refused, n); if s.Looking? then |gaps| - s.gap else 0
  {
    hide LoopAddress, U64;
    var s, t := After(gaps, step, refused, n), After(gaps, step, refused, n + 1);
    assert t == Next(gaps, step, refused, s);
    if t.Looking? {
      EndsWhenGranted(gaps, step, refused, n + 1, granted);
    }
  }

  lemma {:induction false} EndsAlone(gaps: seq<Range>, step: nat, refused: nat -> bool, n: nat, g: nat)
    requires AllEnd(gaps, step) && g <= |gaps|
    requires var s := After(gaps, step, refused, n); s.Looking? ==> s.gap == g && s.round == 0
    ensures SearchEnds(gaps, step, refused)
    decreases |gaps| - g
  {
    hide LoopAddress, U64, Reaches;
    if g == |gaps| {
      assert After(gaps, step, refused, n + 1).Over?;
    } else {
      assert gaps[g] in gaps;
      var rounds: nat :| !Reaches(gaps[g], step, rounds);
      var m := LeavesGap(gaps, step, refused, n, g, rounds);
      EndsAlone(gaps, step, refused, m, g + 1);
    }
  }

  lemma {:induction false} LeavesGap(gaps: seq<Range>, step: nat, refused: nat -> bool, n: nat, g: nat, rounds: nat)
    returns (m: nat)
    requires g < |gaps| && !Reaches(gaps[g], step, rounds)
    requires var s := After(gaps, step, refused, n);
             s.Looking? ==> s.gap == g && s.round <= rounds && (s.round > 0 ==> Reaches(gaps[g], step, s.round - 1))
    ensures var s := After(gaps, step, refused, m); s.Looking? ==> s.gap == g + 1 && s.round == 0
    decreases var s := After(gaps, step, refused, n); if s.Looking? then rounds - s.round else 0
  {
    hide LoopAddress, U64, Reaches;
    var s, t := After(gaps, step, refused, n), After(gaps, step, refused, n + 1);
    assert t == Next(gaps, step, refused, s);
    if t.Looking? && t.gap == g {
      NextRound(gaps[g], step, s.round, rounds);
      m := LeavesGap(gaps, step, refused, n + 1, g, rounds);
    } else {
      m := n + 1;
    }
  }

  /** Refused everything, the search does not get past a gap whose loop does not end. */
  lemma {:induction false} NeverPast(gaps: seq<Range>, step: nat, refused: nat -> bool, k: nat, n: nat)
    requires k < |gaps| && !Ends(gaps[k], step) && forall i: nat :: refused(i)
    ensures var s := After(gaps, step, refused, n); s.Looking? && s.gap <= k
  {
    hide LoopAddress, U64;
    if n > 0 {
      NeverPast(gaps, step, refused, k, n - 1);
      var s := After(gaps, step, refused, n - 1);
      assert Reaches(gaps[k], step, s.round);
    }
  }

  // ----- runs -----

  /** What happens to the address space, one lock at a time: the program acquires a mapping or gives one
      back, or other code maps and unmaps around the active mappings. */
  datatype Event =
    | Acquire(target: nat, size: nat, maps: seq<Range>, result: Result, attempts: seq<Attempt>)
    | Unmap(data: Slice, ok: bool)
    | Elsewhere

  datatype Space = Space(os: set<Range>, active: map<nat, Range>)

  /** The steps are what `AcquireMapping` and `Munmap` promise. */
  ghost predicate Step(page: nat, s: Space, e: Event, t: Space)
    requires PageSize(page)
  {
    match e
    case Acquire(target, size, maps, result, attempts) =>
      && size + page < TWO_63 && Lists(maps, s.os)
      && var step := StepFor(page, size);
      && AllHarmless(page, target, step, maps, s.os, attempts)
      && var gaps := SuitableGaps(page, maps, |maps|, target, step);
      Outcome(target, step, gaps, s.os, s.active, result, attempts, t.os, t.active)
    case Unmap(data, ok) =>
      && (ok ==>
            && Registered(s.active, data)
            && var p := data.base + data.len - 1; t == Space(s.os - {s.active[p]}, s.active - {p}))
      && (!ok ==> t == s)
    case Elsewhere =>
      t.active == s.active && AllApart(t.os) && s.active.Values <= t.os
  }

  ghost predicate Run(page: nat, states: seq<Space>, events: seq<Event>)
    requires PageSize(page)
  {
    |states| == |events| + 1 && forall i :: 0 <= i < |events| ==> Step(page, states[i], events[i], states[i + 1])
  }

  /** A step that was granted a mapping was granted a place inside a gap.  In a gap without wrap there is no
      other (`HarmlessAttempt`). */
  predicate InsideStep(page: nat, e: Event)
    requires PageSize(page)
  {
    e.Acquire? ==>
      && e.size + page < TWO_63
      && GrantedInside(page, e.target, StepFor(page, e.size), e.maps, e.result, e.attempts)
  }

  /** Every request the step made in a gap without wrap, and the one it was granted, was on pages, behind
      its target, and clear of all that was mapped. */
  ghost predicate HarmlessStep(page: nat, os: set<Range>, e: Event)
    requires PageSize(page)
  {
    e.Acquire? ==> e.size + page < TWO_63 && forall k :: 0 <= k < |e.attempts| ==>
      HarmlessRequest(page, os, e, k)
  }

  ghost predicate HarmlessRequest(page: nat, os: set<Range>, e: Event, k: nat)
    requires PageSize(page) && e.Acquire? && e.size + page < TWO_63 && k < |e.attempts|
  {
    var step := StepFor(page, e.size);
    var gaps := SuitableGaps(page, e.maps, |e.maps|, e.target, step);
    var granted := k == |e.attempts| - 1 && (e.result.Acquired? || e.result.TooFar?);
    && e.attempts[k].gap < |gaps|
    && (granted || NoWrap(gaps[e.attempts[k].gap], step) ==>
          Harmless(page, e.target, os, Range(e.attempts[k].addr, e.attempts[k].addr + step)))
  }

  /** Only giving a mapping back takes it off the record. */
  predicate LeavesOthers(s: Space, e: Event, t: Space) {
    forall k :: k in s.active && !(k in t.active && t.active[k] == s.active[k]) ==>
      e.Unmap? && e.ok && k == e.data.base + e.data.len - 1
  }

  lemma StepIsSafe(page: nat, s: Space, e: Event, t: Space)
    requires PageSize(page) && ValidState(s.os, s.active) && Step(page, s, e, t) && InsideStep(page, e)
    ensures ValidState(t.os, t.active) && HarmlessStep(page, s.os, e) && LeavesOthers(s, e, t)
  {
    hide SuitableGaps, NoWrap, Inside, Outcome, Harmless, RoundPageDown, RoundPageUp;
    match e
    case Acquire(target, size, maps, result, attempts) =>
      var step := StepFor(page, size);
      AcquireKeeps(page, target, step, maps, s.os, s.active, result, attempts, t.os, t.active);
      var gaps := SuitableGaps(page, maps, |maps|, target, step);
      forall k | 0 <= k < |attempts| ensures HarmlessRequest(page, s.os, e, k) {
        assert HarmlessAttempt(page, target, step, gaps, s.os, attempts[k]);
      }
    case Unmap(data, ok) =>
      UnmapKeeps(s, e, t);
    case Elsewhere =>
      assert forall k :: k in s.active ==> s.active[k] in s.active.Values;
  }

  lemma UnmapKeeps(s: Space, e: Event, t: Space)
    requires ValidState(s.os, s.active) && e.Unmap?
    requires e.ok ==>
      && Registered(s.active, e.data)
      && t == Space(s.os - {s.active[e.data.base + e.data.len - 1]}, s.active - {e.data.base + e.data.len - 1})
    requires !e.ok ==> t == s
    ensures ValidState(t.os, t.active) && LeavesOthers(s, e, t)
  {
  }

  /** Through every run of acquisitions and releases, with other code mapping in between, whose grants are
      inside gaps: all ranges stay apart and every active mapping stays mapped, requests are harmless, and
      no mapping is lost except by its own release. */
  lemma {:induction false} RunIsSafe(page: nat, states: seq<Space>, events: seq<Event>)
    requires PageSize(page) && Run(page, states, events) && ValidState(states[0].os, states[0].active)
    requires forall e :: e in events ==> InsideStep(page, e)
    ensures forall i :: 0 <= i < |states| ==> ValidState(states[i].os, states[i].active)
    ensures forall i :: 0 <= i < |events| ==>
      HarmlessStep(page, states[i].os, events[i]) && LeavesOthers(states[i], events[i], states[i + 1])
  {
    hide Step, ValidState, HarmlessStep, LeavesOthers, InsideStep;
    var n := |events|;
    if n > 0 {
      assert events[n - 1] in events;
      assert forall i :: 0 <= i < n - 1 ==> Step(page, states[i], events[..n - 1][i], states[i + 1]);
      RunIsSafe(page, states[..n], events[..n - 1]);
      assert forall i :: 0 <= i < n ==> states[..n][i] == states[i];
      StepIsSafe(page, states[n - 1], events[n - 1], states[n]);
    }
  }

  /** With all mappings in the lower half of the address space no sum wraps and every loop ends, so all of
      the above holds. */
  lemma LowerHalfNeverWraps(page: nat, maps: seq<Range>, os: set<Range>, target: nat, step: nat, k: nat)
    requires PageSize(page) && Lists(maps, os) && AllApart(os) && 0 < step < TWO_63
    requires forall m :: m in os ==> m.end + page <= TWO_63 - 1
    requires k < |SuitableGaps(page, maps, |maps|, target, step)|
    ensures var g := SuitableGaps(page, maps, |maps|, target, step)[k]; NoWrap(g, step) && Ends(g, step)
  {
    hide Ends, SuitableGaps, Suitable, RoundPageDown, RoundPageUp, U64, Sorted, AllApart;
    var j := SuitableIs(page, maps, |maps|, target, step, k);
    assert (set m | m in maps) == os;
    InOrder(maps, j, j);
    assert maps[j] in os;
    RoundsToPages(page, maps[j].end);
    if j + 1 == |maps| {
      LastGapSuitableIff(page, maps, target, step);
    } else {
      InOrder(maps, j, j + 1);
      RoundsToPages(page, maps[j + 1].start);
      BoundedGapSuitableIff(page, maps, j, target, step);
      BoundedBelowTheTop(GapAfter(page, maps, j), step);
      UnwrappedEnds(GapAfter(page, maps, j), step);
    }
  }

  /** A mapping in the upper half behind all others, as the last one on Linux/amd64, makes the open-ended
      gap suitable, and only that one has no end.  All other gaps the search tries are as in the lower half. */
  lemma UpperMappingOpensGap(page: nat, maps: seq<Range>, os: set<Range>, target: nat, step: nat, k: nat)
    requires PageSize(page) && Lists(maps, os) && AllApart(os) && 0 < step < TWO_63 && step % page == 0
    requires forall m :: m in maps[..|maps| - 1] ==> m.end + page <= TWO_31 * 0x1_0000
    requires maps[|maps| - 1].start >= TWO_63 + TWO_31 * 0x1_0000 + page
    requires k < |SuitableGaps(page, maps, |maps|, target, step)|
    ensures var g := SuitableGaps(page, maps, |maps|, target, step)[k];
            if g == GapAfter(page, maps, |maps| - 1) then !Ends(g, step) && !NoWrap(g, step)
            else Ends(g, step) && NoWrap(g, step)
  {
    hide Ends, SuitableGaps, Suitable, RoundPageDown, RoundPageUp, U64, Sorted, AllApart, NoWrap;
    var j := SuitableIs(page, maps, |maps|, target, step, k);
    assert (set m | m in maps) == os;
    InOrder(maps, j, j);
    RoundsToPages(page, maps[j].end);
    if j + 1 == |maps| {
      OpenGapNeverEnds(page, GapAfter(page, maps, j), step);
      LastGapWraps(page, GapAfter(page, maps, j), step);
    } else {
      assert maps[j] in maps[..|maps| - 1];
      InOrder(maps, j, j + 1);
      RoundsToPages(page, maps[j + 1].start);
      BoundedGapSuitableIff(page, maps, j, target, step);
      if j + 1 < |maps| - 1 {
        assert maps[j + 1] in maps[..|maps| - 1];
        BoundedBelowTheTop(GapAfter(page, maps, j), step);
        UnwrappedEnds(GapAfter(page, maps, j), step);
      }
    }
  }

  /** The page that ends the list of mappings on Linux/amd64. */
  const VSYSCALL := Range(0xFFFF_FFFF_FF60_0000, 0xFFFF_FFFF_FF60_1000)

  /** There the search for up to 9 MiB ends if and only if some request would be granted. */
  lemma LinuxSearchEndsIff(maps: seq<Range>, target: nat, size: nat, refused: nat -> bool)
    requires |maps| > 0 && maps[|maps| - 1] == VSYSCALL && target < TWO_63 && size + 0x1000 <= 0x90_0000
    ensures var step := StepFor(0x1000, size);
            SearchEnds(SuitableGaps(0x1000, maps, |maps|, target, step), step, refused) <==> GrantsFrom(refused, 0)
  {
    hide Ends, SearchEnds, GrantsFrom, SuitableGaps, S64, U64;
    var step := StepFor(0x1000, size);
    RoundsToPages(0x1000, size);
    RoundsToPages(0x1000, VSYSCALL.end);
    var gaps := SuitableGaps(0x1000, maps, |maps|, target, step);
    var g := GapAfter(0x1000, maps, |maps| - 1);
    LastGapSuitableIff(0x1000, maps, target, step);
    IsListed(0x1000, maps, |maps|, |maps| - 1, target, step);
    OpenGapNeverEnds(0x1000, g, step);
    SearchEndsIff(gaps, step, refused);
  }
}
