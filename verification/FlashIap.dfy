/** Erasing and programming flash with sectors of different sizes (mbed-os/drivers/FlashIAP.cpp). */
module FlashIap {
  import opened Arithmetic

  /** What flash_get_sector_size returns for an unmapped address. */
  const INVALID_SIZE: nat := 0xFFFF_FFFF

  /** The sectors of a chip, one after the other from `start`. */
  datatype Layout = Layout(start: nat, sizes: seq<nat>)

  function SectorStart(l: Layout, i: nat): nat
    requires i <= |l.sizes|
  {
    if i == 0 then l.start else SectorStart(l, i - 1) + l.sizes[i - 1]
  }

  ghost predicate ValidLayout(l: Layout) {
    && (forall i :: 0 <= i < |l.sizes| ==> l.sizes[i] > 0)
    && SectorStart(l, |l.sizes|) < U32
  }

  function Size(l: Layout, i: nat): nat
    requires i < |l.sizes|
  {
    if l.sizes[i] == 0 then 1 else l.sizes[i]
  }

  /** Sectors start at multiples of their own size. */
  ghost predicate NaturallyAligned(l: Layout) {
    forall i :: 0 <= i < |l.sizes| ==> SectorStart(l, i) % Size(l, i) == 0
  }

  /** The sector an address lies in, or the number of sectors when it lies in none. */
  function SectorAt(l: Layout, addr: nat, from: nat): (i: nat)
    requires from <= |l.sizes|
    ensures from <= i <= |l.sizes|
    ensures i < |l.sizes| ==> SectorStart(l, i) <= addr < SectorStart(l, i) + l.sizes[i]
    decreases |l.sizes| - from
  {
    if from == |l.sizes| then from
    else if SectorStart(l, from) <= addr < SectorStart(l, from) + l.sizes[from] then from
    else SectorAt(l, addr, from + 1)
  }

  predicate Mapped(l: Layout, addr: nat) {
    SectorAt(l, addr, 0) < |l.sizes|
  }

  /** flash_get_sector_size. */
  function SectorSize(l: Layout, addr: nat): (z: nat)
    ensures z > 0
  {
    var i := SectorAt(l, addr, 0);
    if i < |l.sizes| then Size(l, i) else INVALID_SIZE
  }

  /** is_aligned_to_sector. */
  predicate IsAligned(l: Layout, addr: nat, size: nat) {
    size % SectorSize(l, addr) == 0 && addr % SectorSize(l, addr) == 0
  }

  /** The test of program, in 32-bit arithmetic. */
  predicate ProgramAccepts(l: Layout, pageSize: nat, addr: nat, size: nat)
    requires pageSize > 0
  {
    && addr % pageSize == 0 && size % pageSize == 0 && size >= pageSize
    && Low32(addr % SectorSize(l, addr) + size) <= SectorSize(l, addr)
  }

  lemma MultipleIsLarger(size: nat, z: nat)
    requires size > 0 && z > 0 && size % z == 0
    ensures z <= size && (size - z) % z == 0
  {
    var q := size / z;
    assert size == q * z;
    assert q >= 1;
    assert (q - 1) * z == q * z - z;
    ModOfMultiple(q - 1, z);
  }

  /** The loop of erase: the sectors erased and the value returned. The flash controller works
      `budget` times and then fails; it always fails on an unmapped address. */
  function EraseLoop(l: Layout, addr: nat, size: nat, budget: nat): (seq<nat>, int)
    decreases size
  {
    if size == 0 then ([], 0)
    else if budget == 0 || !Mapped(l, addr) then ([], -1)
    else
      var i := SectorAt(l, addr, 0);
      if !IsAligned(l, addr, size) then ([i], -1)
      else
        MultipleIsLarger(size, SectorSize(l, addr));
        var (rest, ret) := EraseLoop(l, addr + SectorSize(l, addr), size - SectorSize(l, addr), budget - 1);
        ([i] + rest, ret)
  }

  function Erase(l: Layout, addr: nat, size: nat, budget: nat): (seq<nat>, int) {
    if !IsAligned(l, addr, size) then ([], -1) else EraseLoop(l, addr, size, budget)
  }

  // ---------------------------------------------------------------- the loop

  lemma LoopOnce(l: Layout, addr: nat, size: nat, m: nat)
    requires size > 0 && m > 0 && Mapped(l, addr) && IsAligned(l, addr, size)
    ensures SectorSize(l, addr) <= size
    ensures var (rest, r) := EraseLoop(l, addr + SectorSize(l, addr), size - SectorSize(l, addr), m - 1);
            EraseLoop(l, addr, size, m) == ([SectorAt(l, addr, 0)] + rest, r)
  {
    MultipleIsLarger(size, SectorSize(l, addr));
  }

  /** The ways the loop can end at once. */
  lemma LoopStops(l: Layout, addr: nat, size: nat, budget: nat)
    ensures size == 0 ==> EraseLoop(l, addr, size, budget) == ([], 0)
    ensures size > 0 && (budget == 0 || !Mapped(l, addr)) ==> EraseLoop(l, addr, size, budget) == ([], -1)
    ensures size > 0 && budget > 0 && Mapped(l, addr) && !IsAligned(l, addr, size)
            ==> EraseLoop(l, addr, size, budget) == ([SectorAt(l, addr, 0)], -1)
  {
  }

  /** After erasing `done`, what remains of the loop is the loop from (addr, size). */
  ghost predicate Resumes(l: Layout, addr0: nat, size0: nat, done: seq<nat>, addr: nat, size: nat) {
    forall m: nat {:trigger EraseLoop(l, addr, size, m)} ::
      var (rest, r) := EraseLoop(l, addr, size, m);
      EraseLoop(l, addr0, size0, |done| + m) == (done + rest, r)
  }

  lemma ResumesAtStart(l: Layout, addr0: nat, size0: nat)
    ensures Resumes(l, addr0, size0, [], addr0, size0)
  {
    forall m: nat {:trigger EraseLoop(l, addr0, size0, m)}
      ensures var (rest, r) := EraseLoop(l, addr0, size0, m);
              EraseLoop(l, addr0, size0, 0 + m) == ([] + rest, r)
    {
      var (rest, r) := EraseLoop(l, addr0, size0, m);
      assert [] + rest == rest;
    }
  }

  /** However much longer the controller works, the loop ends like this. */
  ghost predicate EndsAs(l: Layout, addr: nat, size: nat, budget: nat, sectors: seq<nat>, ret: int) {
    forall b: nat {:trigger EraseLoop(l, addr, size, b)} ::
      b >= budget ==> EraseLoop(l, addr, size, b) == (sectors, ret)
  }

  lemma ResumesFailed(l: Layout, addr0: nat, size0: nat, done: seq<nat>, addr: nat, size: nat)
    requires Resumes(l, addr0, size0, done, addr, size) && size > 0
    ensures EraseLoop(l, addr0, size0, |done|) == (done, -1)
  {
    assert EraseLoop(l, addr, size, 0) == ([], -1);
    assert done + [] == done;
  }

  lemma ResumesMisfit(l: Layout, addr0: nat, size0: nat, done: seq<nat>, addr: nat, size: nat)
    requires Resumes(l, addr0, size0, done, addr, size) && size > 0
    requires Mapped(l, addr) && !IsAligned(l, addr, size)
    ensures EndsAs(l, addr0, size0, |done| + 1, done + [SectorAt(l, addr, 0)], -1)
  {
    hide SectorAt, IsAligned, EraseLoop;
    forall b: nat {:trigger EraseLoop(l, addr0, size0, b)} | b > |done|
      ensures EraseLoop(l, addr0, size0, b) == (done + [SectorAt(l, addr, 0)], -1)
    {
      LoopStops(l, addr, size, b - |done|);
      assert EraseLoop(l, addr, size, b - |done|) == ([SectorAt(l, addr, 0)], -1);
      assert |done| + (b - |done|) == b;
    }
  }

  lemma ResumesDone(l: Layout, addr0: nat, size0: nat, done: seq<nat>, addr: nat)
    requires Resumes(l, addr0, size0, done, addr, 0)
    ensures EndsAs(l, addr0, size0, |done|, done, 0)
  {
    hide SectorAt, IsAligned, EraseLoop;
    forall b: nat {:trigger EraseLoop(l, addr0, size0, b)} | b >= |done|
      ensures EraseLoop(l, addr0, size0, b) == (done, 0)
    {
      LoopStops(l, addr, 0, b - |done|);
      assert EraseLoop(l, addr, 0, b - |done|) == ([], 0);
      assert done + [] == done;
      assert |done| + (b - |done|) == b;
    }
  }

  lemma ResumesStep(l: Layout, addr0: nat, size0: nat, done: seq<nat>, addr: nat, size: nat)
    requires Resumes(l, addr0, size0, done, addr, size) && size > 0
    requires Mapped(l, addr) && IsAligned(l, addr, size)
    ensures SectorSize(l, addr) <= size
    ensures Resumes(l, addr0, size0, done + [SectorAt(l, addr, 0)],
                    addr + SectorSize(l, addr), size - SectorSize(l, addr))
  {
    hide SectorAt, IsAligned, EraseLoop;
    var z, i := SectorSize(l, addr), SectorAt(l, addr, 0);
    LoopOnce(l, addr, size, 1);
    forall m: nat {:trigger EraseLoop(l, addr + z, size - z, m)}
      ensures var (rest, r) := EraseLoop(l, addr + z, size - z, m);
              EraseLoop(l, addr0, size0, |done + [i]| + m) == (done + [i] + rest, r)
    {
      var (rest, r) := EraseLoop(l, addr + z, size - z, m);
      LoopOnce(l, addr, size, m + 1);
      assert EraseLoop(l, addr, size, m + 1) == ([i] + rest, r);
      assert done + ([i] + rest) == done + [i] + rest;
      assert |done + [i]| + m == |done| + (m + 1);
    }
  }

  // ---------------------------------------------------------------- what was erased

  lemma {:induction false} StartsIncrease(l: Layout, i: nat, j: nat)
    requires ValidLayout(l) && i < j <= |l.sizes|
    ensures SectorStart(l, i) + l.sizes[i] <= SectorStart(l, j)
    decreases j
  {
    if i < j - 1 {
      StartsIncrease(l, i, j - 1);
    }
  }

  lemma {:induction false} SectorAtStart(l: Layout, i: nat, from: nat)
    requires ValidLayout(l) && from <= i < |l.sizes|
    ensures SectorAt(l, SectorStart(l, i), from) == i
    decreases i - from
  {
    if from < i {
      StartsIncrease(l, from, i);
      SectorAtStart(l, i, from + 1);
    }
  }

  lemma {:induction false} InsideSector(l: Layout, i: nat, addr: nat, from: nat)
    requires ValidLayout(l) && from <= i < |l.sizes| && SectorStart(l, i) <= addr < SectorStart(l, i) + l.sizes[i]
    ensures SectorAt(l, addr, from) == i
    decreases i - from
  {
    if from < i {
      StartsIncrease(l, from, i);
      InsideSector(l, i, addr, from + 1);
    }
  }

  lemma SameMultiple(a: nat, b: nat, z: nat)
    requires z > 0 && a % z == 0 && b % z == 0 && a <= b < a + z
    ensures a == b
  {
    var k := b / z - a / z;
    assert k * z == b - a by { assert k * z == b / z * z - a / z * z; }
    MulIsZero(k, z);
  }

  /** On a naturally aligned chip, an address that passes the test is where its sector starts. */
  lemma AlignedIsStart(l: Layout, addr: nat)
    requires ValidLayout(l) && NaturallyAligned(l) && Mapped(l, addr) && addr % SectorSize(l, addr) == 0
    ensures SectorStart(l, SectorAt(l, addr, 0)) == addr
  {
    var i := SectorAt(l, addr, 0);
    SameMultiple(SectorStart(l, i), addr, Size(l, i));
  }

  /** The sector after one that starts at `addr` starts where it ends. */
  lemma NextSector(l: Layout, addr: nat)
    requires ValidLayout(l) && Mapped(l, addr) && SectorStart(l, SectorAt(l, addr, 0)) == addr
    ensures var next := addr + SectorSize(l, addr);
            Mapped(l, next) ==> SectorStart(l, SectorAt(l, next, 0)) == next
  {
    var i := SectorAt(l, addr, 0);
    assert SectorStart(l, i + 1) == addr + SectorSize(l, addr);
    if i + 1 < |l.sizes| {
      SectorAtStart(l, i + 1, 0);
    } else if Mapped(l, addr + SectorSize(l, addr)) {
      StartsIncrease(l, SectorAt(l, addr + SectorSize(l, addr), 0), |l.sizes|);
    }
  }

  /** These sectors, in this order, cover [from, until) exactly, each once. */
  ghost predicate Tiles(l: Layout, sectors: seq<nat>, from: nat, until: nat) {
    if sectors == [] then from == until
    else
      && sectors[0] < |l.sizes| && SectorStart(l, sectors[0]) == from
      && Tiles(l, sectors[1..], from + l.sizes[sectors[0]], until)
  }

  /** All but the last of these sectors tile the range from `from` up to the last, which begins
      before `until`. */
  ghost predicate TilesUpToLast(l: Layout, sectors: seq<nat>, from: nat, until: nat) {
    sectors != [] ==>
      var last := sectors[|sectors| - 1];
      && last < |l.sizes| && SectorStart(l, last) < until
      && Tiles(l, sectors[..|sectors| - 1], from, SectorStart(l, last))
  }

  /** Success covers the range; failure covers it up to the last sector erased. */
  ghost predicate Covers(l: Layout, sectors: seq<nat>, ret: int, from: nat, until: nat) {
    if ret == 0 then Tiles(l, sectors, from, until) else ret == -1 && TilesUpToLast(l, sectors, from, until)
  }

  lemma TilesCons(l: Layout, i: nat, rest: seq<nat>, from: nat, until: nat)
    requires i < |l.sizes| && SectorStart(l, i) == from
    ensures Tiles(l, [i] + rest, from, until) <==> Tiles(l, rest, from + l.sizes[i], until)
  {
    assert ([i] + rest)[1..] == rest;
  }

  lemma TilesUpToCons(l: Layout, i: nat, rest: seq<nat>, from: nat, until: nat)
    requires ValidLayout(l) && i < |l.sizes| && SectorStart(l, i) == from < until
    requires TilesUpToLast(l, rest, from + l.sizes[i], until)
    ensures TilesUpToLast(l, [i] + rest, from, until)
  {
    if rest != [] {
      var last := rest[|rest| - 1];
      TilesCons(l, i, rest[..|rest| - 1], from, SectorStart(l, last));
      assert ([i] + rest)[..|rest|] == [i] + rest[..|rest| - 1];
    }
  }

  lemma CoversCons(l: Layout, i: nat, rest: seq<nat>, ret: int, from: nat, until: nat)
    requires ValidLayout(l) && i < |l.sizes| && SectorStart(l, i) == from < until
    requires Covers(l, rest, ret, from + l.sizes[i], until)
    ensures Covers(l, [i] + rest, ret, from, until)
  {
    hide Tiles, TilesUpToLast;
    if ret == 0 {
      TilesCons(l, i, rest, from, until);
    } else {
      TilesUpToCons(l, i, rest, from, until);
    }
  }

  lemma CoversNone(l: Layout, from: nat, until: nat)
    ensures from == until ==> Covers(l, [], 0, from, until)
    ensures Covers(l, [], -1, from, until)
  {
  }

  lemma CoversOne(l: Layout, i: nat, from: nat, until: nat)
    requires i < |l.sizes| && SectorStart(l, i) == from < until
    ensures Covers(l, [i], -1, from, until)
  {
  }

  lemma {:induction false} LoopErases(l: Layout, addr: nat, size: nat, budget: nat)
    requires ValidLayout(l)
    requires Mapped(l, addr) ==> SectorStart(l, SectorAt(l, addr, 0)) == addr
    ensures var (sectors, ret) := EraseLoop(l, addr, size, budget); Covers(l, sectors, ret, addr, addr + size)
    decreases size
  {
    hide SectorAt, SectorStart, IsAligned, Covers, EraseLoop;
    LoopStops(l, addr, size, budget);
    if size > 0 && budget > 0 && Mapped(l, addr) {
      var z, i := SectorSize(l, addr), SectorAt(l, addr, 0);
      if IsAligned(l, addr, size) {
        LoopOnce(l, addr, size, budget);
        NextSector(l, addr);
        LoopErases(l, addr + z, size - z, budget - 1);
        var (rest, ret) := EraseLoop(l, addr + z, size - z, budget - 1);
        CoversCons(l, i, rest, ret, addr, addr + size);
      } else {
        CoversOne(l, i, addr, addr + size);
      }
    } else {
      CoversNone(l, addr, addr + size);
    }
  }

  /** Tiling sectors follow one another on the chip. */
  lemma {:induction false} TilesConsecutive(l: Layout, sectors: seq<nat>, from: nat, until: nat, k: nat)
    requires ValidLayout(l) && Tiles(l, sectors, from, until) && k < |sectors|
    ensures sectors[k] == sectors[0] + k
    decreases |sectors|
  {
    if k > 0 {
      var rest := sectors[1..];
      TilesConsecutive(l, rest, from + l.sizes[sectors[0]], until, k - 1);
      SectorAtStart(l, rest[0], 0);
      assert SectorStart(l, sectors[0] + 1) == SectorStart(l, rest[0]);
      if sectors[0] + 1 < |l.sizes| {
        SectorAtStart(l, sectors[0] + 1, 0);
      } else {
        StartsIncrease(l, rest[0], |l.sizes|);
      }
    }
  }

  /** On a naturally aligned chip success means exactness, and failure that at most the last sector
      erased reaches outside the request: the test for a misfit comes after the erase. */
  lemma EraseOnAligned(l: Layout, addr: nat, size: nat, budget: nat)
    requires ValidLayout(l) && NaturallyAligned(l)
    ensures var (sectors, ret) := Erase(l, addr, size, budget); Covers(l, sectors, ret, addr, addr + size)
  {
    if IsAligned(l, addr, size) {
      if Mapped(l, addr) {
        AlignedIsStart(l, addr);
      }
      LoopErases(l, addr, size, budget);
    }
  }

  /** On any chip, a request for some bytes that is reported as done was exact if and only if it began
      where a sector begins. */
  lemma EraseExactPerRequest(l: Layout, addr: nat, size: nat, budget: nat)
    requires ValidLayout(l) && size > 0 && Erase(l, addr, size, budget).1 == 0
    ensures Mapped(l, addr)
    ensures Tiles(l, Erase(l, addr, size, budget).0, addr, addr + size)
            <==> SectorStart(l, SectorAt(l, addr, 0)) == addr
  {
    LoopStops(l, addr, size, budget);
    if SectorStart(l, SectorAt(l, addr, 0)) == addr {
      LoopErases(l, addr, size, budget);
    } else {
      LoopOnce(l, addr, size, budget);
    }
  }

  /** Every successful erase erases exactly the requested range. */
  ghost predicate EraseIsExact(l: Layout) {
    forall addr: nat, size: nat, budget: nat ::
      Erase(l, addr, size, budget).1 == 0 ==> Tiles(l, Erase(l, addr, size, budget).0, addr, addr + size)
  }

  /** Past a number that is no multiple of z comes one within z. */
  lemma MultipleInside(start: nat, z: nat)
    requires z > 0 && start % z != 0
    ensures var a := start - start % z + z;
            start < a < start + z && a == (start / z + 1) * z && a % z == 0
  {
    assert start == start / z * z + start % z;
    assert (start / z + 1) * z == start / z * z + z;
    ModOfMultiple(start / z + 1, z);
  }

  /** Inside a sector that does not start at a multiple of its size there is one; erasing one
      sector's worth from there erases the sector, which starts earlier. */
  lemma WrongErase(l: Layout, i: nat, addr: nat)
    requires ValidLayout(l) && i < |l.sizes| && SectorStart(l, i) % l.sizes[i] != 0
    requires addr == SectorStart(l, i) - SectorStart(l, i) % l.sizes[i] + l.sizes[i]
    ensures Erase(l, addr, l.sizes[i], 1) == ([i], 0)
    ensures !Tiles(l, [i], addr, addr + l.sizes[i])
  {
    var z := l.sizes[i];
    MultipleInside(SectorStart(l, i), z);
    assert z % z == 0 by { ModOfMultiple(1, z); }
    InsideSector(l, i, addr, 0);
    assert EraseLoop(l, addr + z, 0, 0) == ([], 0);
    LoopOnce(l, addr, z, 1);
    assert [i] + [] == [i];
  }

  /** The alignment test protects exactly the chips whose sectors start at multiples of their own
      size. On any other chip some accepted request erases the wrong bytes. */
  lemma EraseExactness(l: Layout)
    requires ValidLayout(l)
    ensures EraseIsExact(l) <==> NaturallyAligned(l)
  {
    if NaturallyAligned(l) {
      forall addr: nat, size: nat, budget: nat
        ensures Erase(l, addr, size, budget).1 == 0 ==> Tiles(l, Erase(l, addr, size, budget).0, addr, addr + size)
      {
        EraseOnAligned(l, addr, size, budget);
      }
    } else {
      var i :| 0 <= i < |l.sizes| && SectorStart(l, i) % Size(l, i) != 0;
      var z := l.sizes[i];
      var addr := SectorStart(l, i) - SectorStart(l, i) % z + z;
      WrongErase(l, i, addr);
    }
  }

  /** These sectors tile the request, and each of them passes the alignment test when its turn
      comes. */
  ghost predicate AllFit(l: Layout, sectors: seq<nat>, from: nat, until: nat) {
    if sectors == [] then from == until
    else
      && sectors[0] < |l.sizes| && SectorStart(l, sectors[0]) == from < until
      && from % Size(l, sectors[0]) == 0 && (until - from) % Size(l, sectors[0]) == 0
      && AllFit(l, sectors[1..], from + l.sizes[sectors[0]], until)
  }

  ghost predicate Fit(l: Layout, sectors: seq<nat>, addr: nat, size: nat) {
    AllFit(l, sectors, addr, addr + size)
  }

  lemma FirstFits(l: Layout, sectors: seq<nat>, addr: nat, until: nat)
    requires ValidLayout(l) && AllFit(l, sectors, addr, until) && sectors != []
    ensures addr < until && Mapped(l, addr) && IsAligned(l, addr, until - addr) && SectorAt(l, addr, 0) == sectors[0]
    ensures sectors[0] < |l.sizes| && SectorSize(l, addr) == l.sizes[sectors[0]] && SectorStart(l, sectors[0]) == addr
    ensures AllFit(l, sectors[1..], addr + l.sizes[sectors[0]], until)
  {
    SectorAtStart(l, sectors[0], 0);
    hide SectorStart, SectorAt;
  }

  /** A controller that does not refuse erases them. */
  lemma {:induction false} FitErases(l: Layout, sectors: seq<nat>, addr: nat, until: nat, budget: nat)
    requires ValidLayout(l) && AllFit(l, sectors, addr, until) && |sectors| <= budget
    ensures addr <= until && EraseLoop(l, addr, until - addr, budget) == (sectors, 0)
    ensures Tiles(l, sectors, addr, until)
    decreases |sectors|
  {
    if sectors == [] {
      LoopStops(l, addr, 0, budget);
    } else {
      FirstFits(l, sectors, addr, until);
      hide SectorStart, SectorAt, SectorSize, EraseLoop, AllFit, IsAligned, Mapped, Tiles, ValidLayout;
      var i, rest := sectors[0], sectors[1..];
      LoopOnce(l, addr, until - addr, budget);
      FitErases(l, rest, addr + l.sizes[i], until, budget - 1);
      TilesCons(l, i, rest, addr, until);
      assert (until - addr) - SectorSize(l, addr) == until - (addr + l.sizes[i]);
      assert [i] + rest == sectors;
    }
  }

  lemma FitEnds(l: Layout, addr: nat, size: nat, budget: nat, done: seq<nat>, ret: int)
    requires ValidLayout(l) && EndsAs(l, addr, size, budget, done, ret)
    ensures forall sectors :: Fit(l, sectors, addr, size) ==> ret == 0 && done == sectors
  {
    hide EraseLoop, AllFit;
    forall sectors | Fit(l, sectors, addr, size) ensures ret == 0 && done == sectors {
      var b := budget + |sectors|;
      FitErases(l, sectors, addr, addr + size, b);
      assert EraseLoop(l, addr, size, b) == (done, ret);
    }
  }

  function TotalSize(l: Layout, sectors: seq<nat>): nat {
    if sectors == [] then 0
    else
      var i := sectors[|sectors| - 1];
      TotalSize(l, sectors[..|sectors| - 1]) + if i < |l.sizes| then l.sizes[i] else 0
  }

  lemma TotalSizeAppend(l: Layout, sectors: seq<nat>, i: nat)
    requires i < |l.sizes|
    ensures TotalSize(l, sectors + [i]) == TotalSize(l, sectors) + l.sizes[i]
  {
    assert (sectors + [i])[..|sectors|] == sectors;
  }

  /** The last sector erased did not pass the alignment test, which came too late. */
  ghost predicate Misfit(l: Layout, sectors: seq<nat>, from: nat, until: nat) {
    sectors != [] &&
    var last := sectors[|sectors| - 1];
    var addr := from + TotalSize(l, sectors[..|sectors| - 1]);
    addr < until && Mapped(l, addr) && last == SectorAt(l, addr, 0) && !IsAligned(l, addr, until - addr)
  }

  lemma IsMisfit(l: Layout, done: seq<nat>, addr: nat, from: nat, until: nat)
    requires addr == from + TotalSize(l, done) < until && Mapped(l, addr) && !IsAligned(l, addr, until - addr)
    ensures Misfit(l, done + [SectorAt(l, addr, 0)], from, until)
  {
    assert (done + [SectorAt(l, addr, 0)])[..|done|] == done;
  }

  lemma EndsNow(l: Layout, addr: nat, size: nat, budget: nat, sectors: seq<nat>, ret: int)
    requires EndsAs(l, addr, size, budget, sectors, ret)
    ensures EraseLoop(l, addr, size, budget) == (sectors, ret)
  {
  }

  lemma TotalSizeNone(l: Layout)
    ensures TotalSize(l, []) == 0
  {
  }

  lemma SectorSizeIs(l: Layout, addr: nat)
    requires ValidLayout(l) && Mapped(l, addr)
    ensures SectorSize(l, addr) == l.sizes[SectorAt(l, addr, 0)]
  {
  }

  // ---------------------------------------------------------------- the driver

  class FlashIAP {
    const layout: Layout
    /** The sectors erased and the ranges programmed, in order. */
    ghost var erased: seq<nat>
    ghost var programmed: seq<(nat, nat)>
    /** How often the controller refused. */
    ghost var refusals: nat

    constructor (layout: Layout)
      ensures this.layout == layout && erased == [] && programmed == [] && refusals == 0
    {
      this.layout := layout;
      erased, programmed, refusals := [], [], 0;
    }

    /** flash_erase_sector: may fail at any time. */
    method EraseSector(addr: nat) returns (ret: int)
      modifies this`erased, this`refusals
      ensures if ret == 0
              then
                && Mapped(layout, addr) && refusals == old(refusals)
                && erased == old(erased) + [SectorAt(layout, addr, 0)]
              else erased == old(erased) && refusals == old(refusals) + 1
    {
      ret := *;
      if !Mapped(layout, addr) {
        ret := -1;
      }
      if ret == 0 {
        erased := erased + [SectorAt(layout, addr, 0)];
      } else {
        refusals := refusals + 1;
      }
    }

    /** erase. `done` are the sectors it erased. */
    method EraseRange(addr0: nat, size0: nat) returns (ret: int, ghost done: seq<nat>)
      requires ValidLayout(layout) && addr0 < U32 && size0 < U32
      modifies this`erased, this`refusals
      ensures erased == old(erased) + done && (ret == 0 || ret == -1)
      ensures Erase(layout, addr0, size0, |done|) == (done, ret)
      ensures !IsAligned(layout, addr0, size0) ==> ret == -1 && done == [] && refusals == old(refusals)
      // the first refusal ends it
      ensures refusals == old(refusals) || (refusals == old(refusals) + 1 && ret == -1)
      // without one, a request whose sectors fit is erased, and a failure is a misfit
      ensures refusals == old(refusals) && IsAligned(layout, addr0, size0) ==>
                && (forall sectors :: Fit(layout, sectors, addr0, size0) ==> ret == 0 && done == sectors)
                && (ret == -1 ==> Misfit(layout, done, addr0, addr0 + size0))
    {
      hide SectorSize, EraseLoop, IsAligned, SectorAt, Resumes, EndsAs, Fit, Misfit, TotalSize, ValidLayout;
      done := [];
      if !IsAligned(layout, addr0, size0) {
        return -1, [];
      }
      var addr, size := addr0, size0;
      ResumesAtStart(layout, addr0, size0);
      TotalSizeNone(layout);
      ret := 0;
      while size != 0
        invariant erased == old(erased) + done && ret == 0 && refusals == old(refusals)
        invariant Resumes(layout, addr0, size0, done, addr, size)
        invariant addr == addr0 + TotalSize(layout, done) && addr + size == addr0 + size0
        decreases size
      {
        ret := EraseSector(addr);
        if ret != 0 {
          ResumesFailed(layout, addr0, size0, done, addr, size);
          return -1, done;
        }
        var currentSectorSize := SectorSize(layout, addr);
        if !IsAligned(layout, addr, size) {
          ResumesMisfit(layout, addr0, size0, done, addr, size);
          IsMisfit(layout, done, addr, addr0, addr0 + size0);
          done := done + [SectorAt(layout, addr, 0)];
          FitEnds(layout, addr0, size0, |done|, done, -1);
          EndsNow(layout, addr0, size0, |done|, done, -1);
          return -1, done;
        }
        ResumesStep(layout, addr0, size0, done, addr, size);
        TotalSizeAppend(layout, done, SectorAt(layout, addr, 0));
        SectorSizeIs(layout, addr);
        done := done + [SectorAt(layout, addr, 0)];
        size := size - currentSectorSize;
        addr := addr + currentSectorSize;
      }
      ResumesDone(layout, addr0, size0, done, addr);
      FitEnds(layout, addr0, size0, |done|, done, 0);
      EndsNow(layout, addr0, size0, |done|, done, 0);
    }

    /** flash_program_page: may fail at any time, and does so on an unmapped address. */
    method ProgramPage(addr: nat, size: nat) returns (ret: int)
      modifies this`programmed, this`refusals
      ensures if ret == 0
              then Mapped(layout, addr) && programmed == old(programmed) + [(addr, size)] && refusals == old(refusals)
              else programmed == old(programmed) && refusals == old(refusals) + 1
    {
      ret := *;
      if !Mapped(layout, addr) {
        ret := -1;
      }
      if ret == 0 {
        programmed := programmed + [(addr, size)];
      } else {
        refusals := refusals + 1;
      }
    }

    /** program. */
    method Program(addr: nat, size: nat, pageSize: nat) returns (ret: int)
      requires pageSize > 0 && addr < U32 && size < U32
      modifies this`programmed, this`refusals
      ensures ret == 0 ==>
                && Mapped(layout, addr) && ProgramAccepts(layout, pageSize, addr, size)
                && programmed == old(programmed) + [(addr, size)] && refusals == old(refusals)
      // it fails for a request that is not accepted, or when the controller refuses
      ensures ret != 0 ==>
                && ret == -1 && programmed == old(programmed)
                && refusals == old(refusals) + if ProgramAccepts(layout, pageSize, addr, size) then 1 else 0
    {
      var currentSectorSize := SectorSize(layout, addr);
      if addr % pageSize != 0 || size % pageSize != 0 || size < pageSize
         || Low32(addr % currentSectorSize + size) > currentSectorSize {
        return -1;
      }
      ret := 0;
      var failed := ProgramPage(addr, size);
      if failed != 0 {
        ret := -1;
      }
    }
  }

  // ---------------------------------------------------------------- program

  /** The bytes of the request lie in the sector of its address. */
  predicate InOneSector(l: Layout, addr: nat, size: nat)
    requires Mapped(l, addr)
  {
    var i := SectorAt(l, addr, 0);
    addr + size <= SectorStart(l, i) + l.sizes[i]
  }

  /** On a naturally aligned chip an accepted program stays inside one sector exactly when the sum
      in the test does not wrap around. */
  lemma ProgramOnAligned(l: Layout, pageSize: nat, addr: nat, size: nat)
    requires ValidLayout(l) && NaturallyAligned(l) && Mapped(l, addr)
    requires pageSize > 0 && ProgramAccepts(l, pageSize, addr, size)
    ensures InOneSector(l, addr, size) <==> addr % SectorSize(l, addr) + size < U32
  {
    hide SectorAt, SectorStart;
    var i := SectorAt(l, addr, 0);
    var z, start := l.sizes[i], SectorStart(l, i);
    SectorBelowU32(l, i);
    OffsetFrom(addr, start, z);
  }

  /** And as long as it does not, the test accepts exactly the whole pages of one sector. */
  lemma ProgramAcceptsPages(l: Layout, pageSize: nat, addr: nat, size: nat)
    requires ValidLayout(l) && NaturallyAligned(l) && Mapped(l, addr)
    requires pageSize > 0 && addr % SectorSize(l, addr) + size < U32
    ensures ProgramAccepts(l, pageSize, addr, size) <==>
              addr % pageSize == 0 && size % pageSize == 0 && size > 0 && InOneSector(l, addr, size)
  {
    hide SectorAt, SectorStart;
    var i := SectorAt(l, addr, 0);
    OffsetFrom(addr, SectorStart(l, i), l.sizes[i]);
    if size % pageSize == 0 && size > 0 {
      MultipleIsLarger(size, pageSize);
    }
  }

  lemma OffsetFrom(addr: nat, start: nat, z: nat)
    requires z > 0 && start % z == 0 && start <= addr < start + z
    ensures addr % z == addr - start
  {
    DivUnique(addr, z, start / z, addr - start);
  }

  lemma SectorBelowU32(l: Layout, i: nat)
    requires ValidLayout(l) && i < |l.sizes|
    ensures SectorStart(l, i) + l.sizes[i] < U32
  {
    StartsIncrease(l, i, |l.sizes|);
  }

  /** Every accepted program whose sum does not wrap stays inside one sector. */
  ghost predicate ProgramIsSafe(l: Layout, pageSize: nat)
    requires pageSize > 0
  {
    forall addr: nat, size: nat ::
      Mapped(l, addr) && ProgramAccepts(l, pageSize, addr, size) && addr % SectorSize(l, addr) + size < U32
      ==> InOneSector(l, addr, size)
  }

  /** The test takes the remainder for the offset in the sector, which is right exactly on the chips
      whose sectors start at multiples of their own size. A sector is a number of pages. */
  lemma ProgramExactness(l: Layout, pageSize: nat)
    requires ValidLayout(l) && pageSize > 0
    requires forall i :: 0 <= i < |l.sizes| ==> l.sizes[i] % pageSize == 0
    ensures ProgramIsSafe(l, pageSize) <==> NaturallyAligned(l)
  {
    if NaturallyAligned(l) {
      forall addr: nat, size: nat | Mapped(l, addr) && ProgramAccepts(l, pageSize, addr, size)
                                    && addr % SectorSize(l, addr) + size < U32
        ensures InOneSector(l, addr, size)
      {
        ProgramOnAligned(l, pageSize, addr, size);
      }
    } else {
      var i :| 0 <= i < |l.sizes| && SectorStart(l, i) % Size(l, i) != 0;
      var addr := SectorStart(l, i) - SectorStart(l, i) % l.sizes[i] + l.sizes[i];
      WrongProgram(l, pageSize, i, addr);
    }
  }

  /** From the multiple of its size inside a misplaced sector, one sector's worth of data is accepted
      and ends behind the sector. */
  lemma WrongProgram(l: Layout, pageSize: nat, i: nat, addr: nat)
    requires ValidLayout(l) && i < |l.sizes| && SectorStart(l, i) % l.sizes[i] != 0
    requires pageSize > 0 && l.sizes[i] % pageSize == 0
    requires addr == SectorStart(l, i) - SectorStart(l, i) % l.sizes[i] + l.sizes[i]
    ensures Mapped(l, addr) && ProgramAccepts(l, pageSize, addr, l.sizes[i])
    ensures addr % SectorSize(l, addr) + l.sizes[i] < U32 && !InOneSector(l, addr, l.sizes[i])
  {
    hide SectorAt, SectorStart;
    var z := l.sizes[i];
    MultipleInside(SectorStart(l, i), z);
    InsideSector(l, i, addr, 0);
    SectorBelowU32(l, i);
    MultipleOfMultiple(SectorStart(l, i) / z + 1, z, pageSize);
  }

  lemma MultipleOfMultiple(q: nat, z: nat, p: nat)
    requires p > 0 && z > 0 && z % p == 0
    ensures (q * z) % p == 0 && z >= p
  {
    MultipleIsLarger(z, p);
    var k := z / p;
    assert z == k * p;
    assert q * z == (q * k) * p by { assert q * (k * p) == (q * k) * p; }
    ModOfMultiple(q * k, p);
  }

  /** For example 16 bytes at 16, with sectors of 4, 16 and 16 bytes. */
  lemma ProgramAcrossSectors()
    ensures var l := Layout(0, [4, 16, 16]);
            && ValidLayout(l) && ProgramAccepts(l, 4, 16, 16)
            && SectorAt(l, 16, 0) == 1 && SectorAt(l, 31, 0) == 2 && !InOneSector(l, 16, 16)
  {
    var l := Layout(0, [4, 16, 16]);
    assert SectorStart(l, 0) == 0 && SectorStart(l, 1) == 4 && SectorStart(l, 2) == 20 && SectorStart(l, 3) == 36;
    assert SectorAt(l, 16, 1) == 1;
    assert SectorAt(l, 31, 2) == 2;
    assert SectorAt(l, 31, 1) == 2;
  }
}
