/** The heap statistics of mbed-os/platform/mbed_alloc_wrappers.cpp (GCC, MBED_HEAP_STATS_ENABLED):
    wrappers that keep the size of each block in a header in front of it. */
module HeapStats {

  import opened Arithmetic

  const HEADER: nat := 8

  // ---------------------------------------------------------------- sizes

  lemma Low32Sum(x: nat, y: nat)
    ensures Low32(Low32(x) + y) == Low32(x + y)
  {
  }

  /** What the wrapper asks the real allocator for, in 32-bit arithmetic. */
  function RealRequest(size: nat): nat {
    Low32(size + HEADER)
  }

  /** The block has room for its header and `size` bytes exactly when the sum does not wrap. */
  lemma RequestCovers(size: nat)
    requires size < U32
    ensures RealRequest(size) >= size + HEADER <==> size < U32 - HEADER
  {
  }

  function CallocSize(nmemb: nat, size: nat): nat {
    Low32(nmemb * size)
  }

  /** calloc hands out fewer bytes than asked for exactly when the product does not fit. */
  lemma CallocCovers(nmemb: nat, size: nat)
    ensures CallocSize(nmemb, size) == nmemb * size <==> nmemb * size < U32
  {
  }

  // ---------------------------------------------------------------- what should be counted

  datatype Event = Alloc(p: nat, size: nat) | Fail | Release(p: nat)

  /** The live blocks after a history, with the sizes they were asked for. */
  function Live(log: seq<Event>): map<nat, nat> {
    if log == [] then map[]
    else
      var m := Live(log[..|log| - 1]);
      match log[|log| - 1]
      case Alloc(p, size) => m[p := size]
      case Fail => m
      case Release(p) => m - {p}
  }

  ghost function Total(m: map<nat, nat>): nat {
    if m == map[] then 0
    else
      var p :| p in m;
      m[p] + Total(m - {p})
  }

  /** The most bytes ever live at once. */
  ghost function Peak(log: seq<Event>): nat {
    if log == [] then 0
    else
      var before, now := Peak(log[..|log| - 1]), Total(Live(log));
      if now > before then now else before
  }

  /** The sum of all successful requests. */
  function Requested(log: seq<Event>): nat {
    if log == [] then 0
    else Requested(log[..|log| - 1]) + if log[|log| - 1].Alloc? then log[|log| - 1].size else 0
  }

  function Failures(log: seq<Event>): nat {
    if log == [] then 0
    else Failures(log[..|log| - 1]) + if log[|log| - 1].Fail? then 1 else 0
  }

  lemma {:induction false} TotalWithout(m: map<nat, nat>, p: nat)
    requires p in m
    ensures Total(m) == m[p] + Total(m - {p})
    decreases |m|
  {
    var q :| q in m && Total(m) == m[q] + Total(m - {q});
    if q != p {
      assert |m - {q}| < |m| by { assert (m - {q}).Keys == m.Keys - {q}; }
      assert |m - {p}| < |m| by { assert (m - {p}).Keys == m.Keys - {p}; }
      TotalWithout(m - {q}, p);
      TotalWithout(m - {p}, q);
      assert (m - {q}) - {p} == (m - {p}) - {q};
    }
  }

  lemma TotalWith(m: map<nat, nat>, p: nat, size: nat)
    requires p !in m
    ensures Total(m[p := size]) == Total(m) + size && |m[p := size]| == |m| + 1
  {
    TotalWithout(m[p := size], p);
    assert m[p := size] - {p} == m;
    assert m[p := size].Keys == m.Keys + {p};
  }

  /** What one more event changes. */
  lemma AfterAlloc(log: seq<Event>, p: nat, size: nat)
    requires p !in Live(log)
    ensures var log' := log + [Alloc(p, size)];
            && Live(log') == Live(log)[p := size] && |Live(log')| == |Live(log)| + 1
            && Total(Live(log')) == Total(Live(log)) + size
            && Peak(log') == (if Total(Live(log')) > Peak(log) then Total(Live(log')) else Peak(log))
            && Requested(log') == Requested(log) + size && Failures(log') == Failures(log)
  {
    assert (log + [Alloc(p, size)])[..|log|] == log;
    TotalWith(Live(log), p, size);
  }

  lemma AfterFail(log: seq<Event>)
    ensures var log' := log + [Fail];
            && Live(log') == Live(log) && Peak(log') == Peak(log)
            && Requested(log') == Requested(log) && Failures(log') == Failures(log) + 1
  {
    assert (log + [Fail])[..|log|] == log;
    PeakCovers(log);
  }

  lemma AfterRelease(log: seq<Event>, p: nat)
    requires p in Live(log)
    ensures var log' := log + [Release(p)];
            && Live(log') == Live(log) - {p} && |Live(log')| == |Live(log)| - 1
            && Total(Live(log')) == Total(Live(log)) - Live(log)[p]
            && Peak(log') == Peak(log)
            && Requested(log') == Requested(log) && Failures(log') == Failures(log)
  {
    assert (log + [Release(p)])[..|log|] == log;
    TotalWithout(Live(log), p);
    PeakCovers(log);
    assert (Live(log) - {p}).Keys == Live(log).Keys - {p};
  }

  lemma PeakCovers(log: seq<Event>)
    ensures Total(Live(log)) <= Peak(log)
  {
  }

  /** The peak really is one: no prefix of the history had more bytes live, and some had that many. */
  lemma {:induction false} PeakIsMaximum(log: seq<Event>)
    ensures forall k :: 0 <= k <= |log| ==> Total(Live(log[..k])) <= Peak(log)
    ensures exists k :: 0 <= k <= |log| && Total(Live(log[..k])) == Peak(log)
  {
    assert log[..|log|] == log;
    if log == [] {
      assert Total(Live(log[..0])) == Peak(log);
    } else {
      var before := log[..|log| - 1];
      PeakIsMaximum(before);
      var k :| 0 <= k <= |before| && Total(Live(before[..k])) == Peak(before);
      assert forall j :: 0 <= j <= |before| ==> before[..j] == log[..j];
      if Peak(log) == Peak(before) {
        assert Total(Live(log[..k])) == Peak(log);
      } else {
        assert Total(Live(log[..|log|])) == Peak(log);
      }
      forall j | 0 <= j <= |log| ensures Total(Live(log[..j])) <= Peak(log) {
        if j <= |before| {
          assert Total(Live(before[..j])) <= Peak(before);
        }
      }
    }
  }

  // ---------------------------------------------------------------- the wrappers

  /** A block: the size kept in its header, and its contents. */
  datatype Block = Block(size: nat, bytes: seq<Byte>)

  class Heap {
    var currentSize: nat
    var maxSize: nat
    var totalSize: nat
    var allocCnt: nat
    var allocFailCnt: nat
    /** The memory behind the pointers handed out; 0 is NULL. */
    var blocks: map<nat, Block>
    ghost var log: seq<Event>
    /** How often the real allocator had nothing to give. */
    ghost var refusals: nat

    /** The memory is what the history says. */
    ghost predicate BlocksOk()
      reads this`blocks, this`log
    {
      && 0 !in blocks
      && blocks.Keys == Live(log).Keys
      && (forall p :: p in blocks ==> blocks[p].size == |blocks[p].bytes| == Live(log)[p])
    }

    /** The statistics are what the history says. */
    ghost predicate StatsOk()
      reads this`currentSize, this`maxSize, this`totalSize, this`allocCnt, this`allocFailCnt, this`log
    {
      && currentSize == Total(Live(log)) < U32
      && allocCnt == |Live(log)| < U32
      && maxSize == Peak(log)
      && totalSize == Low32(Requested(log))
      && allocFailCnt == Low32(Failures(log))
    }

    ghost predicate Valid()
      reads this
    {
      BlocksOk() && StatsOk()
    }

    constructor ()
      ensures Valid() && blocks == map[] && log == []
    {
      currentSize, maxSize, totalSize, allocCnt, allocFailCnt := 0, 0, 0, 0, 0;
      blocks := map[];
      log, refusals := [], 0;
    }

    /** __real__malloc_r: a pointer not in use, or NULL. Live blocks and their headers are disjoint
        parts of a 32-bit address space, so a request that does not fit into it fails. */
    method RealMalloc(request: nat) returns (p: nat)
      modifies this`refusals
      ensures refusals == old(refusals) + if p == 0 then 1 else 0
      ensures p != 0 ==> p !in blocks && currentSize + request < U32 && allocCnt + 1 < U32
    {
      p := *;
      if p in blocks || currentSize + request >= U32 || allocCnt + 1 >= U32 {
        p := 0;
      }
      if p == 0 {
        refusals := refusals + 1;
      }
    }

    /** What fresh memory contains: anything. */
    method Garbage(size: nat) returns (bytes: seq<Byte>)
      ensures |bytes| == size
    {
      var content: nat -> Byte := *;
      bytes := seq(size, i requires 0 <= i => content(i));
    }

    method Malloc(size: nat) returns (p: nat)
      requires Valid() && size < U32 - HEADER
      modifies this
      ensures Valid()
      // it fails only when the allocator does
      ensures refusals == old(refusals) + if p == 0 then 1 else 0
      ensures p == 0 ==> blocks == old(blocks) && log == old(log) + [Fail]
      ensures p != 0 ==> p !in old(blocks) && p in blocks && blocks == old(blocks)[p := blocks[p]]
      ensures p != 0 ==> |blocks[p].bytes| == size && log == old(log) + [Alloc(p, size)]
    {
      hide Live, Total, Peak, Requested, Failures, Low32;
      p := RealMalloc(RealRequest(size));
      if p != 0 {
        var content := Garbage(size);
        AfterAlloc(log, p, size);
        CountAlloc(p, size);
        blocks := blocks[p := Block(size, content)];
      } else {
        AfterFail(log);
        Low32Sum(Failures(log), 1);
        log := log + [Fail];
        allocFailCnt := Low32(allocFailCnt + 1);
      }
    }

    /** The statistics of a successful malloc. */
    method CountAlloc(p: nat, size: nat)
      requires StatsOk() && p !in Live(log) && currentSize + size < U32 && allocCnt + 1 < U32
      modifies this`log, this`currentSize, this`totalSize, this`allocCnt, this`maxSize
      ensures StatsOk() && log == old(log) + [Alloc(p, size)]
    {
      hide Live, Total, Peak, Requested, Failures, Low32;
      AfterAlloc(log, p, size);
      Low32Sum(Requested(log), size);
      log := log + [Alloc(p, size)];
      currentSize := Low32(currentSize + size);
      totalSize := Low32(totalSize + size);
      allocCnt := Low32(allocCnt + 1);
      if currentSize > maxSize {
        maxSize := currentSize;
      }
    }

    method Free(p: nat)
      requires Valid() && (p == 0 || p in blocks)
      modifies this
      ensures Valid() && blocks == old(blocks) - {p} && refusals == old(refusals)
      ensures log == old(log) + if p == 0 then [] else [Release(p)]
    {
      hide Live, Total, Peak, Requested, Failures;
      if p != 0 {
        AfterRelease(log, p);
        log := log + [Release(p)];
        currentSize := currentSize - blocks[p].size;
        allocCnt := allocCnt - 1;
        blocks := blocks - {p};
      }
    }

    /** __wrap__realloc_r, built from malloc and free. A size of zero returns NULL and, unlike the
        standard function, frees nothing. */
    method Realloc(p: nat, size: nat) returns (q: nat)
      requires Valid() && (p == 0 || p in blocks) && size < U32 - HEADER
      modifies this
      ensures Valid()
      ensures refusals == old(refusals) + if size != 0 && q == 0 then 1 else 0
      ensures size == 0 ==> q == 0
      // a failure leaves every block as it was
      ensures q == 0 ==> blocks == old(blocks)
      // a success moves the block, keeping as many bytes as fit
      ensures q != 0 ==> q !in old(blocks) && q in blocks && |blocks[q].bytes| == size
      ensures q != 0 ==> blocks == (old(blocks) - {p})[q := blocks[q]]
      ensures q != 0 && p != 0 ==>
                forall i :: 0 <= i < size && i < |old(blocks)[p].bytes|
                            ==> blocks[q].bytes[i] == old(blocks)[p].bytes[i]
      ensures log == old(log)
                + (if size == 0 then [] else if q == 0 then [Fail] else [Alloc(q, size)])
                + (if q == 0 || p == 0 then [] else [Release(p)])
    {
      hide Valid;
      q := 0;
      var oldSize := 0;
      if p != 0 {
        HeaderIsLength(p);
        oldSize := blocks[p].size;
      }
      if size != 0 {
        q := Malloc(size);
      }
      if q != 0 {
        var copySize := if oldSize < size then oldSize else size;
        if p != 0 {
          CopyBytes(q, p, copySize);
        }
        Free(p);
      }
    }

    lemma HeaderIsLength(p: nat)
      requires Valid() && p in blocks
      ensures p != 0 && blocks[p].size == |blocks[p].bytes|
    {
    }

    /** memcpy between two live blocks. */
    method CopyBytes(to: nat, from: nat, n: nat)
      requires Valid() && to in blocks && from in blocks && to != from
      requires n <= |blocks[to].bytes| && n <= |blocks[from].bytes|
      modifies this`blocks
      ensures Valid() && to in blocks && |blocks[to].bytes| == |old(blocks)[to].bytes|
      ensures blocks == old(blocks)[to := blocks[to]]
      ensures forall i :: 0 <= i < n ==> blocks[to].bytes[i] == old(blocks)[from].bytes[i]
    {
      hide Live, Total, Peak, Requested, Failures;
      blocks := blocks[to := blocks[to].(bytes := blocks[from].bytes[..n] + blocks[to].bytes[n..])];
    }

    method Calloc(nmemb: nat, size: nat) returns (p: nat)
      requires Valid() && CallocSize(nmemb, size) < U32 - HEADER
      modifies this
      ensures Valid()
      // it fails only when the allocator does
      ensures refusals == old(refusals) + if p == 0 then 1 else 0
      ensures p == 0 ==> blocks == old(blocks) && log == old(log) + [Fail]
      ensures p != 0 ==> p !in old(blocks) && p in blocks && blocks == old(blocks)[p := blocks[p]]
      ensures p != 0 ==> blocks[p].bytes == seq(CallocSize(nmemb, size), _ => 0)
      ensures p != 0 ==> log == old(log) + [Alloc(p, CallocSize(nmemb, size))]
    {
      hide Live, Total, Peak, Requested, Failures, CallocSize;
      p := Malloc(CallocSize(nmemb, size));
      if p != 0 {
        blocks := blocks[p := blocks[p].(bytes := seq(CallocSize(nmemb, size), _ => 0))];
      }
    }
  }
}
