/**
 * State layout and initialisation of a demand-paging simulator.
 *
 * The simulator keeps a table of processes (each with its own page table),
 * a physical memory divided into page-sized frames, a logical clock and two
 * counters. Only the records and the initialisation routine are modelled here.
 */
module Paging {

  /** The C `int` used for every field, counter and table entry. */
  newtype Int32 = x: int | -0x8000_0000 <= x < 0x8000_0000

  /** Entry of the frame table for a frame that holds no page. */
  const FreeFrame: Int32 := -1

  /** Entry of the load-time table for a frame into which nothing was loaded. */
  const NotLoaded: Int32 := -1

  /**
   * One entry of a process's page table. The flags are C integers
   * (zero for false); `frame`, `loadTime` and `lastAccess` are intended to
   * describe the page while it is present. No operation here uses them.
   */
  datatype Page = Page(
    present: Int32,
    frame: Int32,
    modified: Int32,
    referenced: Int32,
    loadTime: Int32,
    lastAccess: Int32)

  /** A process: its id, its size in bytes and its page table (a C pointer, so possibly `null`). */
  datatype Process = Process(
    pid: Int32,
    size: Int32,
    numPages: Int32,
    pageTable: array?<Page>)

  /**
   * Physical memory, held by value inside the simulator: the number of frames
   * and two tables of that length, owned by the simulator and updated in place.
   * `frames[f]` says what occupies frame `f`, `loadTimes[f]` when it was loaded.
   */
  datatype PhysicalMemory = PhysicalMemory(
    numFrames: Int32,
    frames: array<Int32>,
    loadTimes: array<Int32>)

  /**
   * Reference for the frame count: carve one page-sized frame after another
   * off the start of a memory of `memorySize` bytes until less than a page
   * is left, and count the frames carved.
   */
  function FramesCarved(memorySize: int, pageSize: int): nat
    requires pageSize > 0 && memorySize >= 0
    decreases memorySize
  {
    if memorySize < pageSize then 0 else 1 + FramesCarved(memorySize - pageSize, pageSize)
  }

  /** The carved frames fit in memory, and what is left is smaller than a page. */
  lemma {:induction false} CarvedFramesFit(memorySize: int, pageSize: int)
    requires pageSize > 0 && memorySize >= 0
    ensures FramesCarved(memorySize, pageSize) * pageSize <= memorySize
    ensures memorySize < (FramesCarved(memorySize, pageSize) + 1) * pageSize
    decreases memorySize
  {
    if memorySize >= pageSize {
      var k := FramesCarved(memorySize - pageSize, pageSize);
      CarvedFramesFit(memorySize - pageSize, pageSize);
      assert (k + 1) * pageSize == k * pageSize + pageSize;
      assert (k + 2) * pageSize == (k + 1) * pageSize + pageSize;
    }
  }

  /**
   * A memory of `k` whole frames plus fewer than a page of extra bytes
   * yields exactly `k` frames: the extra bytes are dropped.
   */
  lemma {:induction false} CarvingDropsRemainder(k: nat, extra: nat, pageSize: int)
    requires pageSize > 0 && extra < pageSize
    ensures FramesCarved(k * pageSize + extra, pageSize) == k
  {
    if k > 0 {
      assert k * pageSize + extra - pageSize == (k - 1) * pageSize + extra;
      CarvingDropsRemainder(k - 1, extra, pageSize);
    }
  }

  /** No more frames than bytes: every frame holds at least one byte. */
  lemma {:induction false} CarvingAtMostMemory(memorySize: int, pageSize: int)
    requires pageSize > 0 && memorySize >= 0
    ensures FramesCarved(memorySize, pageSize) <= memorySize
    decreases memorySize
  {
    if memorySize >= pageSize {
      CarvingAtMostMemory(memorySize - pageSize, pageSize);
    }
  }

  lemma MulMonotone(a: int, b: int, c: int)
    requires a <= b && c >= 0
    ensures a * c <= b * c
  {
  }

  /** Only one count can satisfy the bounds of CarvedFramesFit. */
  lemma CarvingUnique(memorySize: int, pageSize: int, k: int)
    requires pageSize > 0 && memorySize >= 0
    requires k * pageSize <= memorySize < (k + 1) * pageSize
    ensures k == FramesCarved(memorySize, pageSize)
  {
    var n := FramesCarved(memorySize, pageSize);
    CarvedFramesFit(memorySize, pageSize);
    if k < n {
      MulMonotone(k + 1, n, pageSize);
    } else if n < k {
      MulMonotone(n + 1, k, pageSize);
    }
  }

  /** Euclidean division of a non-negative number by a positive one brackets the dividend. */
  lemma DivisionBounds(m: int, p: int)
    requires p > 0 && m >= 0
    ensures 0 <= m / p
    ensures (m / p) * p <= m < (m / p + 1) * p
  {
  }

  /**
   * Number of frames that a physical memory of `physicalMemorySize` bytes
   * provides with pages of `pageSize` bytes. The source divides with C's
   * truncating `/`, which agrees with Dafny's `/` on these non-negative
   * operands: the result is the number of whole frames that fit, and a
   * trailing part smaller than a page is not used.
   */
  function FrameCount(physicalMemorySize: Int32, pageSize: Int32): (n: Int32)
    requires pageSize > 0 && physicalMemorySize >= 0
    ensures n as int == FramesCarved(physicalMemorySize as int, pageSize as int)
    ensures 0 <= n <= physicalMemorySize
    ensures n as int * pageSize as int <= physicalMemorySize as int
    ensures physicalMemorySize as int < (n as int + 1) * pageSize as int
  {
    var m, p := physicalMemorySize as int, pageSize as int;
    DivisionBounds(m, p);
    CarvingUnique(m, p, m / p);
    CarvingAtMostMemory(m, p);
    physicalMemorySize / pageSize
  }

  /**
   * The memory left over by the frames is the remainder of the division, so
   * every byte is covered by a frame exactly when the memory size is a
   * multiple of the page size.
   */
  lemma FrameCountRemainder(physicalMemorySize: Int32, pageSize: Int32)
    requires pageSize > 0 && physicalMemorySize >= 0
    ensures physicalMemorySize as int - FrameCount(physicalMemorySize, pageSize) as int * pageSize as int
            == physicalMemorySize as int % pageSize as int
    ensures FrameCount(physicalMemorySize, pageSize) as int * pageSize as int == physicalMemorySize as int
            <==> physicalMemorySize as int % pageSize as int == 0
  {
  }

  /** A memory smaller than one page yields no frame at all, and only such a memory does. */
  lemma FrameCountZero(physicalMemorySize: Int32, pageSize: Int32)
    requires pageSize > 0 && physicalMemorySize >= 0
    ensures FrameCount(physicalMemorySize, pageSize) == 0 <==> physicalMemorySize < pageSize
  {
  }

  class Simulator {
    var currentTime: Int32
    var pageSize: Int32
    var physicalMemorySize: Int32
    var numProcesses: Int32
    /** The process table; `null` until a process is created. */
    var processes: array?<Process>
    var memory: PhysicalMemory
    var totalAccesses: Int32
    var pageFaults: Int32
    /** Replacement policy selector; 0 is the default. */
    var algorithm: Int32

    /**
     * The shape every later operation relies on: the frame count is the one
     * the sizes determine, both frame tables have that length and are
     * distinct arrays, and an absent process table holds no process.
     */
    ghost predicate Valid()
      reads this
    {
      pageSize > 0 && physicalMemorySize >= 0 &&
      memory.numFrames == FrameCount(physicalMemorySize, pageSize) &&
      memory.frames.Length == memory.numFrames as int &&
      memory.loadTimes.Length == memory.numFrames as int &&
      memory.frames != memory.loadTimes &&
      0 <= numProcesses &&
      (processes == null ==> numProcesses == 0)
    }

    /** Every frame is free and has no load time. */
    ghost predicate AllFramesFree()
      reads this, memory.frames, memory.loadTimes
    {
      (forall f :: 0 <= f < memory.frames.Length ==> memory.frames[f] == FreeFrame) &&
      (forall f :: 0 <= f < memory.loadTimes.Length ==> memory.loadTimes[f] == NotLoaded)
    }

    /**
     * Builds a simulator with the given page and physical memory sizes: the
     * clock and both counters at zero, no process, the default policy, and
     * a frame table in which every frame is free.
     */
    constructor (pageSize: Int32, physicalMemorySize: Int32)
      requires pageSize > 0 && physicalMemorySize >= 0
      ensures Valid()
      ensures currentTime == 0
      ensures this.pageSize == pageSize && this.physicalMemorySize == physicalMemorySize
      ensures numProcesses == 0 && processes == null
      ensures totalAccesses == 0 && pageFaults == 0
      ensures algorithm == 0
      ensures memory.numFrames == FrameCount(physicalMemorySize, pageSize)
      ensures fresh(memory.frames) && fresh(memory.loadTimes)
      ensures AllFramesFree()
    {
      currentTime := 0;
      this.pageSize := pageSize;
      this.physicalMemorySize := physicalMemorySize;
      numProcesses := 0;
      processes := null;
      totalAccesses := 0;
      pageFaults := 0;
      algorithm := 0;

      var numFrames := FrameCount(physicalMemorySize, pageSize);
      var frames := new Int32[numFrames as int];
      var loadTimes := new Int32[numFrames as int];
      memory := PhysicalMemory(numFrames, frames, loadTimes);
      new;

      var i := 0;
      while i < numFrames as int
        modifies frames, loadTimes
        invariant 0 <= i <= numFrames as int
        invariant forall f :: 0 <= f < i ==> frames[f] == FreeFrame
        invariant forall f :: 0 <= f < i ==> loadTimes[f] == NotLoaded
      {
        frames[i] := FreeFrame;
        loadTimes[i] := NotLoaded;
        i := i + 1;
      }
    }
  }
}
