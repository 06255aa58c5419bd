# Paging simulator: state layout and initialisation

This project models, in Dafny, the state of a demand-paging simulator and the
routine that creates it (`inicializar_simulador` in `paginacao.c`). The
simulator holds a page size, a physical memory size, a logical clock
(`tempo_atual`), counters of accesses and page faults, a replacement-policy
selector, a process table and a physical memory made of page-sized frames.
The physical memory keeps two tables with one entry per frame: which page
occupies the frame (`frames`) and when it was loaded (`tempo_carga`).

Mapping of the C records onto the model (module `Paging`, file `paging.dfy`):

- C `int` is the newtype `Int32` (range -2^31 .. 2^31-1).
- `Pagina` is the datatype `Page`, `Processo` the datatype `Process` (its
  `tabela_paginas` pointer is an `array?<Page>`, possibly `null`), `MemoriaFisica` the datatype
  `PhysicalMemory`. It is a value held inside the simulator, as in C. Its two
  pointers are `array<Int32>` references.
- `Simulador` is the class `Simulator`. Its constructor performs
  `inicializar_simulador`. The NULL `processos` pointer is a `null` field of
  type `array?<Process>`.
- The sentinel `-1` is named `FreeFrame` in the frame table and `NotLoaded` in
  the load-time table.

The frame count is computed by `FrameCount`, which divides the memory size by
the page size. Its contract ties the quotient to an independent definition,
`FramesCarved`: the number of page-sized frames carved one after another off
the start of memory until less than a page is left. The properties of the
count are proved about that definition by induction. On the non-negative
operands the model admits, C's truncating `/` and Dafny's `/` agree. A memory size that is not a multiple of the page
size loses the remainder, and a memory smaller than one page gives no frame.
The code performs no validation of its arguments, and the model follows the
code: a simulator with no frame, or with a memory that is not a multiple of the
page size, is not rejected.

## Model

| member | source | states |
|---|---|---|
| `Paging.FrameCount` | paginacao.c:50-51 | the frame count is the number of page-sized frames that can be carved one after another out of the memory (`FramesCarved`), it lies between 0 and the memory size, and `n * pageSize <= memorySize < (n + 1) * pageSize` |
| `Paging.CarvedFramesFit` | paginacao.c:50 | the carved frames fit in the memory, and the bytes left over are fewer than one page |
| `Paging.CarvingUnique` | paginacao.c:50 | any `k` with `k * pageSize <= memorySize < (k + 1) * pageSize` equals the carved count, so those bounds determine the frame count completely |
| `Paging.CarvingDropsRemainder` | paginacao.c:50 | a memory of `k` whole pages plus fewer than a page of extra bytes yields exactly `k` frames: the extra bytes are dropped |
| `Paging.CarvingAtMostMemory` | paginacao.c:50 | there are never more frames than bytes of memory |
| `Paging.FrameCountRemainder` | paginacao.c:50 | the memory not covered by frames is `memorySize % pageSize`, and the frames cover all of memory exactly when the memory size is a multiple of the page size |
| `Paging.FrameCountZero` | paginacao.c:50 | the frame count is zero if and only if the memory is smaller than one page |
| `Paging.Simulator.constructor` | paginacao.c:39-61 | the clock, the access counter and the fault counter are 0; the page and memory sizes are stored unchanged; there are no processes and the process table is null; the policy selector is 0; the frame count is `FrameCount(memorySize, pageSize)`; both frame tables are freshly allocated, distinct, of that length, and every entry of each is -1 |

## Left out

- Allocation failure: `malloc` is modelled as `new`, which always succeeds. The code does not check for NULL.
- Arguments out of range: the model requires a positive page size and a non-negative memory size. The code divides by the page size without checks, so a zero page size is undefined behaviour in C. With a positive page size, a negative memory size gives a frame count of at most 0; `malloc` then receives that count converted to `size_t` (a huge request, or 0), and the fill loop does not run.
- `Paging.Simulator.constructor`: the size computation `num_frames * sizeof(int)` passed to `malloc` is not modelled; only the resulting arrays are.
- The fields of `Page`: nothing in paginacao.c reads or writes any `Pagina` field; `modified` and `referenced` are carried as plain fields with no behaviour.
- Page-fault handling, FIFO/LRU victim selection, address translation, process creation and statistics are not modelled; this model covers only the record types and `inicializar_simulador` (paginacao.c:4-61).
- Printing, the interactive choice of algorithm, the scripted driver and teardown (`free`) are I/O or glue and are not modelled.
