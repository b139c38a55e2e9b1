# Line seeker model

A Dafny model of the byte-level line seeker in `src/simd` of the editor. This
code moves a cursor, meaning an (offset, line index) pair, over an immutable
byte haystack:

- `lines_fwd` scans right and counts `'\n'` bytes until the line index reaches
  `line_stop` or the buffer ends. It returns the offset just past the newline
  that completed the target.
- `lines_bwd` scans left and lowers the line index on each newline.

Each direction has three parts, and the model keeps all three:

- a scalar fallback (the reference semantics);
- an AVX2 "skip-then-pinpoint" kernel, which commits whole 32-byte windows by
  their newline count and leaves the rest to the fallback;
- a memoising dispatch cell, a function pointer that starts as a resolver. On
  its first call the resolver probes the CPU, overwrites the cell with the
  chosen kernel and delegates to it.

Layout:

- `simd.dfy` (module `Simd`): the byte type, `Cursor`, newline counting
  `NlCount`, the comparison mask `Movemask` and its popcount `CountOnes`, and
  the `Kernel` values a cell can hold.
- `lines_fwd.dfy` (module `LinesFwd`) and `lines_bwd.dfy` (module `LinesBwd`):
  one module per source file.

Modelling choices:

- Every loop of the source is a `method` with a `while` loop. It is proved
  equal to a recursive specification function (`ScanFwd`, `ScanBwd`,
  `SkipBwd`, `ScanBwdFixed`), and the properties are lemmas about those
  functions.
- Pointers are indices into the `seq<u8>`. `CoordType` is an unbounded `int`.
- Each dispatch cell is a class whose `target` field the methods overwrite.
  The result of the CPU probe is a constant of the cell.

Main results:

- **Forward:** `LinesFwdAvx2` returns exactly what `LinesFwdFallback` returns,
  on every input.
- **Backward:** the two do **not** always agree as written.
  `BwdAvx2AgreesIff` pins down when they agree: exactly when no window boundary
  the kernel can reach leaves the line index equal to `line_stop`.

The model follows the code as written. Two places where the backward code
does not do what its own source promises:

- The doc comment of `lines_bwd` (src/simd/lines_bwd.rs:8-12) promises the
  offset of the `line_stop`-th line and the line index at that offset. For
  `"a\nbb\nccc\n"`, offset 9, line 3, target 1, the code returns `(5, 1)`.
  Two newlines come before offset 5, so the line index there is 2, not the
  reported 1; line 1 starts at offset 2 (`ScanBwdExample`).
- The fallback's guard (src/simd/lines_bwd.rs:52) makes it a no-op when
  `line <= line_stop`. The AVX2 kernel has no such guard
  (src/simd/lines_bwd.rs:102), so it can move when `line == line_stop`: when
  at least 32 bytes remain and the top 32-byte window holds no newline, its
  count leaves `line2 == line_stop`, the `line2 < line_stop` test at
  src/simd/lines_bwd.rs:111 does not break, and the window is committed
  (`BwdAvx2Counterexample`). A window holding a newline takes that break
  instead, and the kernel then answers as the fallback does
  (`BwdAvx2KeepsOnNewline`).

Both points are recorded under Findings.

## Model

| member | source | states |
|---|---|---|
| `Simd.Chosen` | src/simd/lines_fwd.rs:84 | the resolver stores the AVX2 kernel exactly when the probe reports AVX2, and never stores itself |
| `Simd.CountOnesMovemask` | src/simd/lines_fwd.rs:108-111 | the `count_ones` of the `cmpeq`/`movemask` result equals the number of `'\n'` bytes in the window |
| `Simd.Movemask` | src/simd/lines_fwd.rs:108-110 | the `cmpeq`/`movemask` result of a window has one bit per byte, so a 32-byte window's mask fits the 32 bits the intrinsic returns |
| `Simd.CountOnes` | src/simd/lines_fwd.rs:111 | `count_ones` of a mask is at most the mask's value, and is nonzero for a nonzero mask |
| `Simd.WindowCount` | src/simd/lines_bwd.rs:106-109 | the lane count of a 32-byte window is its newline count and at most 32 |
| `LinesFwd.ScanFwd` | src/simd/lines_fwd.rs:52-66 | the fallback's scan, as a function; its offset lies in `[beg, end]` |
| `LinesFwd.ScanFwdIsResult` | src/simd/lines_fwd.rs:53-65 | the fallback's result meets the declarative characterisation `IsFwdResult`: no move if `line >= line_stop`, otherwise the shortest prefix that completes the target or exhausts the range, with the line advanced by its newline count |
| `LinesFwd.FwdResultUnique` | src/simd/lines_fwd.rs:8-12 | the declarative characterisation admits only one cursor, so every implementation meeting it agrees with the fallback |
| `LinesFwd.ScanFwdNoOp` | src/simd/lines_fwd.rs:53 | if `line >= line_stop`, the result is the start position with the line unchanged |
| `LinesFwd.ScanFwdCounts` | src/simd/lines_fwd.rs:54-65 | the returned offset lies in `[start, end]`, and `line_out - line_in` is the number of newlines in `[start, offset_out)` |
| `LinesFwd.ScanFwdOutcome` | src/simd/lines_fwd.rs:54-63 | when `line_in < line_stop`, then `line_out <= line_stop` (no overshoot); stopping at the target means the byte before the offset is `'\n'`; falling short means the range was exhausted |
| `LinesFwd.ScanFwdFirst` | src/simd/lines_fwd.rs:57-59 | no shorter prefix before the returned offset already holds `line_stop - line_in` newlines, so the scan stops at the first completing newline |
| `LinesFwd.ScanFwdMonotone` | src/simd/lines_fwd.rs:53-65 | a larger `line_stop` never gives a smaller returned line or offset |
| `LinesFwd.ScanFwdSkip` | src/simd/lines_fwd.rs:111-119 | a stretch whose newlines keep the line below `line_stop` can be jumped over with the line advanced by its count, giving the same answer |
| `LinesFwd.ScanFwdExample` | src/simd/lines_fwd.rs:8-12 | `"a\nbb\nccc\n"` from `(0, 0)` to line 2 gives `(5, 2)` |
| `LinesFwd.ScanFwdNoNewlines` | src/simd/lines_fwd.rs:54-65 | in a range without newlines, an unmet target gives `(end, line)` |
| `LinesFwd.LinesFwdFallback` | src/simd/lines_fwd.rs:46-67 | the byte loop with its `break` returns `ScanFwd` |
| `LinesFwd.LinesFwdAvx2` | src/simd/lines_fwd.rs:91-125 | the window loop reads only windows inside `[beg, end)`, commits only windows with `line + count < line_stop`, and the kernel returns exactly the fallback's result |
| `LinesFwd.RunKernel` | src/simd/lines_fwd.rs:84-86 | a resolved kernel, AVX2 or fallback, answers as the fallback does |
| `LinesFwd.LinesFwdDispatch.constructor` | src/simd/lines_fwd.rs:70-75 | the cell starts out pointing at the resolver |
| `LinesFwd.LinesFwdDispatch.Resolve` | src/simd/lines_fwd.rs:78-87 | the resolver overwrites the cell with the probe's choice and returns that kernel's result |
| `LinesFwd.LinesFwdDispatch.Invoke` | src/simd/lines_fwd.rs:36 | a call through the cell leaves it resolved to the probe's choice; an already resolved cell is left unchanged; every call's result is the fallback's |
| `LinesFwd.LinesFwdRaw` | src/simd/lines_fwd.rs:29-43 | the raw entry point forwards to the cell and keeps its guarantees |
| `LinesFwd.LinesFwd` | src/simd/lines_fwd.rs:13-26 | the public seek returns `SeekFwd`: it starts at `min(offset, len)`, scans to the end of the haystack, and answers as the fallback does |
| `LinesFwd.SeekFwdClamped` | src/simd/lines_fwd.rs:22 | the result lies between the clamped offset and `len`; a satisfied target returns `(min(offset, len), line)` |
| `LinesBwd.ScanBwd` | src/simd/lines_bwd.rs:51-65 | the fallback's scan as written, as a function; its offset lies in `[beg, end]` |
| `LinesBwd.ScanBwdNoOp` | src/simd/lines_bwd.rs:52 | if `line <= line_stop`, the fallback returns `(end, line)` unchanged |
| `LinesBwd.ScanBwdOutcome` | src/simd/lines_bwd.rs:52-64 | when `line_in > line_stop`, the offset lies in `[beg, end]` and `line_out >= line_stop`. On a stop, `line_out == line_stop`, the byte before the offset is `'\n'`, and `line_in - line_out` counts the newlines of `[offset_out - 1, end)`. On exhaustion, the offset is `beg`, `line_out > line_stop`, and the drop counts all newlines of `[beg, end)` |
| `LinesBwd.ScanBwdFirst` | src/simd/lines_bwd.rs:53-62 | at every position from the result up to `end`, the newlines to its right leave the line above `line_stop`, so the scan stops at the first completing newline from the right |
| `LinesBwd.ScanBwdSkip` | src/simd/lines_bwd.rs:53-62 | a stretch whose newlines keep the line strictly above `line_stop` can be jumped over, giving the same answer |
| `LinesBwd.ScanBwdStopsAbove` | src/simd/lines_bwd.rs:55-59 | if the newlines right of `p` already bring the line down to `line_stop`, the fallback stops strictly above `p`, with line `line_stop` |
| `LinesBwd.ScanBwdExample` | src/simd/lines_bwd.rs:55-59 | `"a\nbb\nccc\n"` from `(9, 3)` to line 1 gives `(5, 1)`, and two newlines precede offset 5, so the reported line 1 is not the line at that offset |
| `LinesBwd.SkipBwd` | src/simd/lines_bwd.rs:102-121 | the window phase ends between `beg` and its starting end |
| `LinesBwd.ScanBwdAvx2` | src/simd/lines_bwd.rs:90-126 | the AVX2 kernel as written (window phase, then fallback), as a function; its offset lies in `[beg, end]` |
| `LinesBwd.SkipBwdShape` | src/simd/lines_bwd.rs:109-118 | the window phase moves down in whole windows without passing `beg`, lowers the line by exactly the newlines skipped, and leaves it `>= line_stop` once a window is committed |
| `LinesBwd.LandsOnStopShift` | src/simd/lines_bwd.rs:115-116 | after the top window is committed, a landing boundary further down is still a landing boundary from the original end |
| `LinesBwd.SkipBwdAgrees` | src/simd/lines_bwd.rs:109-124 | when `line > line_stop` and no boundary lands on `line_stop`, the window phase followed by the fallback gives the fallback's answer |
| `LinesBwd.SkipBwdPassesLanding` | src/simd/lines_bwd.rs:111-116 | the window phase commits every window down to a landing boundary, because `line2 == line_stop` passes the `line2 < line_stop` test |
| `LinesBwd.BwdAvx2AgreesIff` | src/simd/lines_bwd.rs:90-126 | the AVX2 kernel as written returns the fallback's result if and only if no reachable window boundary leaves the line exactly at `line_stop` |
| `LinesBwd.BwdAvx2Counterexample` | src/simd/lines_bwd.rs:111 | 32 newline-free bytes, offset 32, line 0, target 0: the fallback gives `(32, 0)` and the kernel gives `(0, 0)` |
| `LinesBwd.BwdAvx2KeepsOnNewline` | src/simd/lines_bwd.rs:109-113 | 32 newlines, offset 32, line 0, target 0: the first window's count takes the line below `line_stop`, the kernel breaks before committing, and both kernels give `(32, 0)` |
| `LinesBwd.ScanBwdFixed` | src/simd/lines_bwd.rs:51-65 | the fallback with the test moved before the decrement and the guard `line >= line_stop`, as a function; its offset lies in `[beg, end]` |
| `LinesBwd.ScanBwdFixedOutcome` | src/simd/lines_bwd.rs:8-12 | the corrected fallback keeps the cursor consistent, so the reported line is the line index at the returned offset: the line drops by exactly the newlines of `[offset_out, end)`, and the result is the start of line `line_stop` unless the range ran out |
| `LinesBwd.ScanBwdFixedSkip` | src/simd/lines_bwd.rs:115-116 | for the corrected fallback, a stretch whose newlines keep the line `>= line_stop` can be jumped over |
| `LinesBwd.BwdAvx2MatchesFixed` | src/simd/lines_bwd.rs:102-124 | the window phase as written, followed by the corrected fallback, gives the corrected fallback's answer on every input |
| `LinesBwd.ScanBwdFixedExample` | src/simd/lines_bwd.rs:8-12 | the corrected fallback gives `(2, 1)` on `"a\nbb\nccc\n"` from `(9, 3)` to line 1 |
| `LinesBwd.LinesBwdFallback` | src/simd/lines_bwd.rs:45-66 | the byte loop as written, which decrements before testing, returns `ScanBwd` |
| `LinesBwd.LinesBwdFallbackFixed` | src/simd/lines_bwd.rs:45-66 | the byte loop with the test moved before the decrement returns `ScanBwdFixed`; the offset stays in `[beg, end]`, and the line drops by the newlines of `[offset_out, end)` |
| `LinesBwd.Avx2Windows` | src/simd/lines_bwd.rs:102-121 | the window loop loads only `[end-32, end)` above `beg` and stops before fewer than 32 bytes remain; it returns `SkipBwd` with the same shape guarantees `SkipBwdShape` states |
| `LinesBwd.LinesBwdAvx2` | src/simd/lines_bwd.rs:90-126 | the kernel as written returns window phase plus fallback, and equals the fallback exactly when no boundary lands on `line_stop` |
| `LinesBwd.LinesBwdAvx2Fixed` | src/simd/lines_bwd.rs:90-126 | the same window loop, tailed by the corrected fallback, returns exactly the corrected fallback's result |
| `LinesBwd.RunKernel` | src/simd/lines_bwd.rs:83-85 | a resolved kernel returns the result of the kernel it names |
| `LinesBwd.LinesBwdDispatch.constructor` | src/simd/lines_bwd.rs:69-74 | the cell starts out pointing at the resolver |
| `LinesBwd.LinesBwdDispatch.Resolve` | src/simd/lines_bwd.rs:77-86 | the resolver overwrites the cell with the probe's choice and returns that kernel's result |
| `LinesBwd.LinesBwdDispatch.Invoke` | src/simd/lines_bwd.rs:35 | the cell is resolved once from the probe; later calls go straight to the stored kernel and leave the cell unchanged |
| `LinesBwd.LinesBwdRaw` | src/simd/lines_bwd.rs:28-42 | the raw entry point forwards to the cell |
| `LinesBwd.LinesBwd` | src/simd/lines_bwd.rs:13-25 | the public seek scans `[0, min(offset, len))`, returns the stored kernel's result, and never moves right of the clamped offset |

## Left out

- NEON kernels `lines_fwd_neon` and `lines_bwd_neon`: they are unfinished in
  the source. They have the wrong arity, loops without an exit or a
  reduction, and fallback calls with missing arguments, so they have no
  meaning to model.
- The AVX2 intrinsics are abstracted. A window load plus `cmpeq`/`movemask`
  becomes `Movemask` over the 32 bytes, and `count_ones` becomes `CountOnes`.
- `is_x86_feature_detected!` becomes the constant `avx2Detected` of each
  dispatch cell.
- `cfg(target_arch)` selection is not modelled. `LinesFwdRaw` models the
  x86-64 build, the only one with a forward dispatch cell; a 32-bit x86 build
  of `lines_fwd_raw` calls the fallback directly. `LinesBwdRaw` models the x86
  and x86-64 builds, which both go through the backward dispatch cell. The aarch64 branch
  calls the unfinished NEON kernels. The branch for other targets calls the
  fallback directly; the fallback is modelled, but that branch is not.
- The unsynchronised `static mut` write is modelled as a sequential field
  update. Concurrent first calls are not modelled.
- Raw pointers and `offset_from_unsigned` become indices. Because the
  haystack start is index 0, the pointer difference is the index itself.
- `CoordType` (`isize`) is an unbounded `int`. Overflow of the line index is not modelled.
- `src/simd/mod.rs` only declares and re-exports modules. `memchr2` and
  `memset` are not part of this model.
- The dispatch cells and the public entry points use the backward kernels
  as written. The corrected fallback is modelled alongside them and is used
  by `LinesBwdAvx2Fixed`. It is not wired into the cell.

## Findings

| source | as written | input that shows it | evidently intended | confidence | as-written member | corrected member |
|---|---|---|---|---|---|---|
| src/simd/lines_bwd.rs:52-59 | the fallback decrements `line` and then stops when it equals `line_stop`, leaving the offset just past that newline. The reported line then counts a newline that lies left of the offset | `"a\nbb\nccc\n"`, offset 9, line 3, target 1 gives `(5, 1)`, but offset 5 is on line 2 | test `line == line_stop` before decrementing, with the guard `line >= line_stop`. This gives `(2, 1)`, the start of line 1, and keeps `line_in - line_out` equal to the newlines of `[offset_out, end)` | medium, not executed | `LinesBwd.ScanBwdExample` | `LinesBwd.ScanBwdFixedExample` |
| src/simd/lines_bwd.rs:111 | the AVX2 kernel commits a window whose count lands exactly on `line_stop`, where the fallback as written stops inside the window or does not move at all | 32 bytes without a newline, offset 32, line 0, target 0: the kernel gives `(0, 0)` and the fallback gives `(32, 0)` | kernel and fallback agree on every input. With the corrected fallback, the `<` test is exactly right | medium, not executed | `LinesBwd.BwdAvx2Counterexample` | `LinesBwd.LinesBwdAvx2Fixed` |

The corrected fallback is not a no-op when `line == line_stop`. In that case
it moves back to the start of the current line, as the doc comment "at the
start of the next line" of `lines_bwd` suggests.
