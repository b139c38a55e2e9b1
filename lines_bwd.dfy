/** The backward line seeker: starting at an offset with a known line index,
    scan left, taking one off the line index per newline, until the target
    line index is reached or the start of the range. */
module LinesBwd {
  import opened Simd

  // ---------------------------------------------------------------------
  // The scalar fallback as written
  // ---------------------------------------------------------------------

  /** What `lines_bwd_fallback` computes over h[beg..end]: nothing unless
      `line > stop`; otherwise step left byte by byte, and on a newline first
      decrement `line` and then stop if it equals `stop`, in which case the
      offset is left just past that newline. */
  function ScanBwd(h: seq<u8>, beg: nat, end: nat, line: int, stop: int): (r: Cursor)
    requires beg <= end <= |h|
    ensures beg <= r.offset <= end
    decreases end - beg
  {
    if line <= stop || end == beg then Cursor(end, line)
    else if h[end - 1] == NEWLINE && line - 1 == stop then Cursor(end, stop)
    else ScanBwd(h, beg, end - 1, line - IsNl(h[end - 1]), stop)
  }

  /** No-op law: a target at or above the current line leaves the cursor alone. */
  lemma ScanBwdNoOp(h: seq<u8>, beg: nat, end: nat, line: int, stop: int)
    requires beg <= end <= |h|
    requires line <= stop
    ensures ScanBwd(h, beg, end, line, stop) == Cursor(end, line)
  {
  }

  /** With work to do the fallback ends in one of two ways. Either it stops
      just past a newline, with the line index at `stop` and the drop in line
      index equal to the newlines of h[offset - 1..end], that newline
      included; or it exhausts the range, lands on `beg` still above `stop`,
      and the drop is the newline count of h[beg..end]. It never undershoots. */
  lemma {:induction false} ScanBwdOutcome(h: seq<u8>, beg: nat, end: nat, line: int, stop: int)
    requires beg <= end <= |h|
    requires line > stop
    ensures var r := ScanBwd(h, beg, end, line, stop);
      && beg <= r.offset <= end
      && r.line >= stop
      && (r.line == stop ==>
            && beg < r.offset
            && h[r.offset - 1] == NEWLINE
            && line - r.line == NlCount(h, r.offset - 1, end))
      && (r.line > stop ==>
            && r.offset == beg
            && line - r.line == NlCount(h, beg, end))
    decreases end - beg
  {
    if end > beg {
      NlCountLast(h, beg, end);
      if !(h[end - 1] == NEWLINE && line - 1 == stop) {
        var line' := line - IsNl(h[end - 1]);
        ScanBwdOutcome(h, beg, end - 1, line', stop);
        var r := ScanBwd(h, beg, end - 1, line', stop);
        if r.line == stop {
          NlCountLast(h, r.offset - 1, end);
        }
      } else {
        assert NlCount(h, end - 1, end) == 1;
      }
    }
  }

  /** The stop is the first newline from the right that brings the count to
      `stop`: at every offset from the result up to `end`, the newlines
      to the right leave the line index above `stop`. */
  lemma {:induction false} ScanBwdFirst(h: seq<u8>, beg: nat, end: nat, line: int, stop: int, k: nat)
    requires beg <= end <= |h|
    requires line > stop
    requires ScanBwd(h, beg, end, line, stop).offset <= k <= end
    ensures line - NlCount(h, k, end) > stop
    decreases end - beg
  {
    if k < end {
      NlCountLast(h, k, end);
      var line' := line - IsNl(h[end - 1]);
      ScanBwdFirst(h, beg, end - 1, line', stop, k);
    }
  }

  /** A stretch h[mid..end] whose newlines leave the line index above `stop`
      is passed over wholesale. */
  lemma {:induction false} ScanBwdSkip(h: seq<u8>, beg: nat, mid: nat, end: nat, line: int, stop: int)
    requires beg <= mid <= end <= |h|
    requires line - NlCount(h, mid, end) > stop
    ensures ScanBwd(h, beg, end, line, stop) == ScanBwd(h, beg, mid, line - NlCount(h, mid, end), stop)
    decreases end - mid
  {
    if mid < end {
      NlCountLast(h, mid, end);
      ScanBwdSkip(h, beg, mid, end - 1, line - IsNl(h[end - 1]), stop);
    }
  }

  /** If the newlines of h[p..end] already bring the line index down to
      `stop`, the fallback stops strictly above `p`. */
  lemma {:induction false} ScanBwdStopsAbove(h: seq<u8>, beg: nat, p: nat, end: nat, line: int, stop: int)
    requires beg <= p <= end <= |h|
    requires line > stop
    requires line - NlCount(h, p, end) <= stop
    ensures ScanBwd(h, beg, end, line, stop).offset > p
    ensures ScanBwd(h, beg, end, line, stop).line == stop
    decreases end - p
  {
    NlCountLast(h, p, end);
    if !(h[end - 1] == NEWLINE && line - 1 == stop) {
      ScanBwdStopsAbove(h, beg, p, end - 1, line - IsNl(h[end - 1]), stop);
    }
  }

  /** On "a\nbb\nccc\n" seeking from (9, 3) to line 1, the fallback stops
      just past the newline at index 4 while already reporting line 1,
      although two newlines precede offset 5. */
  lemma ScanBwdExample()
    ensures ScanBwd([97, 10, 98, 98, 10, 99, 99, 99, 10], 0, 9, 3, 1) == Cursor(5, 1)
    ensures NlCount([97, 10, 98, 98, 10, 99, 99, 99, 10], 0, 5) == 2
  {
    var h: seq<u8> := [97, 10, 98, 98, 10, 99, 99, 99, 10];
    assert ScanBwd(h, 0, 8, 2, 1) == ScanBwd(h, 0, 5, 2, 1);
    assert NlCount(h, 0, 5) == 2;
  }

  // ---------------------------------------------------------------------
  // The AVX2 window phase as written
  // ---------------------------------------------------------------------

  /** The window phase of `lines_bwd_avx2`: while a full window h[e - 32..e]
      lies above `beg`, take its newline count `c`; stop if `ln - c < stop`,
      otherwise commit it (`e -= 32`, `ln -= c`). */
  function SkipBwd(h: seq<u8>, beg: nat, e: nat, ln: int, stop: int): (s: Cursor)
    requires beg <= e <= |h|
    ensures beg <= s.offset <= e
    decreases e - beg
  {
    if e - beg < WINDOW then Cursor(e, ln)
    else
      var line2 := ln - NlCount(h, e - WINDOW, e);
      if line2 < stop then Cursor(e, ln)
      else SkipBwd(h, beg, e - WINDOW, line2, stop)
  }

  /** What `lines_bwd_avx2` computes: the window phase, then the fallback from
      wherever it left off. */
  function ScanBwdAvx2(h: seq<u8>, beg: nat, end: nat, line: int, stop: int): (r: Cursor)
    requires beg <= end <= |h|
    ensures beg <= r.offset <= end
  {
    var s := SkipBwd(h, beg, end, line, stop);
    ScanBwd(h, beg, s.offset, s.line, stop)
  }

  /** The window phase moves down by whole windows without passing `beg`;
      the line index drops by exactly the newlines skipped; and once a window
      has been committed the line index is still at least `stop`. */
  lemma {:induction false} SkipBwdShape(h: seq<u8>, beg: nat, e: nat, ln: int, stop: int)
    requires beg <= e <= |h|
    ensures var s := SkipBwd(h, beg, e, ln, stop);
      && beg <= s.offset <= e
      && (e - s.offset) % WINDOW == 0
      && ln - s.line == NlCount(h, s.offset, e)
      && (s.offset < e ==> s.line >= stop)
    decreases e - beg
  {
    if e - beg >= WINDOW {
      var line2 := ln - NlCount(h, e - WINDOW, e);
      if line2 >= stop {
        SkipBwdShape(h, beg, e - WINDOW, line2, stop);
        var s := SkipBwd(h, beg, e - WINDOW, line2, stop);
        NlCountSplit(h, s.offset, e - WINDOW, e);
      }
    }
  }

  /** Some window boundary `p` the AVX2 phase could reach from `end` (a whole
      number of windows below it, not below `beg`) has exactly `stop` as the
      line index left after the newlines of h[p..end]. */
  ghost predicate LandsOnStop(h: seq<u8>, beg: nat, end: nat, line: int, stop: int)
    requires beg <= end <= |h|
  {
    exists p :: beg <= p && p + WINDOW <= end && (end - p) % WINDOW == 0
      && line - NlCount(h, p, end) == stop
  }

  /** A landing boundary below the first window is still a landing boundary
      once that window is committed from the top. */
  lemma LandsOnStopShift(h: seq<u8>, beg: nat, e: nat, ln: int, stop: int)
    requires beg + WINDOW <= e <= |h|
    requires LandsOnStop(h, beg, e - WINDOW, ln - NlCount(h, e - WINDOW, e), stop)
    ensures LandsOnStop(h, beg, e, ln, stop)
  {
    var p :| beg <= p && p + WINDOW <= e - WINDOW && (e - WINDOW - p) % WINDOW == 0
      && ln - NlCount(h, e - WINDOW, e) - NlCount(h, p, e - WINDOW) == stop;
    NlCountSplit(h, p, e - WINDOW, e);
    assert (e - p) % WINDOW == 0;
  }

  /** Above `stop`, with no landing boundary, every committed window has the
      line index strictly above `stop` afterwards, so the fallback would have
      passed over it too. */
  lemma {:induction false} SkipBwdAgrees(h: seq<u8>, beg: nat, e: nat, ln: int, stop: int)
    requires beg <= e <= |h|
    requires ln > stop
    requires !LandsOnStop(h, beg, e, ln, stop)
    ensures ScanBwdAvx2(h, beg, e, ln, stop) == ScanBwd(h, beg, e, ln, stop)
    decreases e - beg
  {
    SkipBwdShape(h, beg, e, ln, stop);
    if e - beg >= WINDOW {
      var line2 := ln - NlCount(h, e - WINDOW, e);
      if line2 >= stop {
        assert line2 != stop;
        ScanBwdSkip(h, beg, e - WINDOW, e, ln, stop);
        if LandsOnStop(h, beg, e - WINDOW, line2, stop) {
          LandsOnStopShift(h, beg, e, ln, stop);
        }
        SkipBwdAgrees(h, beg, e - WINDOW, line2, stop);
      }
    }
  }

  /** When `p` is a landing boundary, the window phase commits every window
      down to `p` and ends at or below it. */
  lemma {:induction false} SkipBwdPassesLanding(h: seq<u8>, beg: nat, e: nat, ln: int, stop: int, p: nat)
    requires beg <= p && p + WINDOW <= e <= |h|
    requires (e - p) % WINDOW == 0
    requires ln - NlCount(h, p, e) == stop
    ensures SkipBwd(h, beg, e, ln, stop).offset <= p
    decreases e - beg
  {
    var line2 := ln - NlCount(h, e - WINDOW, e);
    NlCountSplit(h, p, e - WINDOW, e);
    assert line2 >= stop;
    if e - WINDOW > p {
      SkipBwdPassesLanding(h, beg, e - WINDOW, line2, stop, p);
    } else {
      SkipBwdShape(h, beg, e - WINDOW, line2, stop);
    }
  }

  /** The AVX2 kernel as written agrees with the fallback exactly when no
      window boundary lands on `stop`. A landing window passes the `line2 <
      line_stop` test and is committed, although the fallback would have
      stopped inside it (or, with `line == stop`, not moved at all). */
  lemma BwdAvx2AgreesIff(h: seq<u8>, beg: nat, end: nat, line: int, stop: int)
    requires beg <= end <= |h|
    ensures ScanBwdAvx2(h, beg, end, line, stop) == ScanBwd(h, beg, end, line, stop)
        <==> !LandsOnStop(h, beg, end, line, stop)
  {
    var s := SkipBwd(h, beg, end, line, stop);
    SkipBwdShape(h, beg, end, line, stop);
    if LandsOnStop(h, beg, end, line, stop) {
      var p :| beg <= p && p + WINDOW <= end && (end - p) % WINDOW == 0
        && line - NlCount(h, p, end) == stop;
      SkipBwdPassesLanding(h, beg, end, line, stop, p);
      if line > stop {
        ScanBwdStopsAbove(h, beg, p, end, line, stop);
      }
    } else if line > stop {
      SkipBwdAgrees(h, beg, end, line, stop);
    } else if end - beg >= WINDOW {
      if line == stop {
        assert line - NlCount(h, end - WINDOW, end) != stop;
      }
    }
  }

  /** The discrepancy on a concrete input: 32 bytes without a newline, seeking
      from (32, 0) to line 0. The fallback does not move; the AVX2 kernel
      commits the newline-free window and answers (0, 0). */
  lemma BwdAvx2Counterexample()
    ensures var h := seq(32, _ => 97 as u8);
      && ScanBwd(h, 0, 32, 0, 0) == Cursor(32, 0)
      && ScanBwdAvx2(h, 0, 32, 0, 0) == Cursor(0, 0)
  {
    var h := seq(32, _ => 97 as u8);
    NlCountNone(h, 0, 32);
    assert SkipBwd(h, 0, 32, 0, 0) == SkipBwd(h, 0, 0, 0, 0);
  }

  /** With `line == line_stop` the kernel stays put when the top window holds
      a newline: its count takes the line below `line_stop`, so the first test
      breaks before anything is committed. */
  lemma BwdAvx2KeepsOnNewline()
    ensures var h := seq(32, _ => NEWLINE);
      && ScanBwd(h, 0, 32, 0, 0) == Cursor(32, 0)
      && ScanBwdAvx2(h, 0, 32, 0, 0) == Cursor(32, 0)
  {
    var h := seq(32, _ => NEWLINE);
    assert NlCount(h, 0, 32) > 0 by {
      NlCountSplit(h, 0, 1, 32);
    }
  }

  // ---------------------------------------------------------------------
  // The fallback corrected
  // ---------------------------------------------------------------------

  /** The fallback with the stop test before the decrement and the guard
      `line >= stop`: on a newline, stop if the line index already is `stop`,
      otherwise decrement. It ends at the start of line `stop`. */
  function ScanBwdFixed(h: seq<u8>, beg: nat, end: nat, line: int, stop: int): (r: Cursor)
    requires beg <= end <= |h|
    ensures beg <= r.offset <= end
    decreases end - beg
  {
    if line < stop || end == beg then Cursor(end, line)
    else if h[end - 1] == NEWLINE && line == stop then Cursor(end, line)
    else ScanBwdFixed(h, beg, end - 1, line - IsNl(h[end - 1]), stop)
  }

  /** The corrected fallback keeps the cursor consistent: the line index drops
      by exactly the newlines of h[offset..end], and the result is the start of
      line `stop` (just past a newline) unless the range ran out first. */
  lemma {:induction false} ScanBwdFixedOutcome(h: seq<u8>, beg: nat, end: nat, line: int, stop: int)
    requires beg <= end <= |h|
    requires line >= stop
    ensures var r := ScanBwdFixed(h, beg, end, line, stop);
      && beg <= r.offset <= end
      && line - r.line == NlCount(h, r.offset, end)
      && r.line >= stop
      && (r.offset == beg || (h[r.offset - 1] == NEWLINE && r.line == stop))
    decreases end - beg
  {
    if end > beg && !(h[end - 1] == NEWLINE && line == stop) {
      var line' := line - IsNl(h[end - 1]);
      ScanBwdFixedOutcome(h, beg, end - 1, line', stop);
      var r := ScanBwdFixed(h, beg, end - 1, line', stop);
      NlCountLast(h, r.offset, end);
    }
  }

  /** Passing over a stretch whose newlines keep the line index at least `stop`. */
  lemma {:induction false} ScanBwdFixedSkip(h: seq<u8>, beg: nat, mid: nat, end: nat, line: int, stop: int)
    requires beg <= mid <= end <= |h|
    requires line - NlCount(h, mid, end) >= stop
    ensures ScanBwdFixed(h, beg, end, line, stop)
         == ScanBwdFixed(h, beg, mid, line - NlCount(h, mid, end), stop)
    decreases end - mid
  {
    if mid < end {
      NlCountLast(h, mid, end);
      ScanBwdFixedSkip(h, beg, mid, end - 1, line - IsNl(h[end - 1]), stop);
    }
  }

  /** The AVX2 window phase, as written, followed by the corrected fallback
      gives the corrected fallback's answer on every input. */
  lemma {:induction false} BwdAvx2MatchesFixed(h: seq<u8>, beg: nat, end: nat, line: int, stop: int)
    requires beg <= end <= |h|
    ensures var s := SkipBwd(h, beg, end, line, stop);
      ScanBwdFixed(h, beg, s.offset, s.line, stop) == ScanBwdFixed(h, beg, end, line, stop)
    decreases end - beg
  {
    SkipBwdShape(h, beg, end, line, stop);
    if end - beg >= WINDOW {
      var line2 := line - NlCount(h, end - WINDOW, end);
      if line2 >= stop {
        ScanBwdFixedSkip(h, beg, end - WINDOW, end, line, stop);
        BwdAvx2MatchesFixed(h, beg, end - WINDOW, line2, stop);
      }
    }
  }

  /** On "a\nbb\nccc\n" seeking from (9, 3) to line 1, the corrected fallback
      lands just past the first newline. */
  lemma ScanBwdFixedExample()
    ensures ScanBwdFixed([97, 10, 98, 98, 10, 99, 99, 99, 10], 0, 9, 3, 1) == Cursor(2, 1)
  {
    var h: seq<u8> := [97, 10, 98, 98, 10, 99, 99, 99, 10];
    assert ScanBwdFixed(h, 0, 8, 2, 1) == ScanBwdFixed(h, 0, 4, 1, 1);
  }

  // ---------------------------------------------------------------------
  // Kernels
  // ---------------------------------------------------------------------

  /** `lines_bwd_fallback` as written. */
  method LinesBwdFallback(h: seq<u8>, beg: nat, end0: nat, line0: int, stop: int) returns (r: Cursor)
    requires beg <= end0 <= |h|
    ensures r == ScanBwd(h, beg, end0, line0, stop)
  {
    var end, line := end0, line0;
    if line > stop {
      while end != beg
        invariant beg <= end <= end0
        invariant line > stop
        invariant ScanBwd(h, beg, end, line, stop) == ScanBwd(h, beg, end0, line0, stop)
        decreases end
      {
        var n := end - 1;
        if h[n] == NEWLINE {
          line := line - 1;
          if line == stop {
            break;
          }
        }
        end := n;
      }
    }
    r := Cursor(end, line);
  }

  /** The corrected fallback: test for the target before decrementing. */
  method LinesBwdFallbackFixed(h: seq<u8>, beg: nat, end0: nat, line0: int, stop: int) returns (r: Cursor)
    requires beg <= end0 <= |h|
    ensures r == ScanBwdFixed(h, beg, end0, line0, stop)
    ensures beg <= r.offset <= end0
    ensures line0 >= stop ==> line0 - r.line == NlCount(h, r.offset, end0)
  {
    var end, line := end0, line0;
    if line >= stop {
      while end != beg
        invariant beg <= end <= end0
        invariant line >= stop
        invariant ScanBwdFixed(h, beg, end, line, stop) == ScanBwdFixed(h, beg, end0, line0, stop)
        decreases end
      {
        var n := end - 1;
        if h[n] == NEWLINE {
          if line == stop {
            break;
          }
          line := line - 1;
        }
        end := n;
      }
      ScanBwdFixedOutcome(h, beg, end0, line0, stop);
    }
    r := Cursor(end, line);
  }

  /** The window loop of `lines_bwd_avx2`. It runs only when a full window
      fits above `beg`, loads h[end - 32..end] each round, and stops before
      fewer than 32 bytes would remain, so it never reads below `beg`. Each
      committed window lowers the line index by exactly its newline count and
      leaves it at least `stop`. */
  method Avx2Windows(h: seq<u8>, beg: nat, end0: nat, line0: int, stop: int) returns (s: Cursor)
    requires beg <= end0 <= |h|
    ensures s == SkipBwd(h, beg, end0, line0, stop)
    ensures beg <= s.offset <= end0 && (end0 - s.offset) % WINDOW == 0
    ensures line0 - s.line == NlCount(h, s.offset, end0)
    ensures s.offset < end0 ==> s.line >= stop
  {
    var end, line := end0, line0;
    if end - beg >= WINDOW {
      while true
        invariant beg + WINDOW <= end <= end0 && (end0 - end) % WINDOW == 0
        invariant line0 - line == NlCount(h, end, end0)
        invariant end < end0 ==> line >= stop
        invariant SkipBwd(h, beg, end, line, stop) == SkipBwd(h, beg, end0, line0, stop)
        decreases end
      {
        // the load reads h[end - 32..end], wholly inside [beg, end0)
        assert beg <= end - WINDOW && end <= end0;
        var line2 := line - WindowCount(h, end - WINDOW);
        if line2 < stop {
          assert SkipBwd(h, beg, end, line, stop) == Cursor(end, line);
          break;
        }
        NlCountSplit(h, end - WINDOW, end, end0);
        end := end - WINDOW;
        line := line2;
        if end - beg < WINDOW {
          assert SkipBwd(h, beg, end, line, stop) == Cursor(end, line);
          break;
        }
      }
    }
    assert SkipBwd(h, beg, end0, line0, stop) == Cursor(end, line);
    s := Cursor(end, line);
  }

  /** `lines_bwd_avx2` as written: the window loop, then the fallback. It
      agrees with the fallback exactly when no window boundary lands on `stop`. */
  method LinesBwdAvx2(h: seq<u8>, beg: nat, end: nat, line: int, stop: int) returns (r: Cursor)
    requires beg <= end <= |h|
    ensures r == ScanBwdAvx2(h, beg, end, line, stop)
    ensures r == ScanBwd(h, beg, end, line, stop) <==> !LandsOnStop(h, beg, end, line, stop)
  {
    var s := Avx2Windows(h, beg, end, line, stop);
    r := LinesBwdFallback(h, beg, s.offset, s.line, stop);
    BwdAvx2AgreesIff(h, beg, end, line, stop);
  }

  /** `lines_bwd_avx2` with the corrected fallback as its tail: the same
      window loop now gives exactly the corrected fallback's answer. */
  method LinesBwdAvx2Fixed(h: seq<u8>, beg: nat, end: nat, line: int, stop: int) returns (r: Cursor)
    requires beg <= end <= |h|
    ensures r == ScanBwdFixed(h, beg, end, line, stop)
  {
    var s := Avx2Windows(h, beg, end, line, stop);
    r := LinesBwdFallbackFixed(h, beg, s.offset, s.line, stop);
    BwdAvx2MatchesFixed(h, beg, end, line, stop);
  }

  /** What a resolved kernel answers. */
  function KernelResult(k: Kernel, h: seq<u8>, beg: nat, end: nat, line: int, stop: int): Cursor
    requires beg <= end <= |h|
  {
    if k == Avx2 then ScanBwdAvx2(h, beg, end, line, stop) else ScanBwd(h, beg, end, line, stop)
  }

  /** Runs a resolved kernel. */
  method RunKernel(k: Kernel, h: seq<u8>, beg: nat, end: nat, line: int, stop: int) returns (r: Cursor)
    requires k != Resolver
    requires beg <= end <= |h|
    ensures r == KernelResult(k, h, beg, end, line, stop)
  {
    if k == Avx2 {
      r := LinesBwdAvx2(h, beg, end, line, stop);
    } else {
      r := LinesBwdFallback(h, beg, end, line, stop);
    }
  }

  // ---------------------------------------------------------------------
  // Dispatch
  // ---------------------------------------------------------------------

  /** The `LINES_BWD_DISPATCH` cell: starts as the resolver
      `lines_bwd_dispatch`, then holds the kernel the AVX2 probe chose. */
  class LinesBwdDispatch {
    var target: Kernel
    const avx2Detected: bool

    ghost predicate Valid()
      reads this
    {
      target == Resolver || target == Chosen(avx2Detected)
    }

    constructor (avx2Detected: bool)
      ensures Valid()
      ensures target == Resolver && this.avx2Detected == avx2Detected
    {
      target := Resolver;
      this.avx2Detected := avx2Detected;
    }

    /** `lines_bwd_dispatch`: probe, overwrite the cell, delegate. */
    method Resolve(h: seq<u8>, beg: nat, end: nat, line: int, stop: int) returns (r: Cursor)
      requires beg <= end <= |h|
      modifies this
      ensures target == Chosen(avx2Detected)
      ensures r == KernelResult(target, h, beg, end, line, stop)
    {
      var func := Chosen(avx2Detected);
      target := func;
      r := RunKernel(func, h, beg, end, line, stop);
    }

    /** A call through the cell: the first call resolves it, later calls go
        straight to the stored kernel and leave the cell as it is. */
    method Invoke(h: seq<u8>, beg: nat, end: nat, line: int, stop: int) returns (r: Cursor)
      requires Valid()
      requires beg <= end <= |h|
      modifies this
      ensures Valid()
      ensures target == Chosen(avx2Detected)
      ensures old(target) != Resolver ==> target == old(target)
      ensures r == KernelResult(target, h, beg, end, line, stop)
    {
      if target == Resolver {
        r := Resolve(h, beg, end, line, stop);
      } else {
        r := RunKernel(target, h, beg, end, line, stop);
      }
    }
  }

  // ---------------------------------------------------------------------
  // Entry points
  // ---------------------------------------------------------------------

  /** `lines_bwd_raw`: x86 builds forward to the dispatch cell. */
  method LinesBwdRaw(cell: LinesBwdDispatch, h: seq<u8>, beg: nat, end: nat, line: int, stop: int)
    returns (r: Cursor)
    requires cell.Valid()
    requires beg <= end <= |h|
    modifies cell
    ensures cell.Valid() && cell.target == Chosen(cell.avx2Detected)
    ensures r == KernelResult(cell.target, h, beg, end, line, stop)
  {
    r := cell.Invoke(h, beg, end, line, stop);
  }

  /** `lines_bwd`: clamp the offset to the haystack and seek back toward its start. */
  method LinesBwd(cell: LinesBwdDispatch, h: seq<u8>, offset: nat, line: int, stop: int)
    returns (r: Cursor)
    requires cell.Valid()
    modifies cell
    ensures cell.Valid() && cell.target == Chosen(cell.avx2Detected)
    ensures r == KernelResult(cell.target, h, 0, Min(offset, |h|), line, stop)
    ensures r.offset <= Min(offset, |h|)
  {
    r := LinesBwdRaw(cell, h, 0, Min(offset, |h|), line, stop);
  }
}
