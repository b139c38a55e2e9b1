/** The forward line seeker: starting at an offset with a known line index,
    scan right counting newlines until the target line index is reached or
    the buffer ends, and return the offset just past the completing newline. */
module LinesFwd {
  import opened Simd

  // ---------------------------------------------------------------------
  // Reference semantics
  // ---------------------------------------------------------------------

  /** What the scalar fallback computes over h[beg..end]: nothing when `line`
      has already reached `stop`, otherwise one byte at a time, counting
      newlines, until the count reaches `stop` or the range is exhausted.
      (Inside the loop `line` never passes `stop`, since it rises by one.) */
  function ScanFwd(h: seq<u8>, beg: nat, end: nat, line: int, stop: int): (r: Cursor)
    requires beg <= end <= |h|
    ensures beg <= r.offset <= end
    decreases end - beg
  {
    if line >= stop || beg == end then Cursor(beg, line)
    else ScanFwd(h, beg + 1, end, line + IsNl(h[beg]), stop)
  }

  /** The answer a forward seek must give, stated without any scan: no move
      when the target is already reached; otherwise the shortest prefix of
      h[beg..] that either completes the target line or exhausts the range,
      with the line index advanced by the newlines it holds. */
  ghost predicate IsFwdResult(h: seq<u8>, beg: nat, end: nat, line: int, stop: int, r: Cursor)
    requires beg <= end <= |h|
  {
    if line >= stop then r == Cursor(beg, line)
    else
      && beg <= r.offset <= end
      && r.line == line + NlCount(h, beg, r.offset)
      && (r.line == stop || r.offset == end)
      && forall k :: beg <= k < r.offset ==> line + NlCount(h, beg, k) < stop
  }

  /** The fallback's result meets the declarative description. */
  lemma {:induction false} ScanFwdIsResult(h: seq<u8>, beg: nat, end: nat, line: int, stop: int)
    requires beg <= end <= |h|
    ensures IsFwdResult(h, beg, end, line, stop, ScanFwd(h, beg, end, line, stop))
    decreases end - beg
  {
    if line < stop && beg < end {
      var line' := line + IsNl(h[beg]);
      var r := ScanFwd(h, beg + 1, end, line', stop);
      ScanFwdIsResult(h, beg + 1, end, line', stop);
      if line' >= stop {
        assert r == Cursor(beg + 1, line');
        assert NlCount(h, beg, beg + 1) == IsNl(h[beg]);
      } else {
        forall k | beg <= k < r.offset
          ensures line + NlCount(h, beg, k) < stop
        {
          if k > beg {
            assert line + NlCount(h, beg, k) == line' + NlCount(h, beg + 1, k);
          }
        }
      }
    }
  }

  /** The declarative description admits exactly one answer, so any
      implementation meeting it returns what the fallback returns. */
  lemma FwdResultUnique(h: seq<u8>, beg: nat, end: nat, line: int, stop: int, r1: Cursor, r2: Cursor)
    requires beg <= end <= |h|
    requires IsFwdResult(h, beg, end, line, stop, r1)
    requires IsFwdResult(h, beg, end, line, stop, r2)
    ensures r1 == r2
  {
  }

  /** No-op law: once `line >= stop` the seek returns its start unchanged. */
  lemma ScanFwdNoOp(h: seq<u8>, beg: nat, end: nat, line: int, stop: int)
    requires beg <= end <= |h|
    requires line >= stop
    ensures ScanFwd(h, beg, end, line, stop) == Cursor(beg, line)
  {
  }

  /** The result lies in [beg, end] and its line index has advanced by exactly
      the newlines it scanned. */
  lemma ScanFwdCounts(h: seq<u8>, beg: nat, end: nat, line: int, stop: int)
    requires beg <= end <= |h|
    ensures var r := ScanFwd(h, beg, end, line, stop);
      && beg <= r.offset <= end
      && r.line - line == NlCount(h, beg, r.offset)
  {
    ScanFwdIsResult(h, beg, end, line, stop);
  }

  /** A seek with work to do either stops with the target line just past a
      newline, or runs out of buffer short of the target; it never overshoots. */
  lemma ScanFwdOutcome(h: seq<u8>, beg: nat, end: nat, line: int, stop: int)
    requires beg <= end <= |h|
    requires line < stop
    ensures var r := ScanFwd(h, beg, end, line, stop);
      && beg <= r.offset <= end
      && r.line <= stop
      && (r.line == stop ==> beg < r.offset && h[r.offset - 1] == NEWLINE)
      && (r.line < stop ==> r.offset == end)
  {
    var r := ScanFwd(h, beg, end, line, stop);
    ScanFwdIsResult(h, beg, end, line, stop);
    if r.offset > beg {
      assert line + NlCount(h, beg, r.offset - 1) < stop;
      NlCountLast(h, beg, r.offset);
    }
  }

  /** The seek stops at the FIRST newline that completes the target: no
      shorter prefix already holds `stop - line` newlines. */
  lemma ScanFwdFirst(h: seq<u8>, beg: nat, end: nat, line: int, stop: int, k: nat)
    requires beg <= end <= |h|
    requires line < stop
    requires beg <= k <= end && k < ScanFwd(h, beg, end, line, stop).offset
    ensures NlCount(h, beg, k) < stop - line
  {
    ScanFwdIsResult(h, beg, end, line, stop);
  }

  /** Seeking to a later target line never yields an earlier line or offset. */
  lemma {:induction false} ScanFwdMonotone(h: seq<u8>, beg: nat, end: nat, line: int, stop1: int, stop2: int)
    requires beg <= end <= |h|
    requires stop1 <= stop2
    ensures ScanFwd(h, beg, end, line, stop1).line <= ScanFwd(h, beg, end, line, stop2).line
    ensures ScanFwd(h, beg, end, line, stop1).offset <= ScanFwd(h, beg, end, line, stop2).offset
    decreases end - beg
  {
    if line >= stop1 {
      ScanFwdCounts(h, beg, end, line, stop2);
    } else if beg < end {
      ScanFwdMonotone(h, beg + 1, end, line + IsNl(h[beg]), stop1, stop2);
    }
  }

  /** A stretch h[beg..mid] whose newlines cannot reach `stop` is passed over
      wholesale: scanning it byte by byte lands in the same state as jumping
      over it with the line index advanced by its count. */
  lemma {:induction false} ScanFwdSkip(h: seq<u8>, beg: nat, mid: nat, end: nat, line: int, stop: int)
    requires beg <= mid <= end <= |h|
    requires line + NlCount(h, beg, mid) < stop
    ensures ScanFwd(h, beg, end, line, stop) == ScanFwd(h, mid, end, line + NlCount(h, beg, mid), stop)
    decreases mid - beg
  {
    if beg < mid {
      ScanFwdSkip(h, beg + 1, mid, end, line + IsNl(h[beg]), stop);
    }
  }

  /** The worked example: in "a\nbb\nccc\n", seeking from (0, 0) to line 2
      ends just past the second newline. */
  lemma ScanFwdExample()
    ensures ScanFwd([97, 10, 98, 98, 10, 99, 99, 99, 10], 0, 9, 0, 2) == Cursor(5, 2)
  {
    var h: seq<u8> := [97, 10, 98, 98, 10, 99, 99, 99, 10];
    assert ScanFwd(h, 2, 9, 1, 2) == ScanFwd(h, 5, 9, 2, 2);
  }

  /** A buffer without newlines cannot advance the line index: the seek runs
      to its end. */
  lemma ScanFwdNoNewlines(h: seq<u8>, beg: nat, end: nat, line: int, stop: int)
    requires beg <= end <= |h|
    requires forall i :: beg <= i < end ==> h[i] != NEWLINE
    requires line < stop
    ensures ScanFwd(h, beg, end, line, stop) == Cursor(end, line)
  {
    NlCountNone(h, beg, end);
    ScanFwdOutcome(h, beg, end, line, stop);
    ScanFwdCounts(h, beg, end, line, stop);
  }

  // ---------------------------------------------------------------------
  // Kernels
  // ---------------------------------------------------------------------

  /** `lines_fwd_fallback`: the byte-at-a-time reference scanner. */
  method LinesFwdFallback(h: seq<u8>, beg0: nat, end: nat, line0: int, stop: int) returns (r: Cursor)
    requires beg0 <= end <= |h|
    ensures r == ScanFwd(h, beg0, end, line0, stop)
  {
    var beg, line := beg0, line0;
    if line < stop {
      while beg != end
        invariant beg0 <= beg <= end
        invariant line < stop
        invariant ScanFwd(h, beg, end, line, stop) == ScanFwd(h, beg0, end, line0, stop)
        decreases end - beg
      {
        var c := h[beg];
        beg := beg + 1;
        if c == NEWLINE {
          line := line + 1;
          if line == stop {
            break;
          }
        }
      }
    }
    r := Cursor(beg, line);
  }

  /** `lines_fwd_avx2`: skip-then-pinpoint. A 32-byte window is committed only
      when its newline count keeps the line index below `stop`; the rest is
      left to the fallback. Its result is exactly the fallback's. */
  method LinesFwdAvx2(h: seq<u8>, beg0: nat, end: nat, line0: int, stop: int) returns (r: Cursor)
    requires beg0 <= end <= |h|
    ensures r == ScanFwd(h, beg0, end, line0, stop)
  {
    var beg, line := beg0, line0;
    var remaining: nat := end - beg;
    if line < stop && remaining >= WINDOW {
      while remaining >= WINDOW
        invariant beg0 <= beg && beg + remaining == end
        invariant line - line0 == NlCount(h, beg0, beg)
        invariant ScanFwd(h, beg, end, line, stop) == ScanFwd(h, beg0, end, line0, stop)
        decreases remaining
      {
        // the load reads h[beg..beg + 32], wholly inside [beg0, end)
        assert beg0 <= beg && beg + WINDOW <= end;
        var line2 := line + WindowCount(h, beg);
        if line2 >= stop {
          break;
        }
        ScanFwdSkip(h, beg, beg + WINDOW, end, line, stop);
        NlCountSplit(h, beg0, beg, beg + WINDOW);
        beg := beg + WINDOW;
        remaining := remaining - WINDOW;
        line := line2;
      }
    }
    r := LinesFwdFallback(h, beg, end, line, stop);
  }

  /** Runs a resolved kernel. */
  method RunKernel(k: Kernel, h: seq<u8>, beg: nat, end: nat, line: int, stop: int) returns (r: Cursor)
    requires k != Resolver
    requires beg <= end <= |h|
    ensures r == ScanFwd(h, beg, end, line, stop)
  {
    if k == Avx2 {
      r := LinesFwdAvx2(h, beg, end, line, stop);
    } else {
      r := LinesFwdFallback(h, beg, end, line, stop);
    }
  }

  // ---------------------------------------------------------------------
  // Dispatch
  // ---------------------------------------------------------------------

  /** The `LINES_FWD_DISPATCH` cell: a function pointer that starts out as the
      resolver `lines_fwd_dispatch` and, after the first call, holds the
      kernel the CPU probe chose. The probe `is_x86_feature_detected!("avx2")`
      depends only on the hardware, so it is a constant of the cell. */
  class LinesFwdDispatch {
    var target: Kernel
    const avx2Detected: bool

    /** The cell either still holds the resolver or holds the probe's choice. */
    ghost predicate Valid()
      reads this
    {
      target == Resolver || target == Chosen(avx2Detected)
    }

    /** The static initialiser: the cell points at the resolver. */
    constructor (avx2Detected: bool)
      ensures Valid()
      ensures target == Resolver && this.avx2Detected == avx2Detected
    {
      target := Resolver;
      this.avx2Detected := avx2Detected;
    }

    /** `lines_fwd_dispatch`: probe, overwrite the cell with the chosen
        kernel, then delegate to it. */
    method Resolve(h: seq<u8>, beg: nat, end: nat, line: int, stop: int) returns (r: Cursor)
      requires beg <= end <= |h|
      modifies this
      ensures target == Chosen(avx2Detected)
      ensures r == ScanFwd(h, beg, end, line, stop)
    {
      var func := Chosen(avx2Detected);
      target := func;
      r := RunKernel(func, h, beg, end, line, stop);
    }

    /** A call through the cell. The first call resolves it; a resolved cell
        is used, and left, as it is. Every call answers as the fallback would. */
    method Invoke(h: seq<u8>, beg: nat, end: nat, line: int, stop: int) returns (r: Cursor)
      requires Valid()
      requires beg <= end <= |h|
      modifies this
      ensures Valid()
      ensures target == Chosen(avx2Detected)
      ensures old(target) != Resolver ==> target == old(target)
      ensures r == ScanFwd(h, beg, end, line, stop)
    {
      if target == Resolver {
        r := Resolve(h, beg, end, line, stop);
      } else {
        r := RunKernel(target, h, beg, end, line, stop);
      }
    }
  }

  // ---------------------------------------------------------------------
  // Entry points
  // ---------------------------------------------------------------------

  /** `lines_fwd_raw`: the x86-64 build forwards to the dispatch cell. */
  method LinesFwdRaw(cell: LinesFwdDispatch, h: seq<u8>, beg: nat, end: nat, line: int, stop: int)
    returns (r: Cursor)
    requires cell.Valid()
    requires beg <= end <= |h|
    modifies cell
    ensures cell.Valid() && cell.target == Chosen(cell.avx2Detected)
    ensures r == ScanFwd(h, beg, end, line, stop)
  {
    r := cell.Invoke(h, beg, end, line, stop);
  }

  /** What `lines_fwd` answers, as a function of its arguments. */
  function SeekFwd(h: seq<u8>, offset: nat, line: int, stop: int): Cursor
  {
    ScanFwd(h, Min(offset, |h|), |h|, line, stop)
  }

  /** `lines_fwd`: clamp the offset to the haystack, then seek to the end of it. */
  method LinesFwd(cell: LinesFwdDispatch, h: seq<u8>, offset: nat, line: int, stop: int)
    returns (r: Cursor)
    requires cell.Valid()
    modifies cell
    ensures cell.Valid() && cell.target == Chosen(cell.avx2Detected)
    ensures r == SeekFwd(h, offset, line, stop)
  {
    r := LinesFwdRaw(cell, h, Min(offset, |h|), |h|, line, stop);
  }

  /** The public seek starts at the clamped offset, and a satisfied target
      returns that clamped offset untouched. */
  lemma SeekFwdClamped(h: seq<u8>, offset: nat, line: int, stop: int)
    ensures Min(offset, |h|) <= SeekFwd(h, offset, line, stop).offset <= |h|
    ensures line >= stop ==> SeekFwd(h, offset, line, stop) == Cursor(Min(offset, |h|), line)
  {
    ScanFwdCounts(h, Min(offset, |h|), |h|, line, stop);
  }
}
