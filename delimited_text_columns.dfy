/**
 * What the scanner knows about the column it is in: the has-escape flag and the sign of
 * the stored lengths against the bytes themselves, and what two buffers report when the
 * split between them falls inside a column.
 */
module DelimitedTextColumns {
  import opened Wrappers
  import opened DelimitedTextSpec
  import opened DelimitedTextCounts
  import opened DelimitedTextProofs

  /** A stored length is negative exactly when escapes are processed and its bytes hold an escape. */
  predicate MarksEscapes(cfg: Config, processEscapes: bool, s: seq<Byte>, base: int, f: FieldLocation)
  {
    f.len < 0 <==> processEscapes && EscapeIn(cfg, s, f.start - base, f.start - base + FieldSpan(f))
  }

  /**
   * After n bytes of s: the open column lies in the bytes consumed, the has-escape flag says
   * whether it holds an escape, a pending '\r' means an empty column, and every field emitted
   * is negative exactly when it holds an escape.
   */
  predicate ColumnEscapes(cfg: Config, mode: Mode, s: seq<Byte>, base: int, n: nat, r: Scan)
  {
    && base <= r.colStart <= base + n
    && (r.afterCR ==> r.colStart == base + n && !r.hasEscape)
    && (r.hasEscape <==> mode.processEscapes && EscapeIn(cfg, s, r.colStart - base, n))
    && forall k | 0 <= k < |r.fields| :: MarksEscapes(cfg, mode.processEscapes, s, base, r.fields[k])
  }

  lemma {:induction false} PaddingLengths(cfg: Config, j: nat, d: int)
    ensures forall i | 0 <= i < |Padding(cfg, j, d)| :: Padding(cfg, j, d)[i].len == 0
    decreases |cfg.isMaterializedCol| - j
  {
    if j < |cfg.isMaterializedCol| {
      PaddingLengths(cfg, j + 1, d + 1);
      var head := if ReturnColumn(cfg, j) then [FieldLocation(d, 0)] else [];
      assert Padding(cfg, j, d) == head + Padding(cfg, j + 1, d + 1);
    }
  }

  /** The column a delimiter at p closes is marked as its bytes say. */
  lemma ClosedColumnMarks(cfg: Config, mode: Mode, pe: bool, s: seq<Byte>, base: int, n: nat, m: Scan)
    requires 0 < n <= |s| && ColumnEscapes(cfg, mode, s, base, n - 1, m)
    requires pe == mode.processEscapes || (pe && !mode.processEscapes)
    ensures var f := ColumnField(cfg, pe, m.columnIdx, m.hasEscape, m.colStart, base + n - 1 - m.colStart);
      forall k | 0 <= k < |f| :: MarksEscapes(cfg, mode.processEscapes, s, base, f[k])
  {
    var len := base + n - 1 - m.colStart;
    var g := FieldLocation(m.colStart, StoredLen(pe, m.hasEscape, len));
    assert FieldSpan(g) == len;
    if m.hasEscape {
      var i :| m.colStart - base <= i < n - 1 && 0 <= i < |s| && IsEscape(cfg, s[i]);
      assert len > 0;
    }
    assert MarksEscapes(cfg, mode.processEscapes, s, base, g);
  }

  lemma AppendMarks(cfg: Config, pe: bool, s: seq<Byte>, base: int, a: seq<FieldLocation>, b: seq<FieldLocation>)
    requires forall k | 0 <= k < |a| :: MarksEscapes(cfg, pe, s, base, a[k])
    requires forall k | 0 <= k < |b| :: MarksEscapes(cfg, pe, s, base, b[k])
    ensures forall k | 0 <= k < |a + b| :: MarksEscapes(cfg, pe, s, base, (a + b)[k])
  {
    forall k | 0 <= k < |a + b|
      ensures MarksEscapes(cfg, pe, s, base, (a + b)[k])
    {
      if k >= |a| {
        assert (a + b)[k] == b[k - |a|];
      }
    }
  }

  /** Zero-length fields hold no escape and are not negative. */
  lemma EmptyFieldsMark(cfg: Config, pe: bool, s: seq<Byte>, base: int, pad: seq<FieldLocation>)
    requires forall i | 0 <= i < |pad| :: pad[i].len == 0
    ensures forall k | 0 <= k < |pad| :: MarksEscapes(cfg, pe, s, base, pad[k])
  {
  }

  /** An unescaped row end: the closed column is marked as its bytes say, the padding is not negative. */
  lemma TupleDelimColumnEscapes(cfg: Config, mode: Mode, s: seq<Byte>, base: int, n: nat, m: Scan)
    requires 0 < n <= |s| && EscapeIsData(cfg) && ColumnEscapes(cfg, mode, s, base, n - 1, m)
    requires mode.detectTuples && !m.lastEscape && IsTupleDelim(cfg, s[n - 1])
    ensures ColumnEscapes(cfg, mode, s, base, n, Step(cfg, mode, m, s[n - 1], base + n - 1))
  {
    var c, p := s[n - 1], base + n - 1;
    var e := TrackEscape(cfg, mode, m, c);
    var r := Step(cfg, mode, m, c, p);
    var pe := mode.processEscapes;
    hide Step;
    StepOnTupleDelim(cfg, mode, m, c, p);
    assert !IsEscape(cfg, c) && e == m.(lastEscape := false);
    if m.afterCR && c == LF {
      assert r == e.(colStart := e.colStart + 1, afterCR := false);
    } else {
      var a := AddCol(cfg, true, e, p - e.colStart);
      var f := ColumnField(cfg, true, e.columnIdx, e.hasEscape, e.colStart, p - e.colStart);
      var pad := FillFields(cfg, false, false, a.columnIdx, None, 0);
      assert r.fields == (m.fields + f) + pad && r.colStart == p + 1 && !r.hasEscape;
      ClosedColumnMarks(cfg, mode, true, s, base, n, m);
      FillFieldsWithoutColumnIsPadding(cfg, a.columnIdx);
      PaddingLengths(cfg, a.columnIdx, 0);
      EmptyFieldsMark(cfg, pe, s, base, pad);
      AppendMarks(cfg, pe, s, base, m.fields, f);
      AppendMarks(cfg, pe, s, base, m.fields + f, pad);
    }
  }

  /** An unescaped field delimiter: the closed column is marked as its bytes say. */
  lemma FieldDelimColumnEscapes(cfg: Config, mode: Mode, s: seq<Byte>, base: int, n: nat, m: Scan)
    requires 0 < n <= |s| && EscapeIsData(cfg) && ColumnEscapes(cfg, mode, s, base, n - 1, m)
    requires !(mode.detectTuples && IsTupleDelim(cfg, s[n - 1])) && !m.lastEscape && IsFieldDelim(cfg, s[n - 1])
    ensures ColumnEscapes(cfg, mode, s, base, n, Step(cfg, mode, m, s[n - 1], base + n - 1))
  {
    var c, p := s[n - 1], base + n - 1;
    var e := TrackEscape(cfg, mode, m, c);
    var r := Step(cfg, mode, m, c, p);
    var pe := mode.processEscapes;
    hide Step;
    StepOnFieldDelim(cfg, mode, m, c, p);
    assert !IsEscape(cfg, c) && e == m.(lastEscape := false);
    var f := ColumnField(cfg, pe, e.columnIdx, e.hasEscape, e.colStart, p - e.colStart);
    assert r.fields == m.fields + f && r.colStart == p + 1 && !r.hasEscape;
    ClosedColumnMarks(cfg, mode, pe, s, base, n, m);
    AppendMarks(cfg, pe, s, base, m.fields, f);
  }

  /** Any other byte joins the open column, and sets the flag exactly when it is a processed escape. */
  lemma OtherColumnEscapes(cfg: Config, mode: Mode, s: seq<Byte>, base: int, n: nat, m: Scan)
    requires 0 < n <= |s| && ColumnEscapes(cfg, mode, s, base, n - 1, m)
    requires m.lastEscape || (!(mode.detectTuples && IsTupleDelim(cfg, s[n - 1])) && !IsFieldDelim(cfg, s[n - 1]))
    ensures ColumnEscapes(cfg, mode, s, base, n, Step(cfg, mode, m, s[n - 1], base + n - 1))
  {
    var c, p := s[n - 1], base + n - 1;
    var r := Step(cfg, mode, m, c, p);
    var pe := mode.processEscapes;
    hide Step;
    StepOnOther(cfg, mode, m, c, p);
    assert r.colStart == m.colStart && r.fields == m.fields && !r.afterCR;
    assert r.hasEscape == (m.hasEscape || (pe && IsEscape(cfg, c)));
    if pe && IsEscape(cfg, c) {
      assert EscapeIn(cfg, s, r.colStart - base, n);
    } else if pe && EscapeIn(cfg, s, r.colStart - base, n) {
      var i :| r.colStart - base <= i < n && 0 <= i < |s| && IsEscape(cfg, s[i]);
      assert i < n - 1;
    }
  }

  lemma StepColumnEscapes(cfg: Config, mode: Mode, s: seq<Byte>, base: int, n: nat, m: Scan)
    requires 0 < n <= |s| && EscapeIsData(cfg) && ColumnEscapes(cfg, mode, s, base, n - 1, m)
    ensures ColumnEscapes(cfg, mode, s, base, n, Step(cfg, mode, m, s[n - 1], base + n - 1))
  {
    hide Step;
    if mode.detectTuples && !m.lastEscape && IsTupleDelim(cfg, s[n - 1]) {
      TupleDelimColumnEscapes(cfg, mode, s, base, n, m);
    } else if !m.lastEscape && IsFieldDelim(cfg, s[n - 1]) {
      FieldDelimColumnEscapes(cfg, mode, s, base, n, m);
    } else {
      OtherColumnEscapes(cfg, mode, s, base, n, m);
    }
  }

  lemma {:induction false} RunColumnEscapes(cfg: Config, mode: Mode, sc: Scan, s: seq<Byte>, base: int, n: nat)
    requires n <= |s| && EscapeIsData(cfg) && !sc.hasEscape
    ensures ColumnEscapes(cfg, mode, s, base, n, Run(cfg, mode, Carry(sc, base), s, base, n))
    decreases n
  {
    hide Step;
    if n > 0 {
      RunColumnEscapes(cfg, mode, sc, s, base, n - 1);
      StepColumnEscapes(cfg, mode, s, base, n, Run(cfg, mode, Carry(sc, base), s, base, n - 1));
    }
  }

  /**
   * The has-escape flag and the sign of every stored length mean what they say: from a
   * state whose open column holds no escape, the flag is set exactly when the bytes of the
   * open column hold an escape character, and a field is stored with a negative length
   * exactly when escapes are processed and its bytes hold one. The side condition is that
   * the escape character is never a delimiter byte; with '\n' rows, a '\r' escape is also
   * a row delimiter.
   */
  lemma NegativeLengthIffEscaped(cfg: Config, mode: Mode, sc: Scan, s: seq<Byte>, base: int)
    requires EscapeIsData(cfg) && !sc.hasEscape
    ensures var r := Run(cfg, mode, Carry(sc, base), s, base, |s|);
      && (r.hasEscape <==> mode.processEscapes && EscapeIn(cfg, s, r.colStart - base, |s|))
      && forall k | 0 <= k < |r.fields| ::
           ((r.fields[k].len < 0)
            <==> (mode.processEscapes
                  && EscapeIn(cfg, s, r.fields[k].start - base, r.fields[k].start - base + FieldSpan(r.fields[k]))))
  {
    RunColumnEscapes(cfg, mode, sc, s, base, |s|);
  }

  /** Field f of one run is field g of the other with the d bytes before g's start joined to it. */
  predicate Joined(f: FieldLocation, g: FieldLocation, d: nat)
  {
    && f.start + d == g.start
    && FieldSpan(f) == FieldSpan(g) + d
    && (g.len < 0 ==> f.len < 0)
    && (g.len > 0 ==> f.len > 0)
  }

  /**
   * Two scans of the same bytes, y started with its column d bytes later than x: they agree
   * on everything but the open column's start and the field at index k0. While that first
   * column is open, y's start is d later and no field differs; once it has closed, the
   * starts agree and field k0 of x is field k0 of y joined with the d bytes.
   */
  predicate Shifted(x: Scan, y: Scan, k0: nat, d: nat, pos: int)
  {
    && x.(colStart := 0, fields := []) == y.(colStart := 0, fields := [])
    && |x.fields| == |y.fields|
    && y.colStart <= pos
    && ((x.colStart + d == y.colStart && x.fields == y.fields && |x.fields| == k0)
        || (&& x.colStart == y.colStart && k0 <= |x.fields|
            && (forall k | 0 <= k < |x.fields| && k != k0 :: x.fields[k] == y.fields[k])
            && (k0 < |x.fields| ==> x.fields[k0] == y.fields[k0] || Joined(x.fields[k0], y.fields[k0], d))))
  }

  /** Appending the same tail keeps two sequences agreeing everywhere but at k0. */
  lemma AgreeExcept<T>(a: seq<T>, b: seq<T>, t: seq<T>, k0: nat)
    requires |a| == |b| && forall k | 0 <= k < |a| && k != k0 :: a[k] == b[k]
    ensures forall k | 0 <= k < |a + t| && k != k0 :: (a + t)[k] == (b + t)[k]
    ensures k0 < |a| ==> (a + t)[k0] == a[k0] && (b + t)[k0] == b[k0]
  {
    forall k | 0 <= k < |a + t| && k != k0
      ensures (a + t)[k] == (b + t)[k]
    {
      if k >= |a| {
        assert (a + t)[k] == t[k - |a|] == (b + t)[k];
      }
    }
  }

  /** Appending at most one element to the same prefix: the results differ at most at its index. */
  lemma DifferOnlyAt<T>(a: seq<T>, f: seq<T>, g: seq<T>)
    requires |f| == |g| <= 1
    ensures forall k | 0 <= k < |a + f| && k != |a| :: (a + f)[k] == (a + g)[k]
    ensures |f| == 1 ==> (a + f)[|a|] == f[0] && (a + g)[|a|] == g[0]
  {
  }

  /** Closing a column after the first one: both scans emit the same field and padding. */
  lemma ClosedCloseShifted(cfg: Config, pe: bool, x: Scan, y: Scan, k0: nat, d: nat, p: int, pad: seq<FieldLocation>)
    requires Shifted(x, y, k0, d, p) && x.colStart == y.colStart && k0 <= |x.fields|
    requires forall k | 0 <= k < |x.fields| && k != k0 :: x.fields[k] == y.fields[k]
    requires k0 < |x.fields| ==> x.fields[k0] == y.fields[k0] || Joined(x.fields[k0], y.fields[k0], d)
    ensures var ax := AddCol(cfg, pe, x, p - x.colStart);
            var ay := AddCol(cfg, pe, y, p - y.colStart);
      Shifted(ax.(fields := ax.fields + pad), ay.(fields := ay.fields + pad), k0, d, p + 1)
  {
    var fx := ColumnField(cfg, pe, x.columnIdx, x.hasEscape, x.colStart, p - x.colStart);
    assert x.columnIdx == y.columnIdx && x.hasEscape == y.hasEscape;
    AgreeExcept(x.fields, y.fields, fx, k0);
    AgreeExcept(x.fields + fx, y.fields + fx, pad, k0);
  }

  /** Closing the first column: its field is the one place where the two scans differ. */
  lemma OpenCloseShifted(cfg: Config, pe: bool, x: Scan, y: Scan, k0: nat, d: nat, p: int, pad: seq<FieldLocation>)
    requires Shifted(x, y, k0, d, p) && x.colStart + d == y.colStart && x.fields == y.fields && |x.fields| == k0
    ensures var ax := AddCol(cfg, pe, x, p - x.colStart);
            var ay := AddCol(cfg, pe, y, p - y.colStart);
      Shifted(ax.(fields := ax.fields + pad), ay.(fields := ay.fields + pad), k0, d, p + 1)
  {
    var fx := ColumnField(cfg, pe, x.columnIdx, x.hasEscape, x.colStart, p - x.colStart);
    var fy := ColumnField(cfg, pe, y.columnIdx, y.hasEscape, y.colStart, p - y.colStart);
    assert x.columnIdx == y.columnIdx && x.hasEscape == y.hasEscape;
    DifferOnlyAt(x.fields, fx, fy);
    AgreeExcept(x.fields + fx, x.fields + fy, pad, k0);
    if |fx| == 1 {
      assert Joined(fx[0], fy[0], d);
    }
  }

  /** Closing the column at p, then appending the same padding to both, keeps the scans Shifted. */
  lemma CloseShifted(cfg: Config, pe: bool, x: Scan, y: Scan, k0: nat, d: nat, p: int, pad: seq<FieldLocation>)
    requires Shifted(x, y, k0, d, p)
    ensures var ax := AddCol(cfg, pe, x, p - x.colStart);
            var ay := AddCol(cfg, pe, y, p - y.colStart);
      Shifted(ax.(fields := ax.fields + pad), ay.(fields := ay.fields + pad), k0, d, p + 1)
  {
    if x.colStart + d == y.colStart && x.fields == y.fields && |x.fields| == k0 {
      OpenCloseShifted(cfg, pe, x, y, k0, d, p, pad);
    } else {
      ClosedCloseShifted(cfg, pe, x, y, k0, d, p, pad);
    }
  }

  /** An unescaped row end closes the column in both scans, pads both alike and records the same row end. */
  lemma EndTupleShifted(cfg: Config, x: Scan, y: Scan, k0: nat, d: nat, p: int, afterCR: bool)
    requires Shifted(x, y, k0, d, p)
    ensures Shifted(EndTuple(cfg, x, p).(afterCR := afterCR), EndTuple(cfg, y, p).(afterCR := afterCR), k0, d, p + 1)
  {
    var ax := AddCol(cfg, true, x, p - x.colStart);
    var ay := AddCol(cfg, true, y, p - y.colStart);
    var pad := FillFields(cfg, false, false, ax.columnIdx, None, 0);
    assert ax.columnIdx == ay.columnIdx && ax.rowEnds == ay.rowEnds;
    CloseShifted(cfg, true, x, y, k0, d, p, pad);
  }

  lemma FieldDelimShifted(cfg: Config, pe: bool, x: Scan, y: Scan, k0: nat, d: nat, p: int)
    requires Shifted(x, y, k0, d, p)
    ensures Shifted(AddCol(cfg, pe, x, p - x.colStart).(afterCR := false),
                    AddCol(cfg, pe, y, p - y.colStart).(afterCR := false), k0, d, p + 1)
  {
    var ax := AddCol(cfg, pe, x, p - x.colStart);
    var ay := AddCol(cfg, pe, y, p - y.colStart);
    CloseShifted(cfg, pe, x, y, k0, d, p, []);
    assert ax.fields + [] == ax.fields && ay.fields + [] == ay.fields;
  }

  lemma TupleDelimStepShifted(cfg: Config, mode: Mode, x: Scan, y: Scan, k0: nat, d: nat, c: Byte, p: int)
    requires Shifted(x, y, k0, d, p)
    requires mode.detectTuples && !x.lastEscape && IsTupleDelim(cfg, c)
    ensures Shifted(Step(cfg, mode, x, c, p), Step(cfg, mode, y, c, p), k0, d, p + 1)
  {
    var ex, ey := TrackEscape(cfg, mode, x, c), TrackEscape(cfg, mode, y, c);
    assert Shifted(ex, ey, k0, d, p);
    hide Step;
    hide EndTuple;
    StepOnTupleDelim(cfg, mode, x, c, p);
    StepOnTupleDelim(cfg, mode, y, c, p);
    if !(x.afterCR && c == LF) {
      EndTupleShifted(cfg, ex, ey, k0, d, p, c == CR);
    }
  }

  lemma FieldDelimStepShifted(cfg: Config, mode: Mode, x: Scan, y: Scan, k0: nat, d: nat, c: Byte, p: int)
    requires Shifted(x, y, k0, d, p)
    requires !(mode.detectTuples && IsTupleDelim(cfg, c)) && !x.lastEscape && IsFieldDelim(cfg, c)
    ensures Shifted(Step(cfg, mode, x, c, p), Step(cfg, mode, y, c, p), k0, d, p + 1)
  {
    var ex, ey := TrackEscape(cfg, mode, x, c), TrackEscape(cfg, mode, y, c);
    assert Shifted(ex, ey, k0, d, p);
    hide Step;
    hide AddCol;
    StepOnFieldDelim(cfg, mode, x, c, p);
    StepOnFieldDelim(cfg, mode, y, c, p);
    FieldDelimShifted(cfg, mode.processEscapes, ex, ey, k0, d, p);
  }

  lemma OtherStepShifted(cfg: Config, mode: Mode, x: Scan, y: Scan, k0: nat, d: nat, c: Byte, p: int)
    requires Shifted(x, y, k0, d, p)
    requires x.lastEscape || (!(mode.detectTuples && IsTupleDelim(cfg, c)) && !IsFieldDelim(cfg, c))
    ensures Shifted(Step(cfg, mode, x, c, p), Step(cfg, mode, y, c, p), k0, d, p + 1)
  {
    hide Step;
    StepOnOther(cfg, mode, x, c, p);
    StepOnOther(cfg, mode, y, c, p);
  }

  lemma StepShifted(cfg: Config, mode: Mode, x: Scan, y: Scan, k0: nat, d: nat, c: Byte, p: int)
    requires Shifted(x, y, k0, d, p)
    ensures Shifted(Step(cfg, mode, x, c, p), Step(cfg, mode, y, c, p), k0, d, p + 1)
  {
    hide Step;
    if mode.detectTuples && !x.lastEscape && IsTupleDelim(cfg, c) {
      TupleDelimStepShifted(cfg, mode, x, y, k0, d, c, p);
    } else if !x.lastEscape && IsFieldDelim(cfg, c) {
      FieldDelimStepShifted(cfg, mode, x, y, k0, d, c, p);
    } else {
      OtherStepShifted(cfg, mode, x, y, k0, d, c, p);
    }
  }

  lemma {:induction false} RunShifted(cfg: Config, mode: Mode, sc: Scan, start: int, s: seq<Byte>, base: int, n: nat)
    requires n <= |s| && sc.colStart <= start <= base
    ensures Shifted(Run(cfg, mode, sc, s, base, n), Run(cfg, mode, sc.(colStart := start), s, base, n),
                    |sc.fields|, start - sc.colStart, base + n)
    decreases n
  {
    hide Step;
    if n > 0 {
      RunShifted(cfg, mode, sc, start, s, base, n - 1);
      StepShifted(cfg, mode, Run(cfg, mode, sc, s, base, n - 1), Run(cfg, mode, sc.(colStart := start), s, base, n - 1),
                  |sc.fields|, start - sc.colStart, s[n - 1], base + n - 1);
    }
  }

  /**
   * Re-chunking at any split point. Parsing b1 and then b2 from the carried state reports
   * the same row ends, leaves the same cursor, escape flags and pending '\r', and the same
   * fields as parsing b1 + b2 in one call, with one exception: the column that straddles
   * the split. The second call reports it starting at the second buffer's first byte with
   * only its bytes there, d bytes short of the one-call field, which starts d bytes earlier.
   * While that column is still open, the column start the second call reports is d bytes
   * later, and every field agrees.
   */
  lemma RechunkAnywhere(cfg: Config, mode: Mode, carried: Scan, b1: seq<Byte>, b2: seq<Byte>, base: int)
    ensures var r1 := Run(cfg, mode, Carry(carried, base), b1, base, |b1|);
            var r2 := Run(cfg, mode, Carry(r1, base + |b1|), b2, base + |b1|, |b2|);
            var whole := Run(cfg, mode, Carry(carried, base), b1 + b2, base, |b1| + |b2|);
            var joined := Prepend(r1.fields, r1.rowEnds, r2);
            var d := base + |b1| - r1.colStart;
            var k0 := |r1.fields|;
      && d >= 0
      && whole.rowEnds == joined.rowEnds
      && whole.columnIdx == r2.columnIdx && whole.hasEscape == r2.hasEscape
      && whole.lastEscape == r2.lastEscape && whole.afterCR == r2.afterCR
      && |whole.fields| == |joined.fields|
      && (forall k | 0 <= k < |whole.fields| && k != k0 :: whole.fields[k] == joined.fields[k])
      && (k0 < |whole.fields| ==> whole.fields[k0] == joined.fields[k0] || Joined(whole.fields[k0], joined.fields[k0], d))
      && (whole.colStart == r2.colStart || (whole.colStart + d == r2.colStart && whole.fields == joined.fields))
  {
    hide Step;
    var c0 := Carry(carried, base);
    var r1 := Run(cfg, mode, c0, b1, base, |b1|);
    var mid := base + |b1|;
    RunPositions(cfg, mode, c0, b1, base, |b1|);
    RunAppend(cfg, mode, c0, b1, b2, base, |b2|);
    assert Prepend(r1.fields, r1.rowEnds, Carry(r1, mid)) == r1.(colStart := mid);
    RunPrepend(cfg, mode, r1.fields, r1.rowEnds, Carry(r1, mid), b2, mid, |b2|);
    RunShifted(cfg, mode, r1, mid, b2, mid, |b2|);
  }

  /**
   * The sign of a straddling column is lost when its part in the second buffer is empty:
   * "\\a" then "," stores (2, 0) on the second call, though one call over "\\a," stores
   * (0, -2) and the carried has-escape flag is still set.
   */
  lemma EmptyTailDropsEscapeSign()
    ensures var cfg := Config(LF, 44, NUL, 92, 0, [true, true]);
            var r1 := Run(cfg, TupleMode, StartOfTuple(cfg, 0), [92, 97], 0, 2);
            var r2 := Run(cfg, TupleMode, Carry(r1, 2), [44], 2, 1);
            var whole := Run(cfg, TupleMode, StartOfTuple(cfg, 0), [92, 97, 44], 0, 3);
      && r1.hasEscape && r1.colStart == 0
      && r2.fields == [FieldLocation(2, 0)]
      && whole.fields == [FieldLocation(0, -2)]
  {
  }

  /**
   * Why NegativeLengthIffEscaped needs EscapeIsData: with '\n' rows a lone '\r' also ends a
   * row, so a '\r' escape character is both. The row "a\r" then ends at the '\r' with the
   * column flagged as escaped, though no escape byte lies inside the field's span.
   */
  lemma CarriageReturnEscapeEndsRow()
    ensures var cfg := Config(LF, NUL, NUL, CR, 0, [true]);
            var r := Run(cfg, TupleMode, StartOfTuple(cfg, 0), [97, CR], 0, 2);
      && DelimitersDistinct(cfg.tupleDelim, cfg.fieldDelim, cfg.collectionItemDelim, cfg.escapeChar)
      && !EscapeIsData(cfg)
      && r.fields == [FieldLocation(0, -1)] && r.rowEnds == [1]
      && !EscapeIn(cfg, [97, CR], 0, 1)
  {
    var cfg := Config(LF, NUL, NUL, CR, 0, [true]);
    var r1 := Run(cfg, TupleMode, StartOfTuple(cfg, 0), [97, CR], 0, 1);
    assert r1 == StartOfTuple(cfg, 0);
  }

  /**
   * A "\r\n" pair ends one row when scanned whole, but the first-instance search stops just
   * past the '\r'; a scan restarted there from a reset parser sees the '\n' as a second,
   * empty row.
   */
  lemma CrLfSplitByFirstInstance(cfg: Config)
    requires cfg.tupleDelim == LF
    ensures UnescapedTupleDelim(cfg, [CR, LF], 0)
    ensures Run(cfg, TupleMode, StartOfTuple(cfg, 0), [CR, LF], 0, 2).rowEnds == [0]
    ensures Run(cfg, TupleMode, StartOfTuple(cfg, 1), [LF], 1, 1).rowEnds == [1]
  {
  }
}
