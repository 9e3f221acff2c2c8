/**
 * What the tokenizer guarantees over whole buffers: escape parity, the row ends as a
 * property of the bytes alone, re-chunking (two buffers with the state carried between
 * them give the same result as one), the "\r" | "\n" split, and ParseSingleTuple's count.
 */
module DelimitedTextProofs {
  import opened Wrappers
  import opened DelimitedTextSpec
  import opened DelimitedTextCounts

  // ---------------------------------------------------------------------------
  // Escape parity and row ends as properties of the bytes alone.
  // ---------------------------------------------------------------------------

  /** One more byte: it is escaped exactly when it follows an escape byte that was not itself escaped. */
  lemma EscapedAtNext(cfg: Config, carried: bool, s: seq<Byte>, n: nat)
    requires 0 < n <= |s|
    ensures EscapedAt(cfg, carried, s, n) == (IsEscape(cfg, s[n - 1]) && !EscapedAt(cfg, carried, s, n - 1))
  {
    var k := EscapeRun(cfg, s, n - 1);
    if IsEscape(cfg, s[n - 1]) {
      assert EscapeRun(cfg, s, n) == k + 1;
      assert (k + 1) % 2 == 1 <==> k % 2 != 1;
    }
  }

  lemma StepLastEscape(cfg: Config, mode: Mode, sc: Scan, c: Byte, p: int)
    ensures Step(cfg, mode, sc, c, p).lastEscape
            == (mode.processEscapes && IsEscape(cfg, c) && !sc.lastEscape)
  {
  }

  lemma StepAfterCR(cfg: Config, mode: Mode, sc: Scan, c: Byte, p: int)
    ensures Step(cfg, mode, sc, c, p).afterCR
            == (mode.detectTuples && !sc.lastEscape && IsTupleDelim(cfg, c) && c == CR)
  {
  }

  /**
   * The escape flag the scanner carries is the parity of the escape run that ends the
   * bytes consumed, continuing the carried flag when the run reaches back past them.
   */
  lemma {:induction false} EscapeParity(cfg: Config, mode: Mode, sc: Scan, s: seq<Byte>, base: int, n: nat)
    requires mode.processEscapes && n <= |s|
    ensures Run(cfg, mode, sc, s, base, n).lastEscape == EscapedAt(cfg, sc.lastEscape, s, n)
    decreases n
  {
    hide Step;
    if n > 0 {
      EscapeParity(cfg, mode, sc, s, base, n - 1);
      StepLastEscape(cfg, mode, Run(cfg, mode, sc, s, base, n - 1), s[n - 1], base + n - 1);
      EscapedAtNext(cfg, sc.lastEscape, s, n);
    }
  }

  /** In tuple mode the pending-'\r' flag is set exactly when the last byte was an unescaped '\r' delimiter. */
  lemma PendingCRParity(cfg: Config, sc: Scan, s: seq<Byte>, base: int, n: nat)
    requires n <= |s|
    ensures Run(cfg, TupleMode, sc, s, base, n).afterCR == PendingCR(cfg, sc.lastEscape, sc.afterCR, s, n)
  {
    hide Step;
    if n > 0 {
      EscapeParity(cfg, TupleMode, sc, s, base, n - 1);
      StepAfterCR(cfg, TupleMode, Run(cfg, TupleMode, sc, s, base, n - 1), s[n - 1], base + n - 1);
    }
  }

  /**
   * The row ends the scanner reports are exactly the unescaped tuple delimiters that do
   * not complete a "\r\n", in order: the state machine agrees with a description of the
   * bytes alone.
   */
  lemma {:induction false} RowEndsMatch(cfg: Config, sc: Scan, s: seq<Byte>, base: int, n: nat)
    requires n <= |s| && sc.columnIdx >= cfg.numPartitionKeys
    ensures Run(cfg, TupleMode, sc, s, base, n).rowEnds
            == sc.rowEnds + RowEndsOf(cfg, sc.lastEscape, sc.afterCR, s, base, n)
    decreases n
  {
    hide Step;
    if n > 0 {
      var m := Run(cfg, TupleMode, sc, s, base, n - 1);
      var prev := RowEndsOf(cfg, sc.lastEscape, sc.afterCR, s, base, n - 1);
      RowEndsMatch(cfg, sc, s, base, n - 1);
      RunExtends(cfg, TupleMode, sc, s, base, n - 1);
      EscapeParity(cfg, TupleMode, sc, s, base, n - 1);
      PendingCRParity(cfg, sc, s, base, n - 1);
      StepRowEnd(cfg, TupleMode, m, s[n - 1], base + n - 1);
      var tail := if RowEndAt(cfg, sc.lastEscape, sc.afterCR, s, n - 1) then [base + n - 1] else [];
      assert Run(cfg, TupleMode, sc, s, base, n).rowEnds == m.rowEnds + tail;
      assert (sc.rowEnds + prev) + tail == sc.rowEnds + (prev + tail);
    }
  }

  /** From a state with no pending escape, a row end is an unescaped tuple delimiter in the sense of FindFirstInstance. */
  lemma RowEndIsUnescaped(cfg: Config, carriedCR: bool, s: seq<Byte>, j: nat)
    requires j < |s| && RowEndAt(cfg, false, carriedCR, s, j)
    ensures UnescapedTupleDelim(cfg, s, j)
  {
  }

  /** Every reported row end is a position of the buffer where RowEndAt holds. */
  lemma {:induction false} RowEndsOfMembers(cfg: Config, carriedEscape: bool, carriedCR: bool, s: seq<Byte>, base: int, n: nat, x: int)
    requires n <= |s| && x in RowEndsOf(cfg, carriedEscape, carriedCR, s, base, n)
    ensures base <= x < base + n && RowEndAt(cfg, carriedEscape, carriedCR, s, x - base)
    decreases n
  {
    if x in RowEndsOf(cfg, carriedEscape, carriedCR, s, base, n - 1) {
      RowEndsOfMembers(cfg, carriedEscape, carriedCR, s, base, n - 1, x);
    }
  }

  // ---------------------------------------------------------------------------
  // Re-chunking.
  // ---------------------------------------------------------------------------

  /** A run looks only at the bytes it consumes. */
  lemma {:induction false} RunPrefix(cfg: Config, mode: Mode, sc: Scan, s: seq<Byte>, t: seq<Byte>, base: int, n: nat)
    requires n <= |s| && n <= |t| && s[..n] == t[..n]
    ensures Run(cfg, mode, sc, s, base, n) == Run(cfg, mode, sc, t, base, n)
    decreases n
  {
    hide Step;
    if n > 0 {
      assert s[n - 1] == s[..n][n - 1] == t[..n][n - 1] == t[n - 1];
      assert s[..n - 1] == s[..n][..n - 1];
      assert t[..n - 1] == t[..n][..n - 1];
      RunPrefix(cfg, mode, sc, s, t, base, n - 1);
    }
  }

  /** Consuming s1 and then the first k bytes of s2 is consuming the first |s1| + k bytes of s1 + s2. */
  lemma {:induction false} RunAppend(cfg: Config, mode: Mode, sc: Scan, s1: seq<Byte>, s2: seq<Byte>, base: int, k: nat)
    requires k <= |s2|
    ensures Run(cfg, mode, sc, s1 + s2, base, |s1| + k)
            == Run(cfg, mode, Run(cfg, mode, sc, s1, base, |s1|), s2, base + |s1|, k)
    decreases k
  {
    hide Step;
    if k == 0 {
      RunPrefix(cfg, mode, sc, s1 + s2, s1, base, |s1|);
    } else {
      RunAppend(cfg, mode, sc, s1, s2, base, k - 1);
      assert (s1 + s2)[|s1| + k - 1] == s2[k - 1];
    }
  }

  /** The scan with earlier outputs F and E placed in front of its own. */
  function Prepend(fs: seq<FieldLocation>, es: seq<int>, sc: Scan): Scan
  {
    sc.(fields := fs + sc.fields, rowEnds := es + sc.rowEnds)
  }

  lemma AddColPrepend(cfg: Config, pe: bool, fs: seq<FieldLocation>, es: seq<int>, sc: Scan, len: int)
    ensures AddCol(cfg, pe, Prepend(fs, es, sc), len) == Prepend(fs, es, AddCol(cfg, pe, sc, len))
  {
    var cf := ColumnField(cfg, pe, sc.columnIdx, sc.hasEscape, sc.colStart, len);
    assert (fs + sc.fields) + cf == fs + (sc.fields + cf);
  }

  lemma EndTuplePrepend(cfg: Config, fs: seq<FieldLocation>, es: seq<int>, sc: Scan, p: int)
    ensures EndTuple(cfg, Prepend(fs, es, sc), p) == Prepend(fs, es, EndTuple(cfg, sc, p))
  {
    var a := AddCol(cfg, true, sc, p - sc.colStart);
    AddColPrepend(cfg, true, fs, es, sc, p - sc.colStart);
    var pad := FillFields(cfg, false, false, a.columnIdx, None, 0);
    assert (fs + a.fields) + pad == fs + (a.fields + pad);
    assert (es + a.rowEnds) + [p] == es + (a.rowEnds + [p]);
  }

  /** A step never looks at the outputs already emitted. */
  lemma StepPrepend(cfg: Config, mode: Mode, fs: seq<FieldLocation>, es: seq<int>, sc: Scan, c: Byte, p: int)
    ensures Step(cfg, mode, Prepend(fs, es, sc), c, p) == Prepend(fs, es, Step(cfg, mode, sc, c, p))
  {
    var e := TrackEscape(cfg, mode, sc, c);
    assert TrackEscape(cfg, mode, Prepend(fs, es, sc), c) == Prepend(fs, es, e);
    if mode.detectTuples && !sc.lastEscape && IsTupleDelim(cfg, c) {
      EndTuplePrepend(cfg, fs, es, e, p);
    } else if !sc.lastEscape && IsFieldDelim(cfg, c) {
      AddColPrepend(cfg, mode.processEscapes, fs, es, e, p - e.colStart);
    }
  }

  lemma {:induction false} RunPrepend(cfg: Config, mode: Mode, fs: seq<FieldLocation>, es: seq<int>, sc: Scan, s: seq<Byte>, base: int, n: nat)
    requires n <= |s|
    ensures Run(cfg, mode, Prepend(fs, es, sc), s, base, n) == Prepend(fs, es, Run(cfg, mode, sc, s, base, n))
    decreases n
  {
    hide Step;
    if n > 0 {
      RunPrepend(cfg, mode, fs, es, sc, s, base, n - 1);
      StepPrepend(cfg, mode, fs, es, Run(cfg, mode, sc, s, base, n - 1), s[n - 1], base + n - 1);
    }
  }

  /**
   * Re-chunking at a column boundary: when the first buffer ends where a column ends, parsing
   * it and then the second buffer from the carried state reports exactly what parsing the
   * two as one buffer reports, and leaves the same state.
   */
  lemma RechunkAtBoundary(cfg: Config, mode: Mode, carried: Scan, b1: seq<Byte>, b2: seq<Byte>, base: int)
    requires Run(cfg, mode, Carry(carried, base), b1, base, |b1|).colStart == base + |b1|
    ensures var r1 := Run(cfg, mode, Carry(carried, base), b1, base, |b1|);
            var r2 := Run(cfg, mode, Carry(r1, base + |b1|), b2, base + |b1|, |b2|);
            Run(cfg, mode, Carry(carried, base), b1 + b2, base, |b1| + |b2|) == Prepend(r1.fields, r1.rowEnds, r2)
  {
    hide Step;
    var r1 := Run(cfg, mode, Carry(carried, base), b1, base, |b1|);
    RunAppend(cfg, mode, Carry(carried, base), b1, b2, base, |b2|);
    assert r1 == Prepend(r1.fields, r1.rowEnds, Carry(r1, base + |b1|));
    RunPrepend(cfg, mode, r1.fields, r1.rowEnds, Carry(r1, base + |b1|), b2, base + |b1|, |b2|);
  }

  lemma StepClosesColumn(cfg: Config, mode: Mode, sc: Scan, c: Byte, p: int)
    requires Consistent(sc, p)
    requires !sc.lastEscape && (IsFieldDelim(cfg, c) || (mode.detectTuples && IsTupleDelim(cfg, c)))
    ensures Step(cfg, mode, sc, c, p).colStart == p + 1
  {
    var e := TrackEscape(cfg, mode, sc, c);
    if mode.detectTuples && IsTupleDelim(cfg, c) && !(sc.afterCR && c == LF) {
      assert Step(cfg, mode, sc, c, p).colStart == AddCol(cfg, true, e, p - e.colStart).colStart;
    }
  }

  /** A buffer whose last byte is an unescaped field or tuple delimiter ends on a column boundary. */
  lemma EndsOnBoundary(cfg: Config, carried: Scan, b: seq<Byte>, base: int)
    requires b != [] && !EscapedAt(cfg, carried.lastEscape, b, |b| - 1)
    requires IsFieldDelim(cfg, b[|b| - 1]) || IsTupleDelim(cfg, b[|b| - 1])
    ensures Run(cfg, TupleMode, Carry(carried, base), b, base, |b|).colStart == base + |b|
  {
    hide Step;
    var n := |b|;
    var m := Run(cfg, TupleMode, Carry(carried, base), b, base, n - 1);
    RunPositions(cfg, TupleMode, Carry(carried, base), b, base, n - 1);
    EscapeParity(cfg, TupleMode, Carry(carried, base), b, base, n - 1);
    StepClosesColumn(cfg, TupleMode, m, b[n - 1], base + n - 1);
  }

  /** An unescaped '\r' that ends the first buffer ends a row there and leaves the pending flag set. */
  lemma CrEndsFirstBuffer(cfg: Config, carried: Scan, b1: seq<Byte>, base: int)
    requires cfg.tupleDelim == LF && carried.columnIdx >= cfg.numPartitionKeys
    requires b1 != [] && b1[|b1| - 1] == CR && !EscapedAt(cfg, carried.lastEscape, b1, |b1| - 1)
    ensures var r1 := Run(cfg, TupleMode, Carry(carried, base), b1, base, |b1|);
            && r1.afterCR && r1.colStart == base + |b1| && r1.columnIdx >= cfg.numPartitionKeys
            && |r1.rowEnds| > 0 && r1.rowEnds[|r1.rowEnds| - 1] == base + |b1| - 1
  {
    hide Step;
    var c0 := Carry(carried, base);
    var n := |b1|;
    PendingCRParity(cfg, c0, b1, base, n);
    RowEndsMatch(cfg, c0, b1, base, n);
    assert RowEndAt(cfg, carried.lastEscape, carried.afterCR, b1, n - 1);
    assert RowEndsOf(cfg, carried.lastEscape, carried.afterCR, b1, base, n)
      == RowEndsOf(cfg, carried.lastEscape, carried.afterCR, b1, base, n - 1) + [base + n - 1];
    RunPositions(cfg, TupleMode, c0, b1, base, n);
    RunExtends(cfg, TupleMode, c0, b1, base, n);
  }

  /** With the pending flag carried over, a '\n' that opens the buffer is not a row end. */
  lemma LfAfterPendingCR(cfg: Config, carried: Scan, b2: seq<Byte>, base: int)
    requires carried.afterCR && carried.columnIdx >= cfg.numPartitionKeys
    requires b2 != [] && b2[0] == LF
    ensures base !in Run(cfg, TupleMode, Carry(carried, base), b2, base, |b2|).rowEnds
  {
    hide Step;
    var c1 := Carry(carried, base);
    RowEndsMatch(cfg, c1, b2, base, |b2|);
    if base in Run(cfg, TupleMode, c1, b2, base, |b2|).rowEnds {
      RowEndsOfMembers(cfg, carried.lastEscape, carried.afterCR, b2, base, |b2|, base);
      assert false;
    }
  }

  /**
   * A "\r\n" split across two buffers: the '\r' ends the row in the first call, the pending
   * flag survives the call, the '\n' that opens the second buffer is not another row end,
   * and the two calls together report what one buffer holding "\r\n" reports.
   */
  lemma CrLfSplitAcrossBuffers(cfg: Config, carried: Scan, b1: seq<Byte>, b2: seq<Byte>, base: int)
    requires cfg.tupleDelim == LF && carried.columnIdx >= cfg.numPartitionKeys
    requires b1 != [] && b1[|b1| - 1] == CR && !EscapedAt(cfg, carried.lastEscape, b1, |b1| - 1)
    requires b2 != [] && b2[0] == LF
    ensures var r1 := Run(cfg, TupleMode, Carry(carried, base), b1, base, |b1|);
            var r2 := Run(cfg, TupleMode, Carry(r1, base + |b1|), b2, base + |b1|, |b2|);
            && r1.afterCR
            && |r1.rowEnds| > 0 && r1.rowEnds[|r1.rowEnds| - 1] == base + |b1| - 1
            && base + |b1| !in r2.rowEnds
            && Run(cfg, TupleMode, Carry(carried, base), b1 + b2, base, |b1| + |b2|) == Prepend(r1.fields, r1.rowEnds, r2)
  {
    hide Step;
    var r1 := Run(cfg, TupleMode, Carry(carried, base), b1, base, |b1|);
    CrEndsFirstBuffer(cfg, carried, b1, base);
    LfAfterPendingCR(cfg, r1, b2, base + |b1|);
    RechunkAtBoundary(cfg, TupleMode, carried, b1, b2, base);
  }

  // ---------------------------------------------------------------------------
  // ParseSingleTuple.
  // ---------------------------------------------------------------------------

  /** ParseSingleTuple reports exactly one location per materialized column, whatever the record holds. */
  lemma SingleTupleFieldCount(cfg: Config, pe: bool, s: seq<Byte>, base: int)
    ensures |SingleTuple(cfg, pe, s, base)| == NumMaterialized(cfg)
  {
    hide Step;
    var st := StartOfTuple(cfg, base);
    var r := Run(cfg, Mode(false, pe), st, s, base, |s|);
    RunFacts(cfg, Mode(false, pe), st, s, base, |s|);
    if r.columnIdx < |cfg.isMaterializedCol| {
      FillFieldsFacts(cfg, pe, r.hasEscape, r.columnIdx, Some(r.colStart), base + |s| - r.colStart);
    } else {
      MaterializedBeforeSaturates(cfg, r.columnIdx);
    }
  }

  lemma StepIgnoresTupleDelim(cfg: Config, t: Byte, pe: bool, sc: Scan, c: Byte, p: int)
    ensures Step(cfg, Mode(false, pe), sc, c, p) == Step(cfg.(tupleDelim := t), Mode(false, pe), sc, c, p)
  {
  }

  lemma {:induction false} RunIgnoresTupleDelim(cfg: Config, t: Byte, pe: bool, sc: Scan, s: seq<Byte>, base: int, n: nat)
    requires n <= |s|
    ensures Run(cfg, Mode(false, pe), sc, s, base, n) == Run(cfg.(tupleDelim := t), Mode(false, pe), sc, s, base, n)
    decreases n
  {
    hide Step;
    if n > 0 {
      var m := Run(cfg, Mode(false, pe), sc, s, base, n - 1);
      RunIgnoresTupleDelim(cfg, t, pe, sc, s, base, n - 1);
      StepIgnoresTupleDelim(cfg, t, pe, m, s[n - 1], base + n - 1);
    }
  }

  lemma {:induction false} PaddingDependsOnSchemaOnly(cfg: Config, cfg': Config, j: nat, d: int)
    requires cfg'.isMaterializedCol == cfg.isMaterializedCol
    ensures Padding(cfg, j, d) == Padding(cfg', j, d)
    decreases |cfg.isMaterializedCol| - j
  {
    if j < |cfg.isMaterializedCol| {
      PaddingDependsOnSchemaOnly(cfg, cfg', j + 1, d + 1);
    }
  }

  /** ParseSingleTuple never treats a byte as a tuple delimiter: its result does not depend on which byte that is. */
  lemma SingleTupleIgnoresTupleDelim(cfg: Config, t: Byte, pe: bool, s: seq<Byte>, base: int)
    ensures SingleTuple(cfg, pe, s, base) == SingleTuple(cfg.(tupleDelim := t), pe, s, base)
  {
    hide Step;
    hide Run;
    var cfg' := cfg.(tupleDelim := t);
    assert StartOfTuple(cfg', base) == StartOfTuple(cfg, base);
    RunIgnoresTupleDelim(cfg, t, pe, StartOfTuple(cfg, base), s, base, |s|);
    var r := Run(cfg, Mode(false, pe), StartOfTuple(cfg, base), s, base, |s|);
    PaddingDependsOnSchemaOnly(cfg, cfg', r.columnIdx + 1, 0);
    assert Fill(cfg', pe, r, base + |s| - r.colStart) == Fill(cfg, pe, r, base + |s| - r.colStart);
  }

  lemma StepWithoutTupleDelim(cfg: Config, sc: Scan, c: Byte, p: int)
    requires !IsTupleDelim(cfg, c)
    ensures Step(cfg, TupleMode, sc, c, p) == Step(cfg, Mode(false, true), sc, c, p)
  {
  }

  /** Over bytes holding no tuple delimiter, tuple detection changes nothing. */
  lemma {:induction false} RunWithoutTupleDelims(cfg: Config, sc: Scan, s: seq<Byte>, base: int, n: nat)
    requires n <= |s| && forall i | 0 <= i < n :: !IsTupleDelim(cfg, s[i])
    ensures Run(cfg, TupleMode, sc, s, base, n) == Run(cfg, Mode(false, true), sc, s, base, n)
    decreases n
  {
    hide Step;
    if n > 0 {
      RunWithoutTupleDelims(cfg, sc, s, base, n - 1);
      StepWithoutTupleDelim(cfg, Run(cfg, TupleMode, sc, s, base, n - 1), s[n - 1], base + n - 1);
    }
  }

  lemma {:induction false} RunWithoutDetectionClearsCR(cfg: Config, pe: bool, sc: Scan, s: seq<Byte>, base: int, n: nat)
    requires n <= |s| && !sc.afterCR
    ensures !Run(cfg, Mode(false, pe), sc, s, base, n).afterCR
    decreases n
  {
    hide Step;
    if n > 0 {
      RunWithoutDetectionClearsCR(cfg, pe, sc, s, base, n - 1);
      StepAfterCR(cfg, Mode(false, pe), Run(cfg, Mode(false, pe), sc, s, base, n - 1), s[n - 1], base + n - 1);
    }
  }

  /** The dummy-cursor padding of a tuple end is the padding after the trailing column. */
  lemma FillFieldsWithoutColumnIsPadding(cfg: Config, j: nat)
    ensures FillFields(cfg, false, false, j, None, 0) == Padding(cfg, j, 0)
  {
  }

  /** Closing a record with an unescaped tuple delimiter emits its trailing column and the padding. */
  lemma EndTupleAfterRecord(cfg: Config, m: Scan, p: int)
    requires DelimitersDistinct(cfg.tupleDelim, cfg.fieldDelim, cfg.collectionItemDelim, cfg.escapeChar)
    requires cfg.tupleDelim != NUL && !m.lastEscape && !m.afterCR
    ensures Step(cfg, TupleMode, m, cfg.tupleDelim, p).fields
            == Fill(cfg, true, m, p - m.colStart).fields
  {
    var t := cfg.tupleDelim;
    var e := TrackEscape(cfg, TupleMode, m, t);
    assert e == m.(lastEscape := false);
    var a := AddCol(cfg, true, e, p - e.colStart);
    FillFieldsWithoutColumnIsPadding(cfg, a.columnIdx);
    assert Step(cfg, TupleMode, m, t, p).fields == a.fields + Padding(cfg, m.columnIdx + 1, 0);
    if m.columnIdx < |cfg.isMaterializedCol| {
      var cf := ColumnField(cfg, true, m.columnIdx, m.hasEscape, m.colStart, p - m.colStart);
      assert (m.fields + cf) + Padding(cfg, m.columnIdx + 1, 0) == m.fields + (cf + Padding(cfg, m.columnIdx + 1, 0));
    }
  }

  /**
   * ParseSingleTuple on a record agrees with ParseFieldLocations on the same record closed
   * by a tuple delimiter: the same fields, with the same escape signs and the same padding.
   */
  lemma SingleTupleMatchesTupleScan(cfg: Config, s: seq<Byte>, base: int)
    requires DelimitersDistinct(cfg.tupleDelim, cfg.fieldDelim, cfg.collectionItemDelim, cfg.escapeChar)
    requires cfg.tupleDelim != NUL
    requires forall i | 0 <= i < |s| :: !IsTupleDelim(cfg, s[i])
    requires !EscapedAt(cfg, false, s, |s|)
    ensures SingleTuple(cfg, true, s, base)
            == Run(cfg, TupleMode, StartOfTuple(cfg, base), s + [cfg.tupleDelim], base, |s| + 1).fields
  {
    hide Step;
    var st := StartOfTuple(cfg, base);
    var t, p := cfg.tupleDelim, base + |s|;
    var m := Run(cfg, Mode(false, true), st, s, base, |s|);
    RunAppend(cfg, TupleMode, st, s, [t], base, 1);
    RunWithoutTupleDelims(cfg, st, s, base, |s|);
    assert Run(cfg, TupleMode, m, [t], p, 1) == Step(cfg, TupleMode, m, t, p);
    EscapeParity(cfg, Mode(false, true), st, s, base, |s|);
    RunWithoutDetectionClearsCR(cfg, true, st, s, base, |s|);
    EndTupleAfterRecord(cfg, m, p);
  }

  /** Step on an unescaped tuple delimiter. */
  lemma StepOnTupleDelim(cfg: Config, mode: Mode, sc: Scan, c: Byte, p: int)
    requires mode.detectTuples && !sc.lastEscape && IsTupleDelim(cfg, c)
    ensures var e := TrackEscape(cfg, mode, sc, c);
      Step(cfg, mode, sc, c, p)
      == if sc.afterCR && c == LF then e.(colStart := e.colStart + 1, afterCR := c == CR)
         else EndTuple(cfg, e, p).(afterCR := c == CR)
  {
  }

  /** Step on an unescaped field or collection-item delimiter that does not end the tuple. */
  lemma StepOnFieldDelim(cfg: Config, mode: Mode, sc: Scan, c: Byte, p: int)
    requires !(mode.detectTuples && IsTupleDelim(cfg, c)) && !sc.lastEscape && IsFieldDelim(cfg, c)
    ensures var e := TrackEscape(cfg, mode, sc, c);
      Step(cfg, mode, sc, c, p) == AddCol(cfg, mode.processEscapes, e, p - e.colStart).(afterCR := false)
  {
  }

  /** Step on any other byte, or on an escaped one. */
  lemma StepOnOther(cfg: Config, mode: Mode, sc: Scan, c: Byte, p: int)
    requires sc.lastEscape || (!(mode.detectTuples && IsTupleDelim(cfg, c)) && !IsFieldDelim(cfg, c))
    ensures Step(cfg, mode, sc, c, p) == TrackEscape(cfg, mode, sc, c).(afterCR := false)
  {
  }
}
