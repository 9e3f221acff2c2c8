/**
 * Column routing and counting: how many fields the tokenizer emits, where
 * they come from, and where rows end.
 */
module DelimitedTextCounts {
  import opened Wrappers
  import opened DelimitedTextSpec

  lemma {:induction false} MaterializedBeforeMonotone(cfg: Config, j: nat, k: nat)
    requires j <= k
    ensures MaterializedBefore(cfg, j) <= MaterializedBefore(cfg, k)
    decreases k
  {
    if j < k {
      MaterializedBeforeMonotone(cfg, j, k - 1);
    }
  }

  /** Columns past the schema add nothing: the count saturates at the number of materialized columns. */
  lemma {:induction false} MaterializedBeforeSaturates(cfg: Config, k: nat)
    requires k >= |cfg.isMaterializedCol|
    ensures MaterializedBefore(cfg, k) == NumMaterialized(cfg)
    decreases k
  {
    if k > |cfg.isMaterializedCol| && k > cfg.numPartitionKeys {
      MaterializedBeforeSaturates(cfg, k - 1);
    } else if k > |cfg.isMaterializedCol| {
      MaterializedBeforeMonotone(cfg, |cfg.isMaterializedCol|, k);
    }
  }

  /** Every prefix of the columns holds at most the tuple's number of materialized columns. */
  lemma MaterializedBeforeBounded(cfg: Config, k: nat)
    ensures MaterializedBefore(cfg, k) <= NumMaterialized(cfg)
  {
    if k >= |cfg.isMaterializedCol| {
      MaterializedBeforeSaturates(cfg, k);
    } else {
      MaterializedBeforeMonotone(cfg, k, |cfg.isMaterializedCol|);
    }
  }

  /** The padding holds one empty field per materialized column from j to the end of the schema. */
  lemma {:induction false} PaddingFacts(cfg: Config, j: nat, d: int)
    requires j >= cfg.numPartitionKeys
    ensures var r := Padding(cfg, j, d);
      && |r| == NumMaterialized(cfg) - MaterializedBefore(cfg, j)
      && (forall i | 0 <= i < |r| :: r[i].len == 0)
    decreases |cfg.isMaterializedCol| - j
  {
    if j < |cfg.isMaterializedCol| {
      PaddingFacts(cfg, j + 1, d + 1);
      MaterializedBeforeBounded(cfg, j + 1);
    } else {
      MaterializedBeforeSaturates(cfg, j);
    }
  }

  /**
   * FillColumns: the trailing column comes first (when it is returned), every other
   * added field is empty, and exactly the materialized columns from the cursor to the
   * end of the schema are added.
   */
  lemma FillFieldsFacts(cfg: Config, pe: bool, hasEscape: bool, j: nat, lastColumn: Option<int>, len: int)
    requires j >= cfg.numPartitionKeys
    ensures var r := FillFields(cfg, pe, hasEscape, j, lastColumn, len);
      && |r| == NumMaterialized(cfg) - MaterializedBefore(cfg, j)
      && (ReturnColumn(cfg, j) ==>
            0 < |r| && r[0] == FieldLocation(if lastColumn.Some? then lastColumn.value else 0,
                                             StoredLen(pe, hasEscape, len)))
      && (forall i | 0 <= i < |r| && (i > 0 || !ReturnColumn(cfg, j)) :: r[i].len == 0)
  {
    if j < |cfg.isMaterializedCol| {
      var pad := Padding(cfg, j + 1, if lastColumn.Some? then 0 else len + 1);
      PaddingFacts(cfg, j + 1, if lastColumn.Some? then 0 else len + 1);
      MaterializedBeforeBounded(cfg, j + 1);
      var head := FillFields(cfg, pe, hasEscape, j, lastColumn, len)[..|FillFields(cfg, pe, hasEscape, j, lastColumn, len)| - |pad|];
      assert FillFields(cfg, pe, hasEscape, j, lastColumn, len) == head + pad;
      assert |head| == if ReturnColumn(cfg, j) then 1 else 0;
    } else {
      MaterializedBeforeSaturates(cfg, j);
    }
  }

  /** The number of fields emitted per step agrees with the tuple count and the column cursor. */
  predicate CountAgrees(cfg: Config, sc: Scan, r: Scan)
  {
    |r.fields| - |sc.fields|
      == (|r.rowEnds| - |sc.rowEnds|) * NumMaterialized(cfg)
         + MaterializedBefore(cfg, r.columnIdx) - MaterializedBefore(cfg, sc.columnIdx)
  }

  /** Outputs only grow: what was emitted before stays as it was. */
  predicate Extends(sc: Scan, r: Scan)
  {
    && sc.fields <= r.fields
    && sc.rowEnds <= r.rowEnds
  }

  /** A tuple boundary closes the column, pads the tuple and records the row end. */
  lemma EndTupleFacts(cfg: Config, sc: Scan, p: int)
    requires sc.columnIdx >= cfg.numPartitionKeys
    ensures var r := EndTuple(cfg, sc, p);
      && r.columnIdx == cfg.numPartitionKeys
      && Extends(sc, r)
      && r.rowEnds == sc.rowEnds + [p]
      && |r.fields| == |sc.fields| + NumMaterialized(cfg) - MaterializedBefore(cfg, sc.columnIdx)
      && r.lastEscape == sc.lastEscape && r.colStart == p + 1
  {
    var a := AddCol(cfg, true, sc, p - sc.colStart);
    FillFieldsFacts(cfg, false, false, a.columnIdx, None, 0);
    MaterializedBeforeBounded(cfg, a.columnIdx);
  }

  /** The facts about one step that the counting and the proofs of the parser rely on. */
  predicate StepAgrees(cfg: Config, mode: Mode, sc: Scan, c: Byte, p: int, r: Scan)
  {
    && r.columnIdx >= cfg.numPartitionKeys
    && Extends(sc, r)
    && CountAgrees(cfg, sc, r)
    && (r.rowEnds == sc.rowEnds || r.rowEnds == sc.rowEnds + [p])
    && (|r.rowEnds| == |sc.rowEnds| + 1 <==>
          mode.detectTuples && !sc.lastEscape && IsTupleDelim(cfg, c) && !(sc.afterCR && c == LF))
    && r.lastEscape == (mode.processEscapes && IsEscape(cfg, c) && !sc.lastEscape)
    && (r.afterCR ==> c == CR && |r.rowEnds| == |sc.rowEnds| + 1)
    && (|r.rowEnds| == |sc.rowEnds| + 1 ==> r.columnIdx == cfg.numPartitionKeys)
  }

  lemma StepFacts(cfg: Config, mode: Mode, sc: Scan, c: Byte, p: int)
    requires sc.columnIdx >= cfg.numPartitionKeys
    ensures StepAgrees(cfg, mode, sc, c, p, Step(cfg, mode, sc, c, p))
  {
    var e := TrackEscape(cfg, mode, sc, c);
    var newTuple := mode.detectTuples && !sc.lastEscape && IsTupleDelim(cfg, c);
    if newTuple && !(sc.afterCR && c == LF) {
      StepEndsTuple(cfg, mode, sc, c, p);
    } else if newTuple {
      var r := e.(colStart := e.colStart + 1).(afterCR := c == CR);
      assert Step(cfg, mode, sc, c, p) == r;
      assert r.fields == sc.fields && r.rowEnds == sc.rowEnds;
      assert StepAgrees(cfg, mode, sc, c, p, r);
    } else if !sc.lastEscape && IsFieldDelim(cfg, c) {
      StepEndsColumn(cfg, mode, sc, c, p);
    } else {
      var r := e.(afterCR := false);
      assert Step(cfg, mode, sc, c, p) == r;
      assert r.fields == sc.fields && r.rowEnds == sc.rowEnds;
      assert StepAgrees(cfg, mode, sc, c, p, r);
    }
  }

  lemma StepEndsTuple(cfg: Config, mode: Mode, sc: Scan, c: Byte, p: int)
    requires sc.columnIdx >= cfg.numPartitionKeys
    requires mode.detectTuples && !sc.lastEscape && IsTupleDelim(cfg, c) && !(sc.afterCR && c == LF)
    ensures StepAgrees(cfg, mode, sc, c, p, Step(cfg, mode, sc, c, p))
  {
    var e := TrackEscape(cfg, mode, sc, c);
    EndTupleFacts(cfg, e, p);
    var r := EndTuple(cfg, e, p).(afterCR := c == CR);
    assert Step(cfg, mode, sc, c, p) == r;
    assert MaterializedBefore(cfg, r.columnIdx) == 0;
    assert |r.fields| - |sc.fields| == NumMaterialized(cfg) - MaterializedBefore(cfg, sc.columnIdx);
    assert |r.rowEnds| - |sc.rowEnds| == 1;
  }

  lemma StepEndsColumn(cfg: Config, mode: Mode, sc: Scan, c: Byte, p: int)
    requires sc.columnIdx >= cfg.numPartitionKeys
    requires !(mode.detectTuples && IsTupleDelim(cfg, c)) && !sc.lastEscape && IsFieldDelim(cfg, c)
    ensures StepAgrees(cfg, mode, sc, c, p, Step(cfg, mode, sc, c, p))
  {
    var e := TrackEscape(cfg, mode, sc, c);
    var r := AddCol(cfg, mode.processEscapes, e, p - e.colStart).(afterCR := false);
    assert Step(cfg, mode, sc, c, p) == r;
    assert r.fields[..|sc.fields|] == sc.fields;
    assert r.rowEnds == sc.rowEnds;
    assert MaterializedBefore(cfg, r.columnIdx)
      == MaterializedBefore(cfg, sc.columnIdx) + (if ReturnColumn(cfg, sc.columnIdx) then 1 else 0);
  }

  lemma StepExtends(cfg: Config, mode: Mode, sc: Scan, c: Byte, p: int)
    requires sc.columnIdx >= cfg.numPartitionKeys
    ensures var r := Step(cfg, mode, sc, c, p);
      r.columnIdx >= cfg.numPartitionKeys && Extends(sc, r)
  {
    StepFacts(cfg, mode, sc, c, p);
  }

  lemma StepCount(cfg: Config, mode: Mode, sc: Scan, c: Byte, p: int)
    requires sc.columnIdx >= cfg.numPartitionKeys
    ensures var r := Step(cfg, mode, sc, c, p);
      && r.columnIdx >= cfg.numPartitionKeys
      && CountAgrees(cfg, sc, r)
      && (!mode.detectTuples ==> r.rowEnds == sc.rowEnds)
  {
    StepFacts(cfg, mode, sc, c, p);
  }

  lemma StepRowEnd(cfg: Config, mode: Mode, sc: Scan, c: Byte, p: int)
    requires sc.columnIdx >= cfg.numPartitionKeys
    ensures var r := Step(cfg, mode, sc, c, p);
      && (r.rowEnds == sc.rowEnds || (r.rowEnds == sc.rowEnds + [p] && IsTupleDelim(cfg, c)))
      && (|r.rowEnds| == |sc.rowEnds| + 1 <==>
            mode.detectTuples && !sc.lastEscape && IsTupleDelim(cfg, c) && !(sc.afterCR && c == LF))
  {
    StepFacts(cfg, mode, sc, c, p);
  }

  lemma ExtendsTransitive(a: Scan, b: Scan, c: Scan)
    requires Extends(a, b) && Extends(b, c)
    ensures Extends(a, c)
  {
    assert c.fields[..|a.fields|] == c.fields[..|b.fields|][..|a.fields|];
    assert c.rowEnds[..|a.rowEnds|] == c.rowEnds[..|b.rowEnds|][..|a.rowEnds|];
  }

  lemma CountTransitive(cfg: Config, a: Scan, b: Scan, c: Scan)
    requires CountAgrees(cfg, a, b) && CountAgrees(cfg, b, c)
    ensures CountAgrees(cfg, a, c)
  {
    var n := NumMaterialized(cfg);
    assert (|b.rowEnds| - |a.rowEnds|) * n + (|c.rowEnds| - |b.rowEnds|) * n
      == (|c.rowEnds| - |a.rowEnds|) * n;
  }

  lemma StepKeepsExtends(cfg: Config, mode: Mode, sc: Scan, m: Scan, c: Byte, p: int)
    requires m.columnIdx >= cfg.numPartitionKeys && Extends(sc, m)
    ensures var r := Step(cfg, mode, m, c, p);
      r.columnIdx >= cfg.numPartitionKeys && Extends(sc, r)
  {
    StepExtends(cfg, mode, m, c, p);
    ExtendsTransitive(sc, m, Step(cfg, mode, m, c, p));
  }

  lemma StepKeepsCount(cfg: Config, mode: Mode, sc: Scan, m: Scan, c: Byte, p: int)
    requires m.columnIdx >= cfg.numPartitionKeys && CountAgrees(cfg, sc, m)
    requires !mode.detectTuples ==> m.rowEnds == sc.rowEnds
    ensures var r := Step(cfg, mode, m, c, p);
      && r.columnIdx >= cfg.numPartitionKeys
      && CountAgrees(cfg, sc, r)
      && (!mode.detectTuples ==> r.rowEnds == sc.rowEnds)
  {
    StepCount(cfg, mode, m, c, p);
    CountTransitive(cfg, sc, m, Step(cfg, mode, m, c, p));
  }

  /** Over any buffer, what was emitted before stays as it was. */
  lemma {:induction false} RunExtends(cfg: Config, mode: Mode, sc: Scan, s: seq<Byte>, base: int, n: nat)
    requires n <= |s| && sc.columnIdx >= cfg.numPartitionKeys
    ensures var r := Run(cfg, mode, sc, s, base, n);
      r.columnIdx >= cfg.numPartitionKeys && Extends(sc, r)
    decreases n
  {
    hide Step;
    if n > 0 {
      RunExtends(cfg, mode, sc, s, base, n - 1);
      StepKeepsExtends(cfg, mode, sc, Run(cfg, mode, sc, s, base, n - 1), s[n - 1], base + n - 1);
    }
  }

  /**
   * Over any buffer, the number of fields emitted is one per materialized column of every
   * tuple crossed, so skipped and surplus columns never produce a field; without tuple
   * detection no row ends are reported.
   */
  lemma {:induction false} RunFacts(cfg: Config, mode: Mode, sc: Scan, s: seq<Byte>, base: int, n: nat)
    requires n <= |s| && sc.columnIdx >= cfg.numPartitionKeys
    ensures var r := Run(cfg, mode, sc, s, base, n);
      && r.columnIdx >= cfg.numPartitionKeys
      && CountAgrees(cfg, sc, r)
      && (!mode.detectTuples ==> r.rowEnds == sc.rowEnds)
    decreases n
  {
    hide Step;
    if n > 0 {
      RunFacts(cfg, mode, sc, s, base, n - 1);
      StepKeepsCount(cfg, mode, sc, Run(cfg, mode, sc, s, base, n - 1), s[n - 1], base + n - 1);
    }
  }

  /** Every row end a run reports is the position of a tuple delimiter among the bytes consumed. */
  lemma {:induction false} RunRowEndAt(cfg: Config, mode: Mode, sc: Scan, s: seq<Byte>, base: int, n: nat, k: nat)
    requires n <= |s| && sc.columnIdx >= cfg.numPartitionKeys
    requires |sc.rowEnds| <= k < |Run(cfg, mode, sc, s, base, n).rowEnds|
    ensures var e := Run(cfg, mode, sc, s, base, n).rowEnds[k];
      base <= e < base + n && IsTupleDelim(cfg, s[e - base])
    decreases n
  {
    hide Step;
    var m := Run(cfg, mode, sc, s, base, n - 1);
    var r := Run(cfg, mode, sc, s, base, n);
    RunExtends(cfg, mode, sc, s, base, n - 1);
    StepRowEnd(cfg, mode, m, s[n - 1], base + n - 1);
    if k < |m.rowEnds| {
      RunRowEndAt(cfg, mode, sc, s, base, n - 1, k);
      assert r.rowEnds[k] == m.rowEnds[k];
    } else {
      assert r.rowEnds[k] == base + n - 1;
    }
  }

  /** Cursor consistency: a pending '\r' means the current column starts right after it. */
  predicate Consistent(sc: Scan, pos: int)
  {
    sc.colStart <= pos && (sc.afterCR ==> sc.colStart == pos)
  }

  lemma StepPositions(cfg: Config, mode: Mode, sc: Scan, c: Byte, p: int)
    requires Consistent(sc, p)
    ensures var r := Step(cfg, mode, sc, c, p);
      Consistent(r, p + 1) && sc.colStart <= r.colStart
  {
    var e := TrackEscape(cfg, mode, sc, c);
    if mode.detectTuples && !sc.lastEscape && IsTupleDelim(cfg, c) && !(sc.afterCR && c == LF) {
      assert Step(cfg, mode, sc, c, p).colStart == AddCol(cfg, true, e, p - e.colStart).colStart;
    }
  }

  /** The column start never moves backwards and never passes the bytes consumed. */
  lemma {:induction false} RunPositions(cfg: Config, mode: Mode, sc: Scan, s: seq<Byte>, base: int, n: nat)
    requires n <= |s| && Consistent(sc, base)
    ensures var r := Run(cfg, mode, sc, s, base, n);
      Consistent(r, base + n) && sc.colStart <= r.colStart
    decreases n
  {
    hide Step;
    if n > 0 {
      RunPositions(cfg, mode, sc, s, base, n - 1);
      StepPositions(cfg, mode, Run(cfg, mode, sc, s, base, n - 1), s[n - 1], base + n - 1);
    }
  }
}
