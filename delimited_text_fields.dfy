/**
 * Field boundaries described by the bytes alone, the way RowEndsOf describes row ends:
 * every stored field lies inside the buffer, ends right before a delimiter that no
 * escape masks, and holds no such delimiter itself.
 */
module DelimitedTextFields {
  import opened Wrappers
  import opened DelimitedTextSpec
  import opened DelimitedTextCounts
  import opened DelimitedTextProofs
  import opened DelimitedTextColumns

  /**
   * Is the byte at j masked by an unconsumed escape? Without escape processing only the
   * first byte can be, by the escape carried over from the previous call.
   */
  predicate Masked(cfg: Config, mode: Mode, carried: bool, s: seq<Byte>, j: nat)
    requires j <= |s|
  {
    if mode.processEscapes then EscapedAt(cfg, carried, s, j) else j == 0 && carried
  }

  /** Does the byte at j close a column: a field delimiter, or a detected tuple delimiter, not masked? */
  predicate Closes(cfg: Config, mode: Mode, carried: bool, s: seq<Byte>, j: nat)
    requires j < |s|
  {
    && (IsFieldDelim(cfg, s[j]) || (mode.detectTuples && IsTupleDelim(cfg, s[j])))
    && !Masked(cfg, mode, carried, s, j)
  }

  /**
   * A field of non-zero length lies among the first n bytes, ends right before a byte that
   * closes it, and holds no closing byte. Padding is the zero-length case.
   */
  predicate BetweenDelimiters(cfg: Config, mode: Mode, carried: bool, s: seq<Byte>, base: int, n: nat, f: FieldLocation)
    requires n <= |s|
  {
    f.len != 0 ==>
      && base <= f.start && f.start + FieldSpan(f) < base + n
      && Closes(cfg, mode, carried, s, f.start + FieldSpan(f) - base)
      && forall i | f.start - base <= i < f.start + FieldSpan(f) - base :: !Closes(cfg, mode, carried, s, i)
  }

  predicate AllBetweenDelimiters(cfg: Config, mode: Mode, carried: bool, s: seq<Byte>, base: int, n: nat, fs: seq<FieldLocation>)
    requires n <= |s|
  {
    forall k | 0 <= k < |fs| :: BetweenDelimiters(cfg, mode, carried, s, base, n, fs[k])
  }

  /** What a scan of the first n bytes keeps: its fields are delimited and its open column holds no closing byte. */
  predicate OpenColumn(cfg: Config, mode: Mode, carried: bool, s: seq<Byte>, base: int, n: nat, r: Scan)
    requires n <= |s|
  {
    && base <= r.colStart <= base + n
    && r.lastEscape == Masked(cfg, mode, carried, s, n)
    && (r.afterCR ==> r.colStart == base + n)
    && (forall i | r.colStart - base <= i < n :: !Closes(cfg, mode, carried, s, i))
    && AllBetweenDelimiters(cfg, mode, carried, s, base, n, r.fields)
  }

  lemma MaskedNext(cfg: Config, mode: Mode, carried: bool, s: seq<Byte>, n: nat)
    requires n < |s|
    ensures Masked(cfg, mode, carried, s, n + 1)
            == (mode.processEscapes && IsEscape(cfg, s[n]) && !Masked(cfg, mode, carried, s, n))
  {
    if mode.processEscapes {
      EscapedAtNext(cfg, carried, s, n + 1);
    }
  }

  lemma AllBetweenGrows(cfg: Config, mode: Mode, carried: bool, s: seq<Byte>, base: int, n: nat, fs: seq<FieldLocation>)
    requires n < |s| && AllBetweenDelimiters(cfg, mode, carried, s, base, n, fs)
    ensures AllBetweenDelimiters(cfg, mode, carried, s, base, n + 1, fs)
  {
    forall k | 0 <= k < |fs|
      ensures BetweenDelimiters(cfg, mode, carried, s, base, n + 1, fs[k])
    {
      assert BetweenDelimiters(cfg, mode, carried, s, base, n, fs[k]);
    }
  }

  lemma AllBetweenAppend(cfg: Config, mode: Mode, carried: bool, s: seq<Byte>, base: int, n: nat,
                         a: seq<FieldLocation>, b: seq<FieldLocation>)
    requires n <= |s|
    requires AllBetweenDelimiters(cfg, mode, carried, s, base, n, a)
    requires AllBetweenDelimiters(cfg, mode, carried, s, base, n, b)
    ensures AllBetweenDelimiters(cfg, mode, carried, s, base, n, a + b)
  {
    forall k | 0 <= k < |a + b|
      ensures BetweenDelimiters(cfg, mode, carried, s, base, n, (a + b)[k])
    {
      if k < |a| {
        assert (a + b)[k] == a[k];
      } else {
        assert (a + b)[k] == b[k - |a|];
      }
    }
  }

  /** The column that byte n closes, stored from the open column m, is delimited by that byte. */
  lemma ClosedColumnBetween(cfg: Config, mode: Mode, carried: bool, s: seq<Byte>, base: int, n: nat,
                            m: Scan, pe: bool, hasEscape: bool)
    requires n < |s| && OpenColumn(cfg, mode, carried, s, base, n, m)
    requires Closes(cfg, mode, carried, s, n)
    ensures AllBetweenDelimiters(cfg, mode, carried, s, base, n + 1,
              ColumnField(cfg, pe, m.columnIdx, hasEscape, m.colStart, base + n - m.colStart))
  {
    var cf := ColumnField(cfg, pe, m.columnIdx, hasEscape, m.colStart, base + n - m.colStart);
    forall k | 0 <= k < |cf|
      ensures BetweenDelimiters(cfg, mode, carried, s, base, n + 1, cf[k])
    {
      assert FieldSpan(cf[k]) == base + n - m.colStart;
    }
  }

  lemma PaddingBetween(cfg: Config, mode: Mode, carried: bool, s: seq<Byte>, base: int, n: nat, j: nat)
    requires n <= |s|
    ensures AllBetweenDelimiters(cfg, mode, carried, s, base, n, FillFields(cfg, false, false, j, None, 0))
  {
    FillFieldsWithoutColumnIsPadding(cfg, j);
    PaddingLengths(cfg, j, 0);
  }

  /** A byte that closes nothing leaves the column open and extends it by one byte. */
  lemma OtherKeepsOpen(cfg: Config, mode: Mode, carried: bool, s: seq<Byte>, base: int, n: nat, m: Scan)
    requires n < |s| && OpenColumn(cfg, mode, carried, s, base, n, m)
    requires !Closes(cfg, mode, carried, s, n)
    ensures OpenColumn(cfg, mode, carried, s, base, n + 1, Step(cfg, mode, m, s[n], base + n))
  {
    hide Step;
    StepOnOther(cfg, mode, m, s[n], base + n);
    StepLastEscape(cfg, mode, m, s[n], base + n);
    MaskedNext(cfg, mode, carried, s, n);
    AllBetweenGrows(cfg, mode, carried, s, base, n, m.fields);
  }

  /** The '\n' of a "\r\n" only moves the column start past itself. */
  lemma SkipKeepsOpen(cfg: Config, mode: Mode, carried: bool, s: seq<Byte>, base: int, n: nat, m: Scan)
    requires n < |s| && OpenColumn(cfg, mode, carried, s, base, n, m)
    requires mode.detectTuples && !m.lastEscape && IsTupleDelim(cfg, s[n]) && m.afterCR && s[n] == LF
    ensures OpenColumn(cfg, mode, carried, s, base, n + 1, Step(cfg, mode, m, s[n], base + n))
  {
    hide Step;
    StepOnTupleDelim(cfg, mode, m, s[n], base + n);
    StepLastEscape(cfg, mode, m, s[n], base + n);
    MaskedNext(cfg, mode, carried, s, n);
    AllBetweenGrows(cfg, mode, carried, s, base, n, m.fields);
  }

  /** A row delimiter stores the open column, delimited by itself, and zero-length padding. */
  lemma EndTupleKeepsOpen(cfg: Config, mode: Mode, carried: bool, s: seq<Byte>, base: int, n: nat, m: Scan)
    requires n < |s| && OpenColumn(cfg, mode, carried, s, base, n, m)
    requires mode.detectTuples && !m.lastEscape && IsTupleDelim(cfg, s[n]) && !(m.afterCR && s[n] == LF)
    ensures OpenColumn(cfg, mode, carried, s, base, n + 1, Step(cfg, mode, m, s[n], base + n))
  {
    hide Step;
    var p := base + n;
    var e := TrackEscape(cfg, mode, m, s[n]);
    StepOnTupleDelim(cfg, mode, m, s[n], p);
    StepLastEscape(cfg, mode, m, s[n], p);
    MaskedNext(cfg, mode, carried, s, n);
    AllBetweenGrows(cfg, mode, carried, s, base, n, m.fields);
    ClosedColumnBetween(cfg, mode, carried, s, base, n, m, true, e.hasEscape);
    PaddingBetween(cfg, mode, carried, s, base, n + 1, m.columnIdx + 1);
    var cf := ColumnField(cfg, true, m.columnIdx, e.hasEscape, m.colStart, p - m.colStart);
    var pad := FillFields(cfg, false, false, m.columnIdx + 1, None, 0);
    AllBetweenAppend(cfg, mode, carried, s, base, n + 1, m.fields, cf);
    AllBetweenAppend(cfg, mode, carried, s, base, n + 1, m.fields + cf, pad);
    assert EndTuple(cfg, e, p).fields == m.fields + cf + pad;
  }

  /** A field delimiter stores the open column, delimited by itself. */
  lemma FieldDelimKeepsOpen(cfg: Config, mode: Mode, carried: bool, s: seq<Byte>, base: int, n: nat, m: Scan)
    requires n < |s| && OpenColumn(cfg, mode, carried, s, base, n, m)
    requires !(mode.detectTuples && IsTupleDelim(cfg, s[n])) && !m.lastEscape && IsFieldDelim(cfg, s[n])
    ensures OpenColumn(cfg, mode, carried, s, base, n + 1, Step(cfg, mode, m, s[n], base + n))
  {
    hide Step;
    var p := base + n;
    StepOnFieldDelim(cfg, mode, m, s[n], p);
    StepLastEscape(cfg, mode, m, s[n], p);
    MaskedNext(cfg, mode, carried, s, n);
    AllBetweenGrows(cfg, mode, carried, s, base, n, m.fields);
    var e := TrackEscape(cfg, mode, m, s[n]);
    ClosedColumnBetween(cfg, mode, carried, s, base, n, m, mode.processEscapes, e.hasEscape);
    AllBetweenAppend(cfg, mode, carried, s, base, n + 1, m.fields,
      ColumnField(cfg, mode.processEscapes, m.columnIdx, e.hasEscape, m.colStart, p - m.colStart));
  }

  lemma StepKeepsOpen(cfg: Config, mode: Mode, carried: bool, s: seq<Byte>, base: int, n: nat, m: Scan)
    requires n < |s| && OpenColumn(cfg, mode, carried, s, base, n, m)
    ensures OpenColumn(cfg, mode, carried, s, base, n + 1, Step(cfg, mode, m, s[n], base + n))
  {
    hide Step;
    if !Closes(cfg, mode, carried, s, n) {
      OtherKeepsOpen(cfg, mode, carried, s, base, n, m);
    } else if mode.detectTuples && IsTupleDelim(cfg, s[n]) {
      if m.afterCR && s[n] == LF {
        SkipKeepsOpen(cfg, mode, carried, s, base, n, m);
      } else {
        EndTupleKeepsOpen(cfg, mode, carried, s, base, n, m);
      }
    } else {
      FieldDelimKeepsOpen(cfg, mode, carried, s, base, n, m);
    }
  }

  lemma {:induction false} RunOpenColumn(cfg: Config, mode: Mode, sc: Scan, s: seq<Byte>, base: int, n: nat)
    requires n <= |s| && sc.colStart == base && sc.fields == []
    ensures OpenColumn(cfg, mode, sc.lastEscape, s, base, n, Run(cfg, mode, sc, s, base, n))
    decreases n
  {
    hide Step;
    if n == 0 {
      assert EscapeRun(cfg, s, 0) == 0;
    } else {
      RunOpenColumn(cfg, mode, sc, s, base, n - 1);
      StepKeepsOpen(cfg, mode, sc.lastEscape, s, base, n - 1, Run(cfg, mode, sc, s, base, n - 1));
    }
  }

  /**
   * Every field stored over the first n bytes with a non-zero length lies among them, ends
   * right before a field or row delimiter that no escape masks, and holds no such
   * delimiter; the column still open holds none either. An escaped delimiter is data.
   */
  lemma FieldsBetweenDelimiters(cfg: Config, mode: Mode, sc: Scan, s: seq<Byte>, base: int, n: nat)
    requires n <= |s| && sc.colStart == base && sc.fields == []
    ensures var r := Run(cfg, mode, sc, s, base, n);
      && base <= r.colStart <= base + n
      && (forall i | r.colStart - base <= i < n :: !Closes(cfg, mode, sc.lastEscape, s, i))
      && forall k | 0 <= k < |r.fields| :: BetweenDelimiters(cfg, mode, sc.lastEscape, s, base, n, r.fields[k])
  {
    RunOpenColumn(cfg, mode, sc, s, base, n);
  }
}
