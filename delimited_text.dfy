/**
 * The delimited-text parser as the scanner uses it: an object that keeps the
 * column cursor, the escape flags and the pending-'\r' offset between calls,
 * and writes field and row-end locations into arrays the caller provides.
 * Positions are integer offsets in the caller's address space; a buffer is
 * the sequence of its bytes together with the offset of its first byte.
 * Every method is proved to compute what the functions of DelimitedTextSpec
 * say one byte at a time.
 */
module DelimitedText {
  import opened Wrappers
  import opened DelimitedTextSpec
  import opened DelimitedTextCounts
  import opened DelimitedTextProofs

  lemma AppendAssoc<T>(a: seq<T>, b: seq<T>, c: seq<T>)
    ensures (a + b) + c == a + (b + c)
  {
  }

  /** Two sequences that agree from i on agree from any later j on. */
  lemma SuffixAgrees<T>(a: seq<T>, b: seq<T>, i: nat, j: nat)
    requires i <= j <= |a| == |b| && a[i..] == b[i..]
    ensures a[j..] == b[j..]
  {
    assert a[j..] == a[i..][j - i..];
    assert b[j..] == b[i..][j - i..];
  }

  /** One column of padding: the field AddColumn writes for an empty column on the dummy cursor. */
  lemma PaddingStep(cfg: Config, processEscapes: bool, j: nat, d: int)
    ensures Padding(cfg, j, d)
            == if j < |cfg.isMaterializedCol|
               then ColumnField(cfg, processEscapes, j, false, d, 0) + Padding(cfg, j + 1, d + 1)
               else []
  {
  }

  /** FillColumns' output: the trailing column, then the padding on the dummy cursor. */
  lemma FillFieldsSplit(cfg: Config, processEscapes: bool, hasEscape: bool, j: nat, lastColumn: Option<int>, len: int)
    ensures FillFields(cfg, processEscapes, hasEscape, j, lastColumn, len)
            == if j < |cfg.isMaterializedCol|
               then ColumnField(cfg, processEscapes, j, hasEscape, if lastColumn.Some? then lastColumn.value else 0, len)
                    + Padding(cfg, j + 1, if lastColumn.Some? then 0 else len + 1)
               else []
  {
  }

  lemma MulMonotone(a: nat, b: nat, c: nat)
    requires a <= b
    ensures a * c <= b * c
  {
    assert b * c == a * c + (b - a) * c;
  }

  /** Never more than the cap: a full cap ends on the last tuple, the tuple count times the field count fits. */
  lemma FieldsFitCapacity(cfg: Config, c0: Scan, r: Scan, maxTuples: nat)
    requires c0.fields == [] && c0.rowEnds == [] && c0.columnIdx >= cfg.numPartitionKeys
    requires CountAgrees(cfg, c0, r) && r.columnIdx >= cfg.numPartitionKeys
    requires |r.rowEnds| < maxTuples || (|r.rowEnds| == maxTuples && r.columnIdx == cfg.numPartitionKeys)
    ensures |r.fields| <= maxTuples * NumMaterialized(cfg)
  {
    var nm, k := NumMaterialized(cfg), |r.rowEnds|;
    var now := MaterializedBefore(cfg, r.columnIdx);
    assert |r.fields| == k * nm + now - MaterializedBefore(cfg, c0.columnIdx);
    MaterializedBeforeBounded(cfg, r.columnIdx);
    if k < maxTuples {
      MulMonotone(k, maxTuples - 1, nm);
      assert maxTuples * nm == (maxTuples - 1) * nm + nm;
    } else {
      assert now == 0;
    }
  }

  /** Closing a tuple leaves the pending-'\r' flag as it found it. */
  lemma EndTupleKeepsAfterCR(cfg: Config, sc: Scan, p: int, afterCR: bool)
    ensures EndTuple(cfg, sc.(afterCR := afterCR), p) == EndTuple(cfg, sc, p).(afterCR := afterCR)
    ensures EndTuple(cfg, sc, p).rowEnds == sc.rowEnds + [p]
  {
  }

  class DelimitedTextParser {
    const tupleDelim: Byte
    const fieldDelim: Byte
    const collectionItemDelim: Byte
    const escapeChar: Byte
    /** Partition columns come from the file's location, never from its bytes. */
    const numPartitionKeys: nat
    /** One flag per column index, partition columns included; its length is the column count. */
    const isMaterializedCol: seq<bool>

    /** The column being scanned. */
    var columnIdx: nat
    /** Does the column being scanned hold an escape character? */
    var currentColumnHasEscape: bool
    /** Was the previous byte an escape character that nothing has consumed? */
    var lastCharIsEscape: bool
    /**
     * Between calls: 0 exactly when the previous buffer ended with an unescaped '\r' row
     * delimiter, -1 after a reset. During a call: equal to the number of bytes still to scan
     * exactly when the byte just scanned was such a '\r'.
     */
    var lastRowDelimOffset: int

    /** The configuration the parser was built with. */
    function Settings(): Config
    {
      Config(tupleDelim, fieldDelim, collectionItemDelim, escapeChar, numPartitionKeys, isMaterializedCol)
    }

    /** The column cursor never points into the partition columns. */
    predicate Valid()
      reads this
    {
      columnIdx >= numPartitionKeys
    }

    /** The parser's fields hold the cross-call part of scan r. */
    predicate Reflects(r: Scan)
      reads this
    {
      && columnIdx == r.columnIdx
      && currentColumnHasEscape == r.hasEscape
      && lastCharIsEscape == r.lastEscape
      && (lastRowDelimOffset == 0) == r.afterCR
    }

    /** The scan a call over a buffer whose first byte is at `base` starts from. */
    function Carried(base: int): (r: Scan)
      reads this
      ensures Reflects(r) && r.colStart == base && r.fields == [] && r.rowEnds == []
    {
      Scan(columnIdx, currentColumnHasEscape, lastCharIsEscape, lastRowDelimOffset == 0, base, [], [])
    }

    /**
     * A parser for the given delimiters and columns, ready for the start of a scan range.
     * A NUL delimiter disables its role; no two active roles may share a character.
     */
    constructor(numPartitionKeys: nat, isMaterializedCol: seq<bool>, tupleDelim: Byte,
                fieldDelim: Byte := NUL, collectionItemDelim: Byte := NUL, escapeChar: Byte := NUL)
      requires DelimitersDistinct(tupleDelim, fieldDelim, collectionItemDelim, escapeChar)
      ensures Settings() == Config(tupleDelim, fieldDelim, collectionItemDelim, escapeChar,
                                   numPartitionKeys, isMaterializedCol)
      ensures Valid() && AtTupleStart() && lastRowDelimOffset == -1
      ensures forall base :: Carried(base) == StartOfTuple(Settings(), base)
    {
      this.tupleDelim := tupleDelim;
      this.fieldDelim := fieldDelim;
      this.collectionItemDelim := collectionItemDelim;
      this.escapeChar := escapeChar;
      this.numPartitionKeys := numPartitionKeys;
      this.isMaterializedCol := isMaterializedCol;
      columnIdx := numPartitionKeys;
      currentColumnHasEscape := false;
      lastCharIsEscape := false;
      lastRowDelimOffset := -1;
    }

    /** Start of a scan range: the next byte opens a tuple, with no escape or '\r' pending. */
    method ParserReset()
      modifies this
      ensures Valid() && AtTupleStart() && lastRowDelimOffset == -1
      ensures forall base :: Carried(base) == StartOfTuple(Settings(), base)
    {
      currentColumnHasEscape := false;
      lastCharIsEscape := false;
      lastRowDelimOffset := -1;
      columnIdx := numPartitionKeys;
    }

    /** At the start of a tuple no column of it has been consumed. */
    function AtTupleStart(): (r: bool)
      reads this
      ensures r <==> Carried(0).columnIdx == StartOfTuple(Settings(), 0).columnIdx
      ensures r ==> MaterializedBefore(Settings(), columnIdx) == 0
    {
      columnIdx == numPartitionKeys
    }

    /**
     * Is the current column returned to the query? Only inside the schema, so the flags are
     * never read out of bounds, and exactly when the column adds one to the field count.
     */
    function ReturnCurrentColumn(): (r: bool)
      reads this
      ensures r ==> columnIdx < |isMaterializedCol|
      ensures r <==> |ColumnField(Settings(), false, columnIdx, false, 0, 0)| == 1
      ensures Valid() ==>
        (r <==> MaterializedBefore(Settings(), columnIdx + 1) == MaterializedBefore(Settings(), columnIdx) + 1)
    {
      columnIdx < |isMaterializedCol| && isMaterializedCol[columnIdx]
    }

    /**
     * Close the current column, of `len` bytes starting at `nextColumnStart`: write its
     * location when it is returned (length negated when escapes are processed and the column
     * holds one), move the cursor past the delimiter and on to the next column.
     */
    method AddColumn(processEscapes: bool, len: int, nextColumnStart: int, numFields: nat,
                     fieldLocations: array<FieldLocation>)
      returns (newColumnStart: int, newNumFields: nat)
      requires numFields <= fieldLocations.Length
      requires ReturnCurrentColumn() ==> numFields < fieldLocations.Length
      modifies this, fieldLocations
      ensures var f := ColumnField(Settings(), processEscapes, old(columnIdx), old(currentColumnHasEscape),
                                   nextColumnStart, len);
        && newNumFields == numFields + |f| <= fieldLocations.Length
        && fieldLocations[..newNumFields] == old(fieldLocations[..numFields]) + f
        && fieldLocations[newNumFields..] == old(fieldLocations[newNumFields..])
      ensures newColumnStart == nextColumnStart + len + 1
      ensures columnIdx == old(columnIdx) + 1 && !currentColumnHasEscape
      ensures lastCharIsEscape == old(lastCharIsEscape) && lastRowDelimOffset == old(lastRowDelimOffset)
    {
      if ReturnCurrentColumn() {
        fieldLocations[numFields] := FieldLocation(nextColumnStart,
          if processEscapes && currentColumnHasEscape then -len else len);
        newNumFields := numFields + 1;
      } else {
        newNumFields := numFields;
      }
      currentColumnHasEscape := false;
      newColumnStart := nextColumnStart + len + 1;
      columnIdx := columnIdx + 1;
    }

    /**
     * The padding loop of FillColumns: an empty field, on the dummy cursor `dummy`, for
     * every materialized column from the cursor to the end of the schema.
     */
    method PadColumns(processEscapes: bool, dummy: int, numFields: nat, fieldLocations: array<FieldLocation>)
      returns (newNumFields: nat)
      requires !currentColumnHasEscape
      requires numFields + |Padding(Settings(), columnIdx, dummy)| <= fieldLocations.Length
      modifies this, fieldLocations
      ensures var p := Padding(Settings(), old(columnIdx), dummy);
        && newNumFields == numFields + |p|
        && fieldLocations[..newNumFields] == old(fieldLocations[..numFields]) + p
        && fieldLocations[newNumFields..] == old(fieldLocations[newNumFields..])
      ensures columnIdx == if old(columnIdx) < |isMaterializedCol| then |isMaterializedCol| else old(columnIdx)
      ensures !currentColumnHasEscape
      ensures lastCharIsEscape == old(lastCharIsEscape) && lastRowDelimOffset == old(lastRowDelimOffset)
    {
      ghost var cfg := Settings();
      ghost var pad := Padding(cfg, columnIdx, dummy);
      ghost var written: seq<FieldLocation> := [];
      hide Padding;
      var d := dummy;
      newNumFields := numFields;
      while columnIdx < |isMaterializedCol|
        invariant old(columnIdx) <= columnIdx && !currentColumnHasEscape
        invariant old(columnIdx) < |isMaterializedCol| ==> columnIdx <= |isMaterializedCol|
        invariant old(columnIdx) >= |isMaterializedCol| ==> columnIdx == old(columnIdx)
        invariant pad == written + Padding(cfg, columnIdx, d)
        invariant newNumFields + |Padding(cfg, columnIdx, d)| <= fieldLocations.Length
        invariant fieldLocations[..newNumFields] == old(fieldLocations[..numFields]) + written
        invariant fieldLocations[newNumFields..] == old(fieldLocations[newNumFields..])
        invariant lastCharIsEscape == old(lastCharIsEscape) && lastRowDelimOffset == old(lastRowDelimOffset)
        decreases |isMaterializedCol| - columnIdx
      {
        ghost var f := ColumnField(cfg, processEscapes, columnIdx, false, d, 0);
        PaddingStep(cfg, processEscapes, columnIdx, d);
        d, newNumFields := AddColumn(processEscapes, 0, d, newNumFields, fieldLocations);
        AppendAssoc(written, f, Padding(cfg, columnIdx, d));
        AppendAssoc(old(fieldLocations[..numFields]), written, f);
        written := written + f;
      }
      PaddingStep(cfg, processEscapes, columnIdx, d);
    }

    /**
     * Complete the tuple: the trailing column of `len` bytes (on the caller's cursor, or on
     * a null dummy cursor when there is none), then an empty field for every remaining
     * materialized column. Nothing happens when the cursor is already past the schema.
     */
    method FillColumns(processEscapes: bool, len: int, lastColumn: Option<int>, numFields: nat,
                       fieldLocations: array<FieldLocation>)
      returns (newLastColumn: Option<int>, newNumFields: nat)
      requires numFields + |FillFields(Settings(), processEscapes, currentColumnHasEscape, columnIdx, lastColumn, len)|
               <= fieldLocations.Length
      modifies this, fieldLocations
      ensures var f := FillFields(Settings(), processEscapes, old(currentColumnHasEscape), old(columnIdx), lastColumn, len);
        && newNumFields == numFields + |f|
        && fieldLocations[..newNumFields] == old(fieldLocations[..numFields]) + f
        && fieldLocations[newNumFields..] == old(fieldLocations[newNumFields..])
      ensures old(columnIdx) < |isMaterializedCol| ==>
        && columnIdx == |isMaterializedCol| && !currentColumnHasEscape
        && newLastColumn == (if lastColumn.Some? then Some(lastColumn.value + len + 1) else None)
      ensures old(columnIdx) >= |isMaterializedCol| ==>
        columnIdx == old(columnIdx) && currentColumnHasEscape == old(currentColumnHasEscape) && newLastColumn == lastColumn
      ensures lastCharIsEscape == old(lastCharIsEscape) && lastRowDelimOffset == old(lastRowDelimOffset)
    {
      newLastColumn, newNumFields := lastColumn, numFields;
      hide Padding;
      hide FillFields;
      FillFieldsSplit(Settings(), processEscapes, currentColumnHasEscape, columnIdx, lastColumn, len);
      if columnIdx < |isMaterializedCol| {
        ghost var cf := ColumnField(Settings(), processEscapes, columnIdx, currentColumnHasEscape,
                                    if lastColumn.Some? then lastColumn.value else 0, len);
        var dummy := 0;
        if lastColumn.Some? {
          var next;
          next, newNumFields := AddColumn(processEscapes, len, lastColumn.value, numFields, fieldLocations);
          newLastColumn := Some(next);
        } else {
          dummy, newNumFields := AddColumn(processEscapes, len, dummy, numFields, fieldLocations);
        }
        ghost var added := newNumFields;
        ghost var mid := fieldLocations[..];
        newNumFields := PadColumns(processEscapes, dummy, newNumFields, fieldLocations);
        SuffixAgrees(old(fieldLocations[..]), mid, added, newNumFields);
        AppendAssoc(old(fieldLocations[..numFields]), cf, Padding(Settings(), old(columnIdx) + 1, dummy));
      }
    }

    /** The scan the parser is at, given the loop's own variables. */
    function State(afterCR: bool, colStart: int, fields: seq<FieldLocation>, rowEnds: seq<int>): Scan
      reads this
    {
      Scan(columnIdx, currentColumnHasEscape, lastCharIsEscape, afterCR, colStart, fields, rowEnds)
    }

    /** The body of ParseSingleTuple's loop: byte c at position p, tuple delimiters not detected. */
    method ConsumeFieldByte(processEscapes: bool, c: Byte, p: int, nextColumnStart: int, numFields: nat,
                            fieldLocations: array<FieldLocation>)
      returns (newColumnStart: int, newNumFields: nat)
      requires numFields <= fieldLocations.Length
      requires |Step(Settings(), Mode(false, processEscapes),
                     State(false, nextColumnStart, fieldLocations[..numFields], []), c, p).fields|
               <= fieldLocations.Length
      modifies this, fieldLocations
      ensures numFields <= newNumFields <= fieldLocations.Length
      ensures State(false, newColumnStart, fieldLocations[..newNumFields], [])
              == Step(Settings(), Mode(false, processEscapes),
                      old(State(false, nextColumnStart, fieldLocations[..numFields], [])), c, p)
      ensures fieldLocations[newNumFields..] == old(fieldLocations[newNumFields..])
      ensures lastRowDelimOffset == old(lastRowDelimOffset)
    {
      newColumnStart, newNumFields := nextColumnStart, numFields;
      var newCol := !lastCharIsEscape
        && ((fieldDelim != NUL && c == fieldDelim) || (collectionItemDelim != NUL && c == collectionItemDelim));
      if processEscapes && escapeChar != NUL && c == escapeChar {
        currentColumnHasEscape := true;
        lastCharIsEscape := !lastCharIsEscape;
      } else {
        lastCharIsEscape := false;
      }
      if newCol {
        newColumnStart, newNumFields := AddColumn(processEscapes, p - nextColumnStart, nextColumnStart,
                                                  numFields, fieldLocations);
      }
    }

    /**
     * The tuple-delimiter branch of ParseFieldLocations' loop: close the column ending at
     * position p, pad the tuple and record p as its row end.
     */
    method CloseTuple(ghost afterCR: bool, p: int, nextColumnStart: int, numTuples: nat, numFields: nat,
                      rowEndLocations: array<int>, fieldLocations: array<FieldLocation>)
      returns (newColumnStart: int, newNumTuples: nat, newNumFields: nat)
      requires numTuples < rowEndLocations.Length && numFields <= fieldLocations.Length
      requires |EndTuple(Settings(), State(afterCR, nextColumnStart, fieldLocations[..numFields],
                                           rowEndLocations[..numTuples]), p).fields|
               <= fieldLocations.Length
      modifies this, rowEndLocations, fieldLocations
      ensures newNumTuples == numTuples + 1 && numFields <= newNumFields <= fieldLocations.Length
      ensures State(afterCR, newColumnStart, fieldLocations[..newNumFields], rowEndLocations[..newNumTuples])
              == EndTuple(Settings(), old(State(afterCR, nextColumnStart, fieldLocations[..numFields],
                                                rowEndLocations[..numTuples])), p)
      ensures lastRowDelimOffset == old(lastRowDelimOffset)
      ensures fieldLocations[newNumFields..] == old(fieldLocations[newNumFields..])
      ensures rowEndLocations[newNumTuples..] == old(rowEndLocations[newNumTuples..])
    {
      hide FillFields;
      newColumnStart, newNumFields := AddColumn(true, p - nextColumnStart, nextColumnStart, numFields, fieldLocations);
      var _, filled := FillColumns(false, 0, None, newNumFields, fieldLocations);
      newNumFields := filled;
      columnIdx := numPartitionKeys;
      rowEndLocations[numTuples] := p;
      newNumTuples := numTuples + 1;
    }

    /**
     * The body of ParseFieldLocations' loop: byte c at position p with `remaining` bytes
     * of the buffer still to scan, this one included.
     */
    method ConsumeByte(c: Byte, p: int, remaining: int, nextColumnStart: int, numTuples: nat, numFields: nat,
                       rowEndLocations: array<int>, fieldLocations: array<FieldLocation>)
      returns (newColumnStart: int, newNumTuples: nat, newNumFields: nat)
      requires remaining >= 1 && (lastRowDelimOffset == -1 || lastRowDelimOffset >= remaining)
      requires numTuples <= rowEndLocations.Length && numFields <= fieldLocations.Length
      requires var r := Step(Settings(), TupleMode,
                   State(lastRowDelimOffset == remaining, nextColumnStart, fieldLocations[..numFields],
                         rowEndLocations[..numTuples]), c, p);
        |r.fields| <= fieldLocations.Length && |r.rowEnds| <= rowEndLocations.Length
      modifies this, rowEndLocations, fieldLocations
      ensures numTuples <= newNumTuples <= rowEndLocations.Length && numFields <= newNumFields <= fieldLocations.Length
      ensures State(lastRowDelimOffset == remaining - 1, newColumnStart, fieldLocations[..newNumFields],
                    rowEndLocations[..newNumTuples])
              == Step(Settings(), TupleMode,
                      old(State(lastRowDelimOffset == remaining, nextColumnStart, fieldLocations[..numFields],
                                rowEndLocations[..numTuples])), c, p)
      ensures lastRowDelimOffset == -1 || lastRowDelimOffset >= remaining - 1
      ensures fieldLocations[newNumFields..] == old(fieldLocations[newNumFields..])
      ensures rowEndLocations[newNumTuples..] == old(rowEndLocations[newNumTuples..])
    {
      if !lastCharIsEscape && tupleDelim != NUL && (c == tupleDelim || (tupleDelim == LF && c == CR)) {
        newColumnStart, newNumTuples, newNumFields := ConsumeTupleDelim(c, p, remaining, nextColumnStart, numTuples,
                                                                        numFields, rowEndLocations, fieldLocations);
      } else {
        newColumnStart, newNumTuples, newNumFields := ConsumeOtherByte(c, p, remaining, nextColumnStart, numTuples,
                                                                       numFields, rowEndLocations, fieldLocations);
      }
    }

    /** ConsumeByte on an unescaped tuple delimiter. */
    method ConsumeTupleDelim(c: Byte, p: int, remaining: int, nextColumnStart: int, numTuples: nat, numFields: nat,
                             rowEndLocations: array<int>, fieldLocations: array<FieldLocation>)
      returns (newColumnStart: int, newNumTuples: nat, newNumFields: nat)
      requires !lastCharIsEscape && IsTupleDelim(Settings(), c)
      requires remaining >= 1 && (lastRowDelimOffset == -1 || lastRowDelimOffset >= remaining)
      requires numTuples <= rowEndLocations.Length && numFields <= fieldLocations.Length
      requires var r := Step(Settings(), TupleMode,
                   State(lastRowDelimOffset == remaining, nextColumnStart, fieldLocations[..numFields],
                         rowEndLocations[..numTuples]), c, p);
        |r.fields| <= fieldLocations.Length && |r.rowEnds| <= rowEndLocations.Length
      modifies this, rowEndLocations, fieldLocations
      ensures numTuples <= newNumTuples <= rowEndLocations.Length && numFields <= newNumFields <= fieldLocations.Length
      ensures State(lastRowDelimOffset == remaining - 1, newColumnStart, fieldLocations[..newNumFields],
                    rowEndLocations[..newNumTuples])
              == Step(Settings(), TupleMode,
                      old(State(lastRowDelimOffset == remaining, nextColumnStart, fieldLocations[..numFields],
                                rowEndLocations[..numTuples])), c, p)
      ensures lastRowDelimOffset == -1 || lastRowDelimOffset >= remaining - 1
      ensures fieldLocations[newNumFields..] == old(fieldLocations[newNumFields..])
      ensures rowEndLocations[newNumTuples..] == old(rowEndLocations[newNumTuples..])
    {
      ghost var cfg := Settings();
      ghost var sc := State(lastRowDelimOffset == remaining, nextColumnStart, fieldLocations[..numFields],
                            rowEndLocations[..numTuples]);
      ghost var e := TrackEscape(cfg, TupleMode, sc, c);
      hide Step;
      hide EndTuple;
      StepOnTupleDelim(cfg, TupleMode, sc, c, p);
      newColumnStart, newNumTuples, newNumFields := nextColumnStart, numTuples, numFields;
      if escapeChar != NUL && c == escapeChar {
        currentColumnHasEscape := true;
        lastCharIsEscape := !lastCharIsEscape;
      } else {
        lastCharIsEscape := false;
      }
      // the '\n' of a "\r\n" ends no row: the row already ended at the '\r'
      var crlf := lastRowDelimOffset == remaining && c == LF;
      lastRowDelimOffset := if c == CR then remaining - 1 else -1;
      if crlf {
        newColumnStart := nextColumnStart + 1;
      } else {
        EndTupleKeepsAfterCR(cfg, e, p, c == CR);
        newColumnStart, newNumTuples, newNumFields := CloseTuple(c == CR, p, nextColumnStart, numTuples, numFields,
                                                                 rowEndLocations, fieldLocations);
      }
    }

    /** ConsumeByte on any other byte: a field delimiter closes the column, nothing else does. */
    method ConsumeOtherByte(c: Byte, p: int, remaining: int, nextColumnStart: int, numTuples: nat, numFields: nat,
                            rowEndLocations: array<int>, fieldLocations: array<FieldLocation>)
      returns (newColumnStart: int, newNumTuples: nat, newNumFields: nat)
      requires lastCharIsEscape || !IsTupleDelim(Settings(), c)
      requires remaining >= 1 && (lastRowDelimOffset == -1 || lastRowDelimOffset >= remaining)
      requires numTuples <= rowEndLocations.Length && numFields <= fieldLocations.Length
      requires var r := Step(Settings(), TupleMode,
                   State(lastRowDelimOffset == remaining, nextColumnStart, fieldLocations[..numFields],
                         rowEndLocations[..numTuples]), c, p);
        |r.fields| <= fieldLocations.Length && |r.rowEnds| <= rowEndLocations.Length
      modifies this, rowEndLocations, fieldLocations
      ensures numTuples <= newNumTuples <= rowEndLocations.Length && numFields <= newNumFields <= fieldLocations.Length
      ensures State(lastRowDelimOffset == remaining - 1, newColumnStart, fieldLocations[..newNumFields],
                    rowEndLocations[..newNumTuples])
              == Step(Settings(), TupleMode,
                      old(State(lastRowDelimOffset == remaining, nextColumnStart, fieldLocations[..numFields],
                                rowEndLocations[..numTuples])), c, p)
      ensures lastRowDelimOffset == -1 || lastRowDelimOffset >= remaining - 1
      ensures fieldLocations[newNumFields..] == old(fieldLocations[newNumFields..])
      ensures rowEndLocations[newNumTuples..] == old(rowEndLocations[newNumTuples..])
    {
      ghost var cfg := Settings();
      ghost var sc := State(lastRowDelimOffset == remaining, nextColumnStart, fieldLocations[..numFields],
                            rowEndLocations[..numTuples]);
      hide Step;
      newColumnStart, newNumTuples, newNumFields := nextColumnStart, numTuples, numFields;
      var newCol := !lastCharIsEscape
        && ((fieldDelim != NUL && c == fieldDelim) || (collectionItemDelim != NUL && c == collectionItemDelim));
      if newCol {
        StepOnFieldDelim(cfg, TupleMode, sc, c, p);
      } else {
        StepOnOther(cfg, TupleMode, sc, c, p);
      }
      if escapeChar != NUL && c == escapeChar {
        currentColumnHasEscape := true;
        lastCharIsEscape := !lastCharIsEscape;
      } else {
        lastCharIsEscape := false;
      }
      if newCol {
        newColumnStart, newNumFields := AddColumn(true, p - nextColumnStart, nextColumnStart,
                                                  numFields, fieldLocations);
      }
    }

    /**
     * The loop of ParseSingleTuple: from the start of a tuple, close a column at every
     * unescaped field or collection-item delimiter of the record.
     */
    method ScanSingleTuple(processEscapes: bool, buffer: seq<Byte>, bufferPtr: int,
                           fieldLocations: array<FieldLocation>)
      returns (nextColumnStart: int, numFields: nat)
      requires NumMaterialized(Settings()) <= fieldLocations.Length
      modifies this, fieldLocations
      ensures numFields <= fieldLocations.Length
      ensures State(false, nextColumnStart, fieldLocations[..numFields], [])
              == Run(Settings(), Mode(false, processEscapes), StartOfTuple(Settings(), bufferPtr),
                     buffer, bufferPtr, |buffer|)
      ensures columnIdx >= numPartitionKeys && numFields == MaterializedBefore(Settings(), columnIdx)
      ensures fieldLocations[numFields..] == old(fieldLocations[numFields..])
      ensures lastRowDelimOffset == old(lastRowDelimOffset)
    {
      ghost var cfg := Settings();
      ghost var mode := Mode(false, processEscapes);
      ghost var c0 := StartOfTuple(cfg, bufferPtr);
      hide Step;
      nextColumnStart := bufferPtr;
      columnIdx := numPartitionKeys;
      currentColumnHasEscape := false;
      lastCharIsEscape := false;
      numFields := 0;
      var i := 0;
      while i < |buffer|
        invariant 0 <= i <= |buffer| && numFields <= fieldLocations.Length
        invariant State(false, nextColumnStart, fieldLocations[..numFields], []) == Run(cfg, mode, c0, buffer, bufferPtr, i)
        invariant columnIdx >= numPartitionKeys && CountAgrees(cfg, c0, Run(cfg, mode, c0, buffer, bufferPtr, i))
        invariant fieldLocations[numFields..] == old(fieldLocations[numFields..])
        invariant lastRowDelimOffset == old(lastRowDelimOffset)
      {
        ghost var m := Run(cfg, mode, c0, buffer, bufferPtr, i);
        StepKeepsCount(cfg, mode, c0, m, buffer[i], bufferPtr + i);
        MaterializedBeforeBounded(cfg, Step(cfg, mode, m, buffer[i], bufferPtr + i).columnIdx);
        nextColumnStart, numFields := ConsumeFieldByte(processEscapes, buffer[i], bufferPtr + i, nextColumnStart,
                                                       numFields, fieldLocations);
        i := i + 1;
      }
    }

    /**
     * Parse one record whose extent is known, so no byte ends a tuple: one location per
     * materialized column, the trailing column and the padding included.
     */
    method ParseSingleTuple(processEscapes: bool, buffer: seq<Byte>, bufferPtr: int,
                            fieldLocations: array<FieldLocation>)
      returns (numFields: nat)
      requires NumMaterialized(Settings()) <= fieldLocations.Length
      modifies this, fieldLocations
      ensures numFields == NumMaterialized(Settings())
      ensures fieldLocations[..numFields] == SingleTuple(Settings(), processEscapes, buffer, bufferPtr)
      ensures fieldLocations[numFields..] == old(fieldLocations[numFields..])
      ensures var r := Run(Settings(), Mode(false, processEscapes), StartOfTuple(Settings(), bufferPtr),
                           buffer, bufferPtr, |buffer|);
              var f := Fill(Settings(), processEscapes, r, bufferPtr + |buffer| - r.colStart);
        && columnIdx == f.columnIdx && currentColumnHasEscape == f.hasEscape && lastCharIsEscape == f.lastEscape
      ensures Valid() && columnIdx >= |isMaterializedCol| && lastRowDelimOffset == old(lastRowDelimOffset)
    {
      hide Step;
      hide Run;
      var nextColumnStart;
      nextColumnStart, numFields := ScanSingleTuple(processEscapes, buffer, bufferPtr, fieldLocations);
      var len := bufferPtr + |buffer| - nextColumnStart;
      FillFieldsFacts(Settings(), processEscapes, currentColumnHasEscape, columnIdx, Some(nextColumnStart), len);
      ghost var added := numFields;
      ghost var mid := fieldLocations[..];
      var _, filled := FillColumns(processEscapes, len, Some(nextColumnStart), numFields, fieldLocations);
      numFields := filled;
      SuffixAgrees(old(fieldLocations[..]), mid, added, numFields);
      SingleTupleFieldCount(Settings(), processEscapes, buffer, bufferPtr);
    }

    /**
     * The loop of ParseFieldLocations: consume bytes of `buffer` until it is exhausted or
     * `maxTuples` rows have ended. During the loop the pending '\r' is recorded as the
     * number of bytes left to scan.
     */
    method ScanRows(maxTuples: int, buffer: seq<Byte>, bufferPtr: int, ghost c0: Scan,
                    rowEndLocations: array<int>, fieldLocations: array<FieldLocation>)
      returns (consumed: nat, numTuples: nat, numFields: nat, nextColumnStart: int)
      requires Valid() && maxTuples >= 1
      requires maxTuples <= rowEndLocations.Length
      requires maxTuples * NumMaterialized(Settings()) <= fieldLocations.Length
      requires c0 == State(lastRowDelimOffset == |buffer|, bufferPtr, [], [])
      requires lastRowDelimOffset == -1 || lastRowDelimOffset == |buffer|
      modifies this, rowEndLocations, fieldLocations
      ensures consumed <= |buffer| && numTuples <= maxTuples && numFields <= fieldLocations.Length
      ensures State(lastRowDelimOffset == |buffer| - consumed, nextColumnStart, fieldLocations[..numFields],
                    rowEndLocations[..numTuples])
              == Run(Settings(), TupleMode, c0, buffer, bufferPtr, consumed)
      ensures columnIdx >= numPartitionKeys && CountAgrees(Settings(), c0, Run(Settings(), TupleMode, c0, buffer, bufferPtr, consumed))
      ensures consumed < |buffer| ==> numTuples == maxTuples
      ensures numTuples == maxTuples ==>
        0 < consumed && rowEndLocations[numTuples - 1] == bufferPtr + consumed - 1 && columnIdx == numPartitionKeys
      ensures lastRowDelimOffset == -1 || lastRowDelimOffset >= |buffer| - consumed
      ensures fieldLocations[numFields..] == old(fieldLocations[numFields..])
      ensures rowEndLocations[numTuples..] == old(rowEndLocations[numTuples..])
    {
      ghost var cfg := Settings();
      hide Step;
      nextColumnStart := bufferPtr;
      numTuples, numFields := 0, 0;
      consumed := 0;
      while consumed < |buffer| && numTuples < maxTuples
        invariant 0 <= consumed <= |buffer|
        invariant numTuples <= maxTuples && numFields <= fieldLocations.Length
        invariant State(lastRowDelimOffset == |buffer| - consumed, nextColumnStart, fieldLocations[..numFields],
                        rowEndLocations[..numTuples])
                  == Run(cfg, TupleMode, c0, buffer, bufferPtr, consumed)
        invariant columnIdx >= numPartitionKeys && CountAgrees(cfg, c0, Run(cfg, TupleMode, c0, buffer, bufferPtr, consumed))
        invariant numTuples == maxTuples ==>
          0 < consumed && rowEndLocations[numTuples - 1] == bufferPtr + consumed - 1 && columnIdx == numPartitionKeys
        invariant lastRowDelimOffset == -1 || lastRowDelimOffset >= |buffer| - consumed
        invariant fieldLocations[numFields..] == old(fieldLocations[numFields..])
        invariant rowEndLocations[numTuples..] == old(rowEndLocations[numTuples..])
      {
        ghost var m := Run(cfg, TupleMode, c0, buffer, bufferPtr, consumed);
        ghost var next := Step(cfg, TupleMode, m, buffer[consumed], bufferPtr + consumed);
        StepFacts(cfg, TupleMode, m, buffer[consumed], bufferPtr + consumed);
        CountTransitive(cfg, c0, m, next);
        FieldsFitCapacity(cfg, c0, next, maxTuples);
        nextColumnStart, numTuples, numFields := ConsumeByte(buffer[consumed], bufferPtr + consumed, |buffer| - consumed,
                                                             nextColumnStart, numTuples, numFields,
                                                             rowEndLocations, fieldLocations);
        if numTuples == maxTuples {
          assert next.rowEnds == m.rowEnds + [bufferPtr + consumed];
          assert rowEndLocations[numTuples - 1] == next.rowEnds[numTuples - 1];
        }
        consumed := consumed + 1;
      }
    }

    /**
     * Scan `buffer`, whose first byte is at `bufferPtr`, for field and tuple boundaries,
     * stopping after `maxTuples` tuples: the locations written, the row ends, the column the
     * caller resumes from and the state left for the next buffer are those of Run over the
     * bytes consumed.
     */
    method ParseFieldLocations(maxTuples: int, buffer: seq<Byte>, bufferPtr: int,
                               rowEndLocations: array<int>, fieldLocations: array<FieldLocation>)
      returns (newBufferPtr: int, numTuples: nat, numFields: nat, nextColumnStart: int)
      requires Valid() && maxTuples >= 1
      requires maxTuples <= rowEndLocations.Length
      requires maxTuples * NumMaterialized(Settings()) <= fieldLocations.Length
      modifies this, rowEndLocations, fieldLocations
      ensures Valid()
      ensures bufferPtr <= newBufferPtr <= bufferPtr + |buffer|
      ensures numTuples <= maxTuples && numFields <= fieldLocations.Length
      ensures var r := Run(Settings(), TupleMode, old(Carried(bufferPtr)), buffer, bufferPtr, newBufferPtr - bufferPtr);
        && Reflects(r)
        && numTuples == |r.rowEnds| && rowEndLocations[..numTuples] == r.rowEnds
        && numFields == |r.fields| && fieldLocations[..numFields] == r.fields
        && nextColumnStart == r.colStart
      ensures rowEndLocations[numTuples..] == old(rowEndLocations[numTuples..])
      ensures fieldLocations[numFields..] == old(fieldLocations[numFields..])
      ensures newBufferPtr < bufferPtr + |buffer| ==> numTuples == maxTuples
      ensures numTuples == maxTuples ==> rowEndLocations[numTuples - 1] == newBufferPtr - 1 && AtTupleStart()
      ensures numFields == numTuples * NumMaterialized(Settings())
                           + MaterializedBefore(Settings(), columnIdx) - MaterializedBefore(Settings(), old(columnIdx))
      ensures bufferPtr <= nextColumnStart <= newBufferPtr
    {
      ghost var c0 := Carried(bufferPtr);
      hide Step;
      hide Run;
      lastRowDelimOffset := if lastRowDelimOffset == 0 then |buffer| else -1;
      var consumed;
      consumed, numTuples, numFields, nextColumnStart := ScanRows(maxTuples, buffer, bufferPtr, c0,
                                                                  rowEndLocations, fieldLocations);
      if lastRowDelimOffset == |buffer| - consumed {
        lastRowDelimOffset := 0;
      }
      newBufferPtr := bufferPtr + consumed;
      RunPositions(Settings(), TupleMode, c0, buffer, bufferPtr, consumed);
    }

    /**
     * The offset just past the first tuple delimiter of `buffer` that no odd run of escape
     * characters masks, or -1 when there is none.
     */
    method FindFirstInstance(buffer: seq<Byte>) returns (r: int)
      ensures r == -1 <==> forall j | 0 <= j < |buffer| :: !UnescapedTupleDelim(Settings(), buffer, j)
      ensures r != -1 ==>
        && 0 < r <= |buffer| && UnescapedTupleDelim(Settings(), buffer, r - 1)
        && forall j | 0 <= j < r - 1 :: !UnescapedTupleDelim(Settings(), buffer, j)
    {
      var escaped := false;
      var i := 0;
      while i < |buffer|
        invariant 0 <= i <= |buffer|
        invariant escaped == (EscapeRun(Settings(), buffer, i) % 2 == 1)
        invariant forall j | 0 <= j < i :: !UnescapedTupleDelim(Settings(), buffer, j)
      {
        var c := buffer[i];
        if !escaped && tupleDelim != NUL && (c == tupleDelim || (tupleDelim == LF && c == CR)) {
          assert UnescapedTupleDelim(Settings(), buffer, i);
          return i + 1;
        }
        escaped := escapeChar != NUL && c == escapeChar && !escaped;
        i := i + 1;
      }
      return -1;
    }

    /**
     * From `pos`, the first position of `stream` where four 0xff bytes and then `sync` begin,
     * before `endOfRange`; when there is none, a position at or past the end of the range
     * (the range's end itself, or `pos` when that is already past it).
     */
    method FindSyncBlock(endOfRange: int, sync: seq<Byte>, stream: seq<Byte>, pos: nat) returns (newPos: nat)
      ensures pos <= newPos
      ensures forall q | pos <= q < newPos :: !SyncAt(stream, sync, q)
      ensures newPos < endOfRange ==> SyncAt(stream, sync, newPos)
      ensures newPos >= endOfRange ==> newPos == if pos < endOfRange then endOfRange else pos
    {
      newPos := pos;
      while newPos < endOfRange && newPos + 4 + |sync| <= |stream|
        invariant pos <= newPos && (newPos <= endOfRange || newPos == pos)
        invariant forall q | pos <= q < newPos :: !SyncAt(stream, sync, q)
        decreases |stream| - newPos
      {
        if stream[newPos..newPos + 4] == [0xff, 0xff, 0xff, 0xff] && stream[newPos + 4..newPos + 4 + |sync|] == sync {
          return;
        }
        newPos := newPos + 1;
      }
      if newPos < endOfRange {
        // The data ends before a marker could start: no position up to the range's end holds one.
        newPos := endOfRange;
      }
    }
  }
}
