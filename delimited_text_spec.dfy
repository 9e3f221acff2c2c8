/**
 * The scalar semantics of the delimited-text tokenizer, as pure functions.
 *
 * A `Scan` is everything the byte-by-byte loop knows at one point: the
 * cross-call parser state (column cursor, escape flags, a pending '\r'),
 * where the current column starts, and the field and row-end locations
 * emitted so far. `Step` consumes one byte; `Run` folds `Step` over a
 * buffer. The imperative parser in module DelimitedText is proved to
 * compute exactly these functions.
 */
module DelimitedTextSpec {
  import opened Wrappers

  newtype Byte = b: int | 0 <= b < 256

  /** The sentinel that disables a delimiter role. */
  const NUL: Byte := 0
  const LF: Byte := 10
  const CR: Byte := 13

  /** Start offset and length of one field; a negative length marks a field holding escapes. */
  datatype FieldLocation = FieldLocation(start: int, len: int)

  /** The four delimiter roles plus the column routing taken from the scan node. */
  datatype Config = Config(
    tupleDelim: Byte,
    fieldDelim: Byte,
    collectionItemDelim: Byte,
    escapeChar: Byte,
    numPartitionKeys: nat,
    isMaterializedCol: seq<bool>)

  /** No two active (non-sentinel) delimiter roles share a character. */
  predicate DelimitersDistinct(tupleDelim: Byte, fieldDelim: Byte, collectionItemDelim: Byte, escapeChar: Byte)
  {
    && (tupleDelim != NUL && fieldDelim != NUL ==> tupleDelim != fieldDelim)
    && (tupleDelim != NUL && collectionItemDelim != NUL ==> tupleDelim != collectionItemDelim)
    && (tupleDelim != NUL && escapeChar != NUL ==> tupleDelim != escapeChar)
    && (fieldDelim != NUL && collectionItemDelim != NUL ==> fieldDelim != collectionItemDelim)
    && (fieldDelim != NUL && escapeChar != NUL ==> fieldDelim != escapeChar)
    && (collectionItemDelim != NUL && escapeChar != NUL ==> collectionItemDelim != escapeChar)
  }

  /** Which of the two callers' loops is running. */
  datatype Mode = Mode(detectTuples: bool, processEscapes: bool)

  /** ParseFieldLocations: tuple delimiters end rows, escapes are honoured. */
  const TupleMode := Mode(true, true)

  datatype Scan = Scan(
    columnIdx: nat,
    hasEscape: bool,
    lastEscape: bool,
    afterCR: bool,
    colStart: int,
    fields: seq<FieldLocation>,
    rowEnds: seq<int>)

  /** Is column `idx` inside the schema and materialized? */
  predicate ReturnColumn(cfg: Config, idx: nat)
  {
    idx < |cfg.isMaterializedCol| && cfg.isMaterializedCol[idx]
  }

  predicate IsTupleDelim(cfg: Config, c: Byte)
  {
    cfg.tupleDelim != NUL && (c == cfg.tupleDelim || (cfg.tupleDelim == LF && c == CR))
  }

  predicate IsFieldDelim(cfg: Config, c: Byte)
  {
    (cfg.fieldDelim != NUL && c == cfg.fieldDelim)
    || (cfg.collectionItemDelim != NUL && c == cfg.collectionItemDelim)
  }

  predicate IsEscape(cfg: Config, c: Byte)
  {
    cfg.escapeChar != NUL && c == cfg.escapeChar
  }

  /** Number of materialized columns among [numPartitionKeys, k). */
  function MaterializedBefore(cfg: Config, k: nat): nat
    decreases k
  {
    if k <= cfg.numPartitionKeys then 0
    else MaterializedBefore(cfg, k - 1) + (if ReturnColumn(cfg, k - 1) then 1 else 0)
  }

  /** Number of materialized non-partition columns: the fields of one complete tuple. */
  function NumMaterialized(cfg: Config): nat
  {
    MaterializedBefore(cfg, |cfg.isMaterializedCol|)
  }

  /** The stored length: negated when escapes are processed and the column holds one. */
  function StoredLen(processEscapes: bool, hasEscape: bool, len: int): int
  {
    if processEscapes && hasEscape then -len else len
  }

  /** The field AddColumn writes for column idx: one location when the column is returned, none otherwise. */
  function ColumnField(cfg: Config, processEscapes: bool, idx: nat, hasEscape: bool, start: int, len: int): seq<FieldLocation>
  {
    if ReturnColumn(cfg, idx) then [FieldLocation(start, StoredLen(processEscapes, hasEscape, len))] else []
  }

  /** Close the current column of length `len`, emitting it when it is returned. */
  function AddCol(cfg: Config, processEscapes: bool, sc: Scan, len: int): Scan
  {
    sc.(fields := sc.fields + ColumnField(cfg, processEscapes, sc.columnIdx, sc.hasEscape, sc.colStart, len),
        hasEscape := false,
        colStart := sc.colStart + len + 1,
        columnIdx := sc.columnIdx + 1)
  }

  /**
   * Empty fields for the materialized columns from j to the end of the schema. They
   * come from a dummy cursor that starts as a null pointer: `d` is its offset from
   * null, advanced by one per column, and no reader dereferences it (the length is 0).
   */
  function Padding(cfg: Config, j: nat, d: int): seq<FieldLocation>
    decreases |cfg.isMaterializedCol| - j
  {
    if j < |cfg.isMaterializedCol| then
      (if ReturnColumn(cfg, j) then [FieldLocation(d, 0)] else []) + Padding(cfg, j + 1, d + 1)
    else []
  }

  /**
   * The fields FillColumns adds when the cursor is at column j: the trailing column of
   * length `len` (starting at `lastColumn`, or on the null dummy when none is given),
   * then empty fields for the rest of the schema. Nothing when j is past the schema.
   */
  function FillFields(cfg: Config, processEscapes: bool, hasEscape: bool, j: nat,
                      lastColumn: Option<int>, len: int): seq<FieldLocation>
  {
    if j < |cfg.isMaterializedCol| then
      var start := if lastColumn.Some? then lastColumn.value else 0;
      ColumnField(cfg, processEscapes, j, hasEscape, start, len)
        + Padding(cfg, j + 1, if lastColumn.Some? then 0 else len + 1)
    else []
  }

  /** FillColumns with the cursor as the trailing column: the scan once the schema is complete. */
  function Fill(cfg: Config, processEscapes: bool, sc: Scan, len: int): Scan
  {
    if sc.columnIdx < |cfg.isMaterializedCol| then
      sc.(fields := sc.fields + FillFields(cfg, processEscapes, sc.hasEscape, sc.columnIdx, Some(sc.colStart), len),
          hasEscape := false,
          colStart := sc.colStart + len + 1,
          columnIdx := |cfg.isMaterializedCol|)
    else sc
  }

  /** An unescaped tuple delimiter at position p: close the column, pad the tuple, start the next. */
  function EndTuple(cfg: Config, sc: Scan, p: int): Scan
  {
    var a := AddCol(cfg, true, sc, p - sc.colStart);
    a.(fields := a.fields + FillFields(cfg, false, false, a.columnIdx, None, 0),
       columnIdx := cfg.numPartitionKeys,
       rowEnds := a.rowEnds + [p])
  }

  /** Escape bookkeeping for byte c: a run of escapes toggles, anything else clears. */
  function TrackEscape(cfg: Config, mode: Mode, sc: Scan, c: Byte): Scan
  {
    if mode.processEscapes && IsEscape(cfg, c) then
      sc.(hasEscape := true, lastEscape := !sc.lastEscape)
    else sc.(lastEscape := false)
  }

  /** Consume byte c, found at position p. */
  function Step(cfg: Config, mode: Mode, sc: Scan, c: Byte, p: int): Scan
  {
    var newTuple := mode.detectTuples && !sc.lastEscape && IsTupleDelim(cfg, c);
    var newCol := !sc.lastEscape && IsFieldDelim(cfg, c);
    var e := TrackEscape(cfg, mode, sc, c);
    if newTuple then
      var t := if sc.afterCR && c == LF then e.(colStart := e.colStart + 1) else EndTuple(cfg, e, p);
      t.(afterCR := c == CR)
    else if newCol then
      AddCol(cfg, mode.processEscapes, e, p - e.colStart).(afterCR := false)
    else
      e.(afterCR := false)
  }

  /** Consume the first n bytes of s, whose first byte is at position base. */
  function Run(cfg: Config, mode: Mode, sc: Scan, s: seq<Byte>, base: int, n: nat): Scan
    requires n <= |s|
    decreases n
  {
    if n == 0 then sc
    else Step(cfg, mode, Run(cfg, mode, sc, s, base, n - 1), s[n - 1], base + n - 1)
  }

  /**
   * The scan a call starts from: the parser state carried over from the previous call,
   * no outputs yet, and the next column starting at the buffer's first byte, `base`.
   */
  function Carry(sc: Scan, base: int): Scan
  {
    sc.(colStart := base, fields := [], rowEnds := [])
  }

  /** State at the start of a tuple whose first byte is at `base`, as ParseSingleTuple begins. */
  function StartOfTuple(cfg: Config, base: int): Scan
  {
    Scan(cfg.numPartitionKeys, false, false, false, base, [], [])
  }

  /** The fields ParseSingleTuple reports for one record held in s, whose first byte is at `base`. */
  function SingleTuple(cfg: Config, processEscapes: bool, s: seq<Byte>, base: int): seq<FieldLocation>
  {
    var r := Run(cfg, Mode(false, processEscapes), StartOfTuple(cfg, base), s, base, |s|);
    Fill(cfg, processEscapes, r, base + |s| - r.colStart).fields
  }

  /** The escape character is never also a delimiter byte: an escape byte never closes a column. */
  predicate EscapeIsData(cfg: Config)
  {
    !IsTupleDelim(cfg, cfg.escapeChar) && !IsFieldDelim(cfg, cfg.escapeChar)
  }

  /** Does s hold an escape byte at some position in [lo, hi)? */
  predicate EscapeIn(cfg: Config, s: seq<Byte>, lo: int, hi: int)
  {
    exists i | lo <= i < hi && 0 <= i < |s| :: IsEscape(cfg, s[i])
  }

  /** The number of bytes a stored field covers, whatever its sign. */
  function FieldSpan(f: FieldLocation): int
  {
    if f.len < 0 then -f.len else f.len
  }

  /** Number of consecutive escape bytes immediately before position j of s. */
  function EscapeRun(cfg: Config, s: seq<Byte>, j: nat): nat
    requires j <= |s|
    decreases j
  {
    if j == 0 || !IsEscape(cfg, s[j - 1]) then 0 else 1 + EscapeRun(cfg, s, j - 1)
  }

  /** s[j] is a tuple delimiter not masked by an odd run of escapes. */
  predicate UnescapedTupleDelim(cfg: Config, s: seq<Byte>, j: nat)
    requires j < |s|
  {
    IsTupleDelim(cfg, s[j]) && EscapeRun(cfg, s, j) % 2 == 0
  }

  /**
   * Is the byte at j of s escaped, when `carried` says whether the byte before s was an
   * unconsumed escape? An escape run reaching back to the start of s continues the carried one.
   */
  predicate EscapedAt(cfg: Config, carried: bool, s: seq<Byte>, j: nat)
    requires j <= |s|
  {
    var n := EscapeRun(cfg, s, j);
    if n == j then carried != (n % 2 == 1) else n % 2 == 1
  }

  /** Was the byte before position j an unescaped '\r' acting as a tuple delimiter? */
  predicate PendingCR(cfg: Config, carriedEscape: bool, carriedCR: bool, s: seq<Byte>, j: nat)
    requires j <= |s|
  {
    if j == 0 then carriedCR
    else s[j - 1] == CR && IsTupleDelim(cfg, CR) && !EscapedAt(cfg, carriedEscape, s, j - 1)
  }

  /** Does the byte at j end a row: an unescaped tuple delimiter that does not complete a "\r\n"? */
  predicate RowEndAt(cfg: Config, carriedEscape: bool, carriedCR: bool, s: seq<Byte>, j: nat)
    requires j < |s|
  {
    && IsTupleDelim(cfg, s[j])
    && !EscapedAt(cfg, carriedEscape, s, j)
    && !(PendingCR(cfg, carriedEscape, carriedCR, s, j) && s[j] == LF)
  }

  /** The positions of the row ends among the first n bytes of s, in order, described without the scanner's state machine. */
  function RowEndsOf(cfg: Config, carriedEscape: bool, carriedCR: bool, s: seq<Byte>, base: int, n: nat): seq<int>
    requires n <= |s|
    decreases n
  {
    if n == 0 then []
    else
      RowEndsOf(cfg, carriedEscape, carriedCR, s, base, n - 1)
        + (if RowEndAt(cfg, carriedEscape, carriedCR, s, n - 1) then [base + n - 1] else [])
  }

  /** Four 0xff bytes followed by the sync marker start at position q of the stream. */
  predicate SyncAt(stream: seq<Byte>, sync: seq<Byte>, q: nat)
  {
    && q + 4 + |sync| <= |stream|
    && stream[q..q + 4] == [0xff, 0xff, 0xff, 0xff]
    && stream[q + 4..q + 4 + |sync|] == sync
  }
}
