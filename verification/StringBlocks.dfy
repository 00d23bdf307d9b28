/**
  The string file of a segment (string_block.cc, segment.cc): strings are appended, the file is
  cut into blocks as it grows, and every block but the last may be served from a cache.
 */
module StringBlocks {
  import opened FileBytes

  const MAX_STRING_LEN := 65535
  const SEG_BLOCK_CAPACITY := 400000
  const MAX_BLOCK_SIZE := 65536
  const OFFSET_LIMIT := 0x1_0000_0000   // str_offset_t is 32 bits wide

  /** Where a string is, as its record says; `room` and `text` are history. */
  datatype Row = Row(blockId: nat, inBlockPos: nat, len: nat, room: nat, text: Bytes)

  datatype Store = Store(
    per: nat,                 // per_block_size_
    base: nat,                // cache id of block 0
    file: Bytes,
    blocks: seq<nat>,         // block_pos_
    offset: nat,              // str_offset_
    cells: map<nat, Bytes>,   // the block cache, shared with other segments
    rows: seq<Row>,
    starts: seq<nat>,         // history: where blocks start when offsets do not wrap
    total: nat)               // history: the sizes of all strings appended

  /** The conversion to the 32-bit `str_offset_t`. */
  function Wrap(x: int): (r: nat)
    ensures r < OFFSET_LIMIT && (0 <= x < OFFSET_LIMIT ==> r == x)
  {
    x % OFFSET_LIMIT
  }

  /** Where block `b` ends, the last one at the end of the strings. */
  function End(blocks: seq<nat>, offset: nat, b: nat): nat {
    if b + 1 < |blocks| then blocks[b + 1] else offset
  }

  // ----- The invariant -----

  /** No block outgrows sixteen bits, and two neighbours together span a block size. */
  predicate BlocksOk(per: nat, blocks: seq<nat>, offset: nat) {
    && 32768 < per <= 65536
    && (if blocks == [] then offset == 0 else blocks[0] == 0)
    && (forall b :: 0 <= b < |blocks| ==> blocks[b] <= End(blocks, offset, b) <= blocks[b] + MAX_STRING_LEN)
    && (forall b :: 0 <= b < |blocks| - 1 ==> End(blocks, offset, b + 1) >= blocks[b] + per)
  }

  function At(s: Store, row: Row): nat
    requires row.blockId < |s.starts|
  {
    s.starts[row.blockId] + row.inBlockPos
  }

  predicate Placed(s: Store, row: Row) {
    && row.blockId < |s.starts| && row.len <= row.room <= MAX_STRING_LEN
    && At(s, row) + row.room <= End(s.starts, s.total, row.blockId)
    && (row.room == 0 || At(s, row) < OFFSET_LIMIT)
    && (row.inBlockPos == 0 || row.inBlockPos + row.room < s.per)
  }

  predicate Stored(s: Store, row: Row)
    requires Placed(s, row)
  {
    |row.text| == row.len && Holds(s.file, At(s, row), row.text)
  }

  predicate Apart(s: Store, a: Row, b: Row) {
    a.blockId < |s.starts| && b.blockId < |s.starts| &&
    (At(s, a) + a.room <= At(s, b) || At(s, b) + b.room <= At(s, a))
  }

  predicate RowsPlaced(s: Store) {
    forall i :: 0 <= i < |s.rows| ==> Placed(s, s.rows[i])
  }

  predicate RowsOk(s: Store) {
    && RowsPlaced(s)
    && (forall i :: 0 <= i < |s.rows| ==> Stored(s, s.rows[i]))
    && (forall i, j :: 0 <= i < j < |s.rows| ==> Apart(s, s.rows[i], s.rows[j]))
  }

  /** Only closed blocks are cached, and they are as in the file. */
  predicate CellOk(s: Store, b: nat) {
    s.base + b in s.cells ==>
      && b + 1 < |s.starts| && s.starts[b] + |s.cells[s.base + b]| == s.starts[b + 1]
      && Holds(s.file, s.starts[b], s.cells[s.base + b])
  }

  predicate CellsOk(s: Store) {
    forall b: nat :: b < SEG_BLOCK_CAPACITY ==> CellOk(s, b)
  }

  /** The 32-bit words the segment keeps are the history, wrapped. */
  predicate Mirrored(blocks: seq<nat>, offset: nat, starts: seq<nat>, total: nat) {
    && |blocks| == |starts| && offset == Wrap(total)
    && forall b :: 0 <= b < |blocks| ==> blocks[b] == Wrap(starts[b])
  }

  predicate Mirrors(s: Store) {
    |s.blocks| == |s.starts| && Mirrored(s.blocks, s.offset, s.starts, s.total)
  }

  /** No text was written past the limit, though one may reach across it. */
  predicate BelowLimit(starts: seq<nat>, total: nat) {
    && total < OFFSET_LIMIT + 65536
    && forall b :: 0 <= b < |starts| ==> starts[b] < OFFSET_LIMIT || starts[b] == total
  }

  predicate Unwrapped(s: Store) {
    s.total < OFFSET_LIMIT + 65536 && BelowLimit(s.starts, s.total)
  }

  predicate Ok(s: Store) {
    && Mirrors(s) && Unwrapped(s) && BlocksOk(s.per, s.starts, s.total)
    && s.total <= |s.file| && RowsOk(s) && CellsOk(s)
  }

  /** Appending this text starts below the limit, or writes nothing. */
  predicate Room(s: Store, text: Bytes) {
    text == [] || s.total < OFFSET_LIMIT
  }

  function Texts(rows: seq<Row>): (r: seq<Bytes>)
    ensures |r| == |rows| && forall i :: 0 <= i < |rows| ==> r[i] == rows[i].text
  {
    seq(|rows|, i requires 0 <= i < |rows| => rows[i].text)
  }

  /** A new segment. */
  function Empty(per: nat, base: nat, capacity: nat, cells: map<nat, Bytes>): Store {
    Store(per, base, Zeros(capacity), [], 0, cells, [], [], 0)
  }

  // ----- Appending -----

  /** The conversion to the 16-bit `in_block_pos_t` and `str_len_t`. */
  function Narrow(x: int): (r: nat)
    ensures r < 65536 && (0 <= x < 65536 ==> r == x)
  {
    x % 65536
  }

  /** What is stored of a value: its size goes through a `str_len_t` first, which nothing checks. */
  function Cut(value: Bytes): (r: Bytes)
    ensures |r| <= MAX_STRING_LEN && r <= value
  {
    value[..Narrow(|value|)]
  }

  /** The block list and the position in the last block after a string of length `n`; sixteen-bit as in the source. */
  function Opened(per: nat, blocks: seq<nat>, offset: nat, n: nat): (seq<nat>, nat) {
    var blocks1 := if blocks == [] then [0] else blocks;
    var pos := Narrow(offset - blocks1[|blocks1| - 1]);
    if pos + n >= per then (blocks1 + [offset], 0) else (blocks1, pos)
  }

  function NewRow(s: Store, text: Bytes): Row {
    var (blocks, pos) := Opened(s.per, s.blocks, s.offset, |text|);
    Row(|blocks| - 1, pos, |text|, |text|, text)
  }

  /** `AddString`, without the row. */
  function Append(s: Store, text: Bytes): Store {
    s.(file := PWrite(s.file, s.offset, text),
       blocks := Opened(s.per, s.blocks, s.offset, |text|).0,
       offset := Wrap(s.offset + |text|),
       starts := Opened(s.per, s.starts, s.total, |text|).0,
       total := s.total + |text|)
  }

  function AfterPut(s: Store, text: Bytes): Store {
    Append(s, text).(rows := s.rows + [NewRow(s, text)])
  }

  /** In 32 bits blocks open, and positions are, as if offsets did not wrap. */
  lemma AppendMirrors(s: Store, text: Bytes)
    requires Mirrors(s)
    ensures Mirrors(Append(s, text))
    ensures var (starts, pos) := Opened(s.per, s.starts, s.total, |text|);
            NewRow(s, text) == Row(|starts| - 1, pos, |text|, |text|, text)
  {
    var last := if s.starts == [] then 0 else s.starts[|s.starts| - 1];
    NarrowWrapped(s.total, last);
    WrapAdds(s.total, |text|);
    hide Narrow, Wrap;
  }

  lemma NarrowWrapped(x: int, y: int)
    ensures Narrow(Wrap(x) - Wrap(y)) == Narrow(x - y) && Wrap(0) == 0
  {
  }

  lemma WrapSubtracts(x: int, y: int)
    requires 0 <= x - y < OFFSET_LIMIT
    ensures Wrap(Wrap(x) - Wrap(y)) == x - y
  {
  }

  lemma WrapAdds(x: int, n: int)
    ensures Wrap(Wrap(x) + n) == Wrap(x + n)
  {
  }

  /** Below the limit an append is one at the end of the strings. */
  lemma AppendFields(s: Store, text: Bytes)
    requires Mirrors(s) && Unwrapped(s) && Room(s, text) && |text| <= MAX_STRING_LEN
    ensures var a := Append(s, text);
            && Mirrors(a) && Unwrapped(a) && a.file == PWrite(s.file, s.total, text)
            && a.starts == Opened(s.per, s.starts, s.total, |text|).0 && a.total == s.total + |text|
            && a.per == s.per && a.base == s.base && a.cells == s.cells && a.rows == s.rows
  {
    AppendMirrors(s, text);
  }

  /** What `WriteString` relies on: the 16-bit position is never cut off. */
  predicate OpensWell(per: nat, blocks: seq<nat>, offset: nat, n: nat) {
    var (blocks', pos) := Opened(per, blocks, offset, n);
    && BlocksOk(per, blocks', offset + n) && |blocks'| > 0 && blocks <= blocks'
    && blocks'[|blocks'| - 1] + pos == offset && pos <= MAX_STRING_LEN
    && (pos == 0 || pos + n < per)
    && forall b :: 0 <= b < |blocks| ==> End(blocks, offset, b) <= End(blocks', offset + n, b)
  }

  lemma OpenedBlocks(per: nat, blocks: seq<nat>, offset: nat, n: nat)
    requires BlocksOk(per, blocks, offset) && n <= MAX_STRING_LEN
    ensures OpensWell(per, blocks, offset, n)
  {
    if blocks == [] {
      OpenedNext(per, [0], offset, n);
    } else {
      OpenedNext(per, blocks, offset, n);
    }
  }

  lemma OpenedNext(per: nat, blocks: seq<nat>, offset: nat, n: nat)
    requires BlocksOk(per, blocks, offset) && n <= MAX_STRING_LEN && blocks != []
    ensures OpensWell(per, blocks, offset, n)
  {
    var last := blocks[|blocks| - 1];
    assert End(blocks, offset, |blocks| - 1) == offset;
    assert Narrow(offset - last) == offset - last;
    hide Narrow, BlocksOk;
    if offset - last + n >= per {
      BlockOpens(per, blocks, offset, n);
    } else {
      BlockGrows(per, blocks, offset, n);
    }
  }

  /** The string stays in the last block. */
  lemma BlockGrows(per: nat, blocks: seq<nat>, offset: nat, n: nat)
    requires BlocksOk(per, blocks, offset) && |blocks| > 0 && offset - blocks[|blocks| - 1] + n < per
    ensures BlocksOk(per, blocks, offset + n)
    ensures forall b :: 0 <= b < |blocks| ==> End(blocks, offset, b) <= End(blocks, offset + n, b)
  {
  }

  /** The string would fill the last block: it starts a new one. */
  lemma BlockOpens(per: nat, blocks: seq<nat>, offset: nat, n: nat)
    requires BlocksOk(per, blocks, offset) && |blocks| > 0 && n <= MAX_STRING_LEN &&
             offset - blocks[|blocks| - 1] + n >= per
    ensures BlocksOk(per, blocks + [offset], offset + n)
    ensures forall b :: 0 <= b < |blocks| ==> End(blocks + [offset], offset + n, b) == End(blocks, offset, b)
  {
    assert forall b :: 0 <= b < |blocks| ==> End(blocks + [offset], offset + n, b) == End(blocks, offset, b);
  }

  /** A row of `s` has the same place and text in `a`, before the end of the strings of `s`. */
  predicate Carried(s: Store, a: Store, row: Row) {
    && row.blockId < |s.starts| && Placed(a, row) && Stored(a, row)
    && At(a, row) == At(s, row) && At(a, row) + row.room <= s.total
  }

  lemma AppendOk(s: Store, text: Bytes)
    requires Mirrors(s) && Unwrapped(s) && Room(s, text) && |text| <= MAX_STRING_LEN
    requires BlocksOk(s.per, s.starts, s.total) && s.total <= |s.file|
    ensures var a := Append(s, text);
            && Mirrors(a) && Unwrapped(a) && BlocksOk(a.per, a.starts, a.total) && a.total <= |a.file|
            && a.file == PWrite(s.file, s.total, text) && a.total == s.total + |text| && s.starts <= a.starts
            && a.per == s.per && a.base == s.base && a.cells == s.cells && a.rows == s.rows
            && forall b :: 0 <= b < |s.starts| ==> End(s.starts, s.total, b) <= End(a.starts, a.total, b)
  {
    hide Wrap, Mirrored, BelowLimit, BlocksOk, Append, Opened;
    AppendFields(s, text);
    OpenedBlocks(s.per, s.starts, s.total, |text|);
    hide PWrite;
  }

  /** A row keeps its place and its text when strings are appended. */
  lemma AppendRow(s: Store, text: Bytes, row: Row)
    requires Mirrors(s) && Unwrapped(s) && Room(s, text) && |text| <= MAX_STRING_LEN
    requires BlocksOk(s.per, s.starts, s.total) && s.total <= |s.file| && Placed(s, row) && Stored(s, row)
    ensures Carried(s, Append(s, text), row)
  {
    hide Wrap, Mirrored, BelowLimit, Append, Opened, BlocksOk, PWrite, Holds;
    AppendOk(s, text);
    EndBelow(s.per, s.starts, s.total, row.blockId);
    HoldsOutside(s.file, s.total, text, At(s, row), row.text);
  }

  lemma {:induction false} EndBelow(per: nat, blocks: seq<nat>, offset: nat, b: nat)
    requires BlocksOk(per, blocks, offset) && b < |blocks|
    ensures End(blocks, offset, b) <= offset
    decreases |blocks| - b
  {
    if b + 1 < |blocks| { EndBelow(per, blocks, offset, b + 1); }
  }

  lemma AppendCells(s: Store, text: Bytes)
    requires Mirrors(s) && Unwrapped(s) && Room(s, text) && |text| <= MAX_STRING_LEN
    requires BlocksOk(s.per, s.starts, s.total) && s.total <= |s.file| && CellsOk(s)
    ensures CellsOk(Append(s, text))
  {
    hide Wrap, Mirrored, BelowLimit;
    AppendFields(s, text);
    OpenedBlocks(s.per, s.starts, s.total, |text|);
    var s' := Append(s, text);
    forall b: nat | b < SEG_BLOCK_CAPACITY ensures CellOk(s', b) {
      assert CellOk(s, b);
      if b < |s.starts| { EndBelow(s.per, s.starts, s.total, b); }
      AppendCell(s, s', text, b);
    }
  }

  lemma AppendCell(s: Store, s': Store, text: Bytes, b: nat)
    requires CellOk(s, b) && s'.base == s.base && s'.cells == s.cells && s'.file == PWrite(s.file, s.total, text)
    requires s.starts <= s'.starts && (b + 1 < |s.starts| ==> End(s.starts, s.total, b) <= s.total)
    ensures CellOk(s', b)
  {
    if s.base + b in s.cells {
      HoldsOutside(s.file, s.total, text, s.starts[b], s.cells[s.base + b]);
      hide PWrite, Holds;
    }
  }

  /** The new row is in place, past every other. */
  lemma AppendNew(s: Store, text: Bytes)
    requires Mirrors(s) && Unwrapped(s) && Room(s, text) && |text| <= MAX_STRING_LEN
    requires BlocksOk(s.per, s.starts, s.total) && s.total <= |s.file|
    ensures Placed(Append(s, text), NewRow(s, text)) && Stored(Append(s, text), NewRow(s, text))
    ensures At(Append(s, text), NewRow(s, text)) == s.total && NewRow(s, text).text == text
  {
    AppendFields(s, text);
    AppendMirrors(s, text);
    OpenedBlocks(s.per, s.starts, s.total, |text|);
    HoldsWritten(s.file, s.total, text);
    hide PWrite, Holds, Opened, NewRow, Append, Wrap, Mirrored, BelowLimit;
    var a, row := Append(s, text), NewRow(s, text);
    assert End(a.starts, a.total, |a.starts| - 1) == a.total;
    hide BlocksOk;
  }

  /** Putting a string adds it and leaves every other string as it was. */
  lemma PutKeeps(s: Store, text: Bytes)
    requires Ok(s) && Room(s, text) && |text| <= MAX_STRING_LEN
    ensures Ok(AfterPut(s, text)) && Texts(AfterPut(s, text).rows) == Texts(s.rows) + [text]
  {
    hide Wrap, Mirrored, BelowLimit, PWrite, Holds, Append, NewRow, Opened, BlocksOk, CellOk;
    var s', a := AfterPut(s, text), Append(s, text);
    AppendOk(s, text);
    AppendCells(s, text);
    AppendNew(s, text);
    forall i | 0 <= i < |s.rows| ensures Carried(s, a, s.rows[i]) {
      AppendRow(s, text, s.rows[i]);
    }
    RowsWithNew(s, a, s.rows + [NewRow(s, text)], |s.rows|);
    SameCells(a, s');
  }

  lemma SameCells(a: Store, s': Store)
    requires CellsOk(a) && s' == a.(rows := s'.rows)
    ensures CellsOk(s')
  {
    forall b: nat | b < SEG_BLOCK_CAPACITY ensures CellOk(s', b) {
      assert CellOk(a, b);
    }
  }

  /** Carried rows and one new row behind them. */
  lemma RowsWithNew(s: Store, a: Store, rows: seq<Row>, n: nat)
    requires n < |rows| && Placed(a, rows[n]) && Stored(a, rows[n]) && At(a, rows[n]) == s.total
    requires forall i :: 0 <= i < |rows| && i != n ==> Carried(s, a, rows[i])
    requires forall i, j :: 0 <= i < j < |rows| && i != n && j != n ==> Apart(s, rows[i], rows[j])
    ensures RowsOk(a.(rows := rows))
  {
    var s' := a.(rows := rows);
    hide Holds;
    forall i | 0 <= i < |rows| ensures Placed(s', rows[i]) && Stored(s', rows[i]) {
      assert i != n ==> Carried(s, a, rows[i]);
    }
    forall i, j | 0 <= i < j < |rows| ensures Apart(s', rows[i], rows[j]) {
      assert i != n ==> Carried(s, a, rows[i]);
      assert j != n ==> Carried(s, a, rows[j]);
    }
  }

  // ----- Updating -----

  /** The test in `UpdateString`: the new text has to fit the block. */
  predicate Fits(s: Store, row: Row, n: nat) {
    row.blockId < |s.blocks| && row.inBlockPos + n <= s.per
  }

  /** `Update` of the cache: a cached block is patched, nothing is brought in. */
  function PatchCell(s: Store, b: nat, pos: nat, text: Bytes): map<nat, Bytes> {
    if s.base + b in s.cells then s.cells[s.base + b := PWrite(s.cells[s.base + b], pos, text)] else s.cells
  }

  /** Overwrites a string in the file and in the cache. */
  function Overwrite(s: Store, i: nat, text: Bytes): Store
    requires i < |s.rows| && s.rows[i].blockId < |s.blocks|
  {
    var row := s.rows[i];
    s.(file := PWrite(s.file, Wrap(s.blocks[row.blockId] + row.inBlockPos), text),
       cells := PatchCell(s, row.blockId, row.inBlockPos, text),
       rows := s.rows[i := row.(len := |text|, text := text)])
  }

  /** A string that is too long to stay is appended; its record then names the new place. */
  function Moved(s: Store, i: nat, text: Bytes): Store
    requires i < |s.rows|
  {
    Append(s, text).(rows := s.rows[i := NewRow(s, text)])
  }

  predicate StaysPut(s: Store, i: nat, n: nat)
    requires i < |s.rows|
  {
    n <= s.rows[i].len && Fits(s, s.rows[i], n)
  }

  /** `StorageManager::UpdateString`. */
  function AfterSet(s: Store, i: nat, text: Bytes): Store
    requires i < |s.rows|
  {
    if StaysPut(s, i, |text|) then Overwrite(s, i, text) else Moved(s, i, text)
  }

  /** A record of Ok places leads to the text in 32 bits too, unless it is empty. */
  lemma PlaceWrapped(s: Store, row: Row)
    requires Mirrors(s) && Placed(s, row)
    ensures row.room > 0 ==> Wrap(s.blocks[row.blockId] + row.inBlockPos) == At(s, row)
  {
  }

  lemma OverwriteRow(s: Store, s': Store, row: Row, text: Bytes, other: Row)
    requires Placed(s, row) && |text| <= row.len && s'.per == s.per && s'.starts == s.starts && s'.total == s.total
    requires s'.file == PWrite(s.file, At(s, row), text)
    requires Placed(s, other) && Stored(s, other) && (Apart(s, row, other) || Apart(s, other, row))
    ensures Placed(s', other) && Stored(s', other)
  {
    HoldsOutside(s.file, At(s, row), text, At(s, other), other.text);
    hide PWrite, Holds;
  }

  lemma {:induction false} BlocksOrdered(per: nat, blocks: seq<nat>, offset: nat, a: nat, b: nat)
    requires BlocksOk(per, blocks, offset) && a < b < |blocks|
    ensures End(blocks, offset, a) <= blocks[b]
    decreases b - a
  {
    if a + 1 < b {
      BlocksOrdered(per, blocks, offset, a + 1, b);
      assert blocks[a + 1] <= End(blocks, offset, a + 1);
    }
  }

  /** A cached block that holds the string is patched as the file is. */
  lemma PatchedCell(s: Store, s': Store, b: nat, pos: nat, text: Bytes)
    requires b < |s.starts| && CellOk(s, b) && s'.base == s.base && s'.starts == s.starts
    requires b + 1 < |s.starts| ==> s.starts[b] + pos + |text| <= s.starts[b + 1]
    requires s'.file == PWrite(s.file, s.starts[b] + pos, text) && s'.cells == PatchCell(s, b, pos, text)
    ensures CellOk(s', b)
  {
    if s.base + b in s.cells {
      HoldsPatched(s.file, s.starts[b] + pos, text, s.starts[b], s.cells[s.base + b]);
      hide PWrite, Holds;
    }
  }

  lemma OtherCell(s: Store, s': Store, b: nat, at: nat, text: Bytes)
    requires CellOk(s, b) && s'.base == s.base && s'.starts == s.starts
    requires b + 1 < |s.starts| ==> s.starts[b + 1] <= at || at + |text| <= s.starts[b]
    requires s'.file == PWrite(s.file, at, text)
    requires s.base + b in s'.cells ==> s.base + b in s.cells && s'.cells[s.base + b] == s.cells[s.base + b]
    ensures CellOk(s', b)
  {
    if s.base + b in s'.cells {
      HoldsOutside(s.file, at, text, s.starts[b], s.cells[s.base + b]);
      hide PWrite, Holds;
    }
  }

  lemma OverwriteCell(s: Store, i: nat, text: Bytes, b: nat)
    requires Mirrors(s) && BlocksOk(s.per, s.starts, s.total)
    requires i < |s.rows| && Placed(s, s.rows[i]) && |text| <= s.rows[i].len && CellOk(s, b)
    ensures CellOk(Overwrite(s, i, text), b)
  {
    hide Wrap, Mirrored, BelowLimit;
    hide CellOk, Overwrite, Mirrors;
    if b == s.rows[i].blockId {
      hide BlocksOk;
      OverwriteOwnCell(s, i, text);
    } else {
      ClearOfBlock(s, s.rows[i], |text|, b);
      hide BlocksOk;
      OverwriteOtherCell(s, i, text, b);
    }
  }

  lemma OverwriteOwnCell(s: Store, i: nat, text: Bytes)
    requires Mirrors(s) && i < |s.rows| && Placed(s, s.rows[i]) && |text| <= s.rows[i].len
    requires CellOk(s, s.rows[i].blockId)
    ensures CellOk(Overwrite(s, i, text), s.rows[i].blockId)
  {
    hide Wrap, Mirrored, BelowLimit;
    OverwriteFields(s, i, text);
    hide CellOk, PWrite, Overwrite, PatchCell, Mirrors;
    PatchedCell(s, Overwrite(s, i, text), s.rows[i].blockId, s.rows[i].inBlockPos, text);
  }

  lemma OverwriteOtherCell(s: Store, i: nat, text: Bytes, b: nat)
    requires Mirrors(s) && i < |s.rows| && Placed(s, s.rows[i]) && |text| <= s.rows[i].len
    requires CellOk(s, b) && b != s.rows[i].blockId
    requires b + 1 < |s.starts| ==> s.starts[b + 1] <= At(s, s.rows[i]) || At(s, s.rows[i]) + |text| <= s.starts[b]
    ensures CellOk(Overwrite(s, i, text), b)
  {
    hide Wrap, Mirrored, BelowLimit;
    OverwriteFields(s, i, text);
    hide CellOk, PWrite, Overwrite, Mirrors, Placed;
    OtherCell(s, Overwrite(s, i, text), b, At(s, s.rows[i]), text);
  }

  lemma OverwriteFields(s: Store, i: nat, text: Bytes)
    requires Mirrors(s) && i < |s.rows| && Placed(s, s.rows[i]) && |text| <= s.rows[i].len
    ensures var row, s' := s.rows[i], Overwrite(s, i, text);
            && s'.per == s.per && s'.base == s.base && s'.starts == s.starts && s'.total == s.total
            && s'.blocks == s.blocks && s'.offset == s.offset
            && s'.file == PWrite(s.file, s.starts[row.blockId] + row.inBlockPos, text)
            && s'.cells == PatchCell(s, row.blockId, row.inBlockPos, text)
            && s'.rows == s.rows[i := row.(len := |text|, text := text)]
  {
    PlaceWrapped(s, s.rows[i]);
    hide Wrap, Mirrored, BelowLimit;
  }

  /** What fits the room of a row stays clear of every other block. */
  lemma ClearOfBlock(s: Store, row: Row, n: nat, b: nat)
    requires BlocksOk(s.per, s.starts, s.total) && Placed(s, row) && n <= row.room && b != row.blockId
    ensures b + 1 < |s.starts| ==> s.starts[b + 1] <= At(s, row) || At(s, row) + n <= s.starts[b]
  {
    if b < row.blockId {
      BlocksOrdered(s.per, s.starts, s.total, b, row.blockId);
    } else if b < |s.starts| {
      BlocksOrdered(s.per, s.starts, s.total, row.blockId, b);
    }
  }

  /** Overwriting a string with one that is not longer changes that string and no other. */
  lemma OverwriteKeeps(s: Store, i: nat, text: Bytes)
    requires Ok(s) && i < |s.rows| && |text| <= s.rows[i].len
    ensures Ok(Overwrite(s, i, text)) && |Overwrite(s, i, text).file| == |s.file|
    ensures Texts(Overwrite(s, i, text).rows) == Texts(s.rows)[i := text]
  {
    hide Wrap, Mirrored, BelowLimit;
    OverwriteRows(s, i, text);
    OverwriteFields(s, i, text);
    hide RowsOk, Overwrite, PWrite, BlocksOk;
    var s' := Overwrite(s, i, text);
    forall b: nat | b < SEG_BLOCK_CAPACITY ensures CellOk(s', b) {
      assert CellOk(s, b);
      OverwriteCell(s, i, text, b);
    }
  }

  lemma OverwriteRows(s: Store, i: nat, text: Bytes)
    requires Mirrors(s) && RowsOk(s) && i < |s.rows| && |text| <= s.rows[i].len
    ensures Placed(s, s.rows[i])
    ensures RowsOk(Overwrite(s, i, text)) && |Overwrite(s, i, text).file| == |s.file|
    ensures Texts(Overwrite(s, i, text).rows) == Texts(s.rows)[i := text]
  {
    hide Wrap, Mirrored, BelowLimit;
    var s' := Overwrite(s, i, text);
    var row := s.rows[i];
    assert Placed(s, row) && Stored(s, row);
    HoldsWritten(s.file, At(s, row), text);
    OverwriteFields(s, i, text);
    hide Overwrite, Mirrors;
    forall j | 0 <= j < |s.rows| ensures Placed(s', s'.rows[j]) && Stored(s', s'.rows[j]) {
      if j != i {
        assert Stored(s, s.rows[j]);
        if j < i { assert Apart(s, s.rows[j], row); } else { assert Apart(s, row, s.rows[j]); }
        OverwriteRow(s, s', row, text, s.rows[j]);
      }
    }
    forall j, k | 0 <= j < k < |s.rows| ensures Apart(s', s'.rows[j], s'.rows[k]) {
      assert Apart(s, s.rows[j], s.rows[k]);
    }
  }

  lemma MovedKeeps(s: Store, i: nat, text: Bytes)
    requires Ok(s) && i < |s.rows| && Room(s, text) && |text| <= MAX_STRING_LEN
    ensures Ok(Moved(s, i, text)) && Texts(Moved(s, i, text).rows) == Texts(s.rows)[i := text]
  {
    hide Wrap, Mirrored, BelowLimit, PWrite, Holds, Append, NewRow, Opened, BlocksOk, CellOk;
    var s', a, row := Moved(s, i, text), Append(s, text), NewRow(s, text);
    AppendOk(s, text);
    AppendCells(s, text);
    AppendNew(s, text);
    forall j | 0 <= j < |s.rows| ensures Carried(s, a, s.rows[j]) {
      AppendRow(s, text, s.rows[j]);
    }
    RowsWithNew(s, a, s.rows[i := row], i);
    SameCells(a, s');
  }

  /** Whichever way an update goes, the string reads back and no other changes. */
  lemma SetKeeps(s: Store, i: nat, text: Bytes)
    requires Ok(s) && i < |s.rows| && |text| <= MAX_STRING_LEN && (StaysPut(s, i, |text|) || Room(s, text))
    ensures Ok(AfterSet(s, i, text)) && Texts(AfterSet(s, i, text).rows) == Texts(s.rows)[i := text]
  {
    hide Wrap, Mirrored, BelowLimit;
    if StaysPut(s, i, |text|) {
      OverwriteKeeps(s, i, text);
    } else {
      MovedKeeps(s, i, text);
    }
  }

  /** A shorter text is refused a place only by a string that alone exceeds the block size. */
  lemma RefusedUpdates(s: Store, i: nat, n: nat)
    requires Ok(s) && i < |s.rows| && n <= s.rows[i].len
    ensures !Fits(s, s.rows[i], n) <==> s.rows[i].inBlockPos == 0 && n > s.per
  {
    hide Wrap, Mirrored, BelowLimit;
    assert Placed(s, s.rows[i]);
  }

  lemma EmptyOk(per: nat, base: nat, capacity: nat, cells: map<nat, Bytes>)
    requires 32768 < per <= 65536 && NoneOf(cells, base)
    ensures Ok(Empty(per, base, capacity, cells))
  {
  }

  /** The same 65535 bytes set again over themselves, in blocks of 65530 bytes: they move. */
  lemma RefusedInPlace(text: Bytes)
    requires |text| == MAX_STRING_LEN
    ensures var empty := Empty(65530, 0, 200000, map[]);
            var s := AfterPut(empty, text);
            var s' := AfterSet(s, 0, text);
            && Ok(empty) == true && Ok(s) == true && s.total < OFFSET_LIMIT && !Fits(s, s.rows[0], |text|)
            && s.rows == [Row(1, 0, 65535, 65535, text)] && s'.rows == [Row(2, 0, 65535, 65535, text)]
  {
    hide Wrap, PWrite, Holds, Zeros, Ok, Opened;
    var empty := Empty(65530, 0, 200000, map[]);
    EmptyOk(65530, 0, 200000, map[]);
    PutKeeps(empty, text);
    FillsBlocks(empty, text);
    FillsBlocks(AfterPut(empty, text), text);
  }

  lemma FillsBlocks(s: Store, text: Bytes)
    requires s.per == 65530 && |text| == MAX_STRING_LEN
    ensures Opened(s.per, s.blocks, s.offset, |text|) == ((if s.blocks == [] then [0] else s.blocks) + [s.offset], 0)
  {
  }

  // ----- Reading -----

  /** `pread` of `n` bytes; none past the end. */
  function PRead(file: Bytes, at: nat, n: nat): Bytes {
    if at > |file| then [] else if at + n > |file| then file[at..] else file[at..at + n]
  }

  /** The length of a closed block, in 32-bit arithmetic. */
  function Span(s: Store, b: nat): nat
    requires b + 1 < |s.blocks|
  {
    Wrap((s.blocks[b + 1] as int) - s.blocks[b])
  }

  /** `SetOrGet` on a closed block: one too long for a cache buffer is not loaded. */
  function Load(s: Store, b: nat): Store
    requires b + 1 < |s.blocks|
  {
    if s.base + b in s.cells || Span(s, b) > MAX_BLOCK_SIZE then s
    else s.(cells := s.cells[s.base + b := PRead(s.file, s.blocks[b], Span(s, b))])
  }

  /** What `Read` returns, from the file or by way of a cached block. */
  function ReadAt(s: Store, b: nat, pos: nat, n: nat): Bytes {
    if b + 1 < |s.blocks| && s.base + b in Load(s, b).cells then PRead(Load(s, b).cells[s.base + b], pos, n)
    else PRead(s.file, Wrap((if b < |s.blocks| then s.blocks[b] else 0) + pos), n)
  }

  function ReadRow(s: Store, row: Row): Bytes {
    ReadAt(s, row.blockId, row.inBlockPos, row.len)
  }

  lemma MirroredAt(s: Store, b: nat)
    requires Mirrors(s) && b < |s.starts|
    ensures s.blocks[b] == Wrap(s.starts[b])
  {
  }

  lemma BlockSpans(per: nat, blocks: seq<nat>, offset: nat, b: nat)
    requires BlocksOk(per, blocks, offset) && b + 1 < |blocks|
    ensures blocks[b] <= blocks[b + 1] <= blocks[b] + MAX_STRING_LEN
  {
    assert blocks[b] <= End(blocks, offset, b) <= blocks[b] + MAX_STRING_LEN;
  }

  /** A closed block of Ok places is read whole, where it is. */
  lemma SpanIs(s: Store, b: nat)
    requires Mirrors(s) && BlocksOk(s.per, s.starts, s.total) && b + 1 < |s.starts|
    ensures Span(s, b) == s.starts[b + 1] - s.starts[b] <= MAX_STRING_LEN
  {
    hide Mirrored, BlocksOk, Wrap;
    BlockSpans(s.per, s.starts, s.total, b);
    MirroredAt(s, b);
    MirroredAt(s, b + 1);
    WrapSubtracts(s.starts[b + 1], s.starts[b]);
  }

  lemma ClosedBelow(s: Store, b: nat)
    requires Mirrors(s) && Unwrapped(s) && BlocksOk(s.per, s.starts, s.total) && b + 1 < |s.starts|
    ensures s.starts[b] < OFFSET_LIMIT && s.blocks[b] == s.starts[b]
  {
    assert End(s.starts, s.total, b + 1) >= s.starts[b] + s.per;
    assert s.starts[b] < OFFSET_LIMIT || s.starts[b] == s.total;
    assert s.blocks[b] == Wrap(s.starts[b]);
    hide Mirrored, BelowLimit;
    EndBelow(s.per, s.starts, s.total, b + 1);
  }

  /** A row that is not cached is read from its place in the file, by itself or with its block. */
  lemma ReadsFromFile(s: Store, row: Row)
    requires Mirrors(s) && BlocksOk(s.per, s.starts, s.total) && row.blockId < |s.starts|
    requires s.base + row.blockId !in s.cells
    requires At(s, row) < OFFSET_LIMIT && At(s, row) + row.len <= End(s.starts, s.total, row.blockId)
    ensures ReadRow(s, row) == PRead(s.file, At(s, row), row.len)
  {
    hide Mirrored, BlocksOk, Wrap, PRead;
    var b := row.blockId;
    MirroredAt(s, b);
    WrapPlace(s.starts[b], row.inBlockPos);
    if b + 1 < |s.blocks| {
      SpanIs(s, b);
      PReadInside(s.file, s.blocks[b], Span(s, b), row.inBlockPos, row.len);
    }
  }

  lemma WrapPlace(start: nat, pos: nat)
    requires start + pos < OFFSET_LIMIT
    ensures Wrap(start) == start && Wrap(Wrap(start) + pos) == start + pos
  {
  }

  lemma PReadInside(file: Bytes, at: nat, n: nat, pos: nat, len: nat)
    requires pos + len <= n
    ensures PRead(PRead(file, at, n), pos, len) == PRead(file, at + pos, len)
  {
    var block := PRead(file, at, n);
    if at + pos <= |file| {
      var a, b := PRead(block, pos, len), PRead(file, at + pos, len);
      assert |a| == |b|;
      forall k | 0 <= k < |a| ensures a[k] == b[k] {
        assert a[k] == block[pos + k] == file[at + pos + k];
      }
    }
  }

  lemma PReadHolds(file: Bytes, at: nat, text: Bytes)
    requires Holds(file, at, text)
    ensures PRead(file, at, |text|) == text
  {
  }

  /** Every string reads back as it was last put or updated, cached or not. */
  lemma ReadsBack(s: Store, i: nat)
    requires Ok(s) && i < |s.rows|
    ensures Placed(s, s.rows[i]) && ReadRow(s, s.rows[i]) == s.rows[i].text
  {
    hide Wrap, Mirrored, BelowLimit;
    var row := s.rows[i];
    assert Placed(s, row) && Stored(s, row);
    BlocksBounded(s.per, s.starts, s.total);
    assert CellOk(s, row.blockId);
    if row.len == 0 {
    } else if s.base + row.blockId in s.cells {
      hide BlocksOk, RowsOk, CellsOk, Mirrors;
      CellReads(s, row);
    } else {
      PReadHolds(s.file, At(s, row), row.text);
      ReadsFromFile(s, row);
    }
  }

  lemma CellReads(s: Store, row: Row)
    requires Placed(s, row) && Stored(s, row) && CellOk(s, row.blockId) && s.base + row.blockId in s.cells
    requires |s.blocks| == |s.starts|
    ensures ReadRow(s, row) == row.text
  {
    var copy := s.cells[s.base + row.blockId];
    HoldsInCopy(s.file, s.starts[row.blockId], copy, row.inBlockPos, row.text);
  }

  // ----- Blocks and cache ids -----

  lemma {:induction false} TwoBlocksSpan(per: nat, blocks: seq<nat>, offset: nat, k: nat)
    requires BlocksOk(per, blocks, offset) && 2 * k < |blocks|
    ensures blocks[2 * k] >= k * per
  {
    if k > 0 {
      TwoBlocksSpan(per, blocks, offset, k - 1);
      assert End(blocks, offset, 2 * k - 2 + 1) >= blocks[2 * k - 2] + per;
      assert (k - 1) * per + per == k * per;
    }
  }

  /** With 32-bit string offsets a segment never opens as many blocks as it has cache ids. */
  lemma BlocksBounded(per: nat, blocks: seq<nat>, offset: nat)
    requires BlocksOk(per, blocks, offset) && offset < OFFSET_LIMIT + 65536
    ensures |blocks| < SEG_BLOCK_CAPACITY
  {
    if |blocks| > 0 {
      var k := (|blocks| - 1) / 2;
      TwoBlocksSpan(per, blocks, offset, k);
      EndBelow(per, blocks, offset, 2 * k);
      MulMonotone(k, 32769, per);
    }
  }

  lemma MulMonotone(k: nat, a: nat, b: nat)
    requires a <= b
    ensures k * a <= k * b
  {
  }

  /** `GetCacheBlockId`, on unsigned 32-bit arithmetic. */
  function CacheBlockId(segId: nat, blockId: nat): nat {
    (segId * SEG_BLOCK_CAPACITY + blockId) % OFFSET_LIMIT
  }

  /** As long as they fit in 32 bits, the blocks of all segments have different cache ids. */
  lemma CacheIdsDistinct(seg: nat, b: nat, seg': nat, b': nat)
    requires b < SEG_BLOCK_CAPACITY && b' < SEG_BLOCK_CAPACITY
    requires seg * SEG_BLOCK_CAPACITY + b < OFFSET_LIMIT && seg' * SEG_BLOCK_CAPACITY + b' < OFFSET_LIMIT
    ensures CacheBlockId(seg, b) == CacheBlockId(seg', b') <==> seg == seg' && b == b'
  {
    if CacheBlockId(seg, b) == CacheBlockId(seg', b') {
      assert (seg - seg') * SEG_BLOCK_CAPACITY == b' - b;
    }
  }

  // ----- The file of a segment -----

  /** `ftruncate` to a larger size. */
  function Extended(s: Store, k: nat): Store {
    s.(file := s.file + Zeros(k))
  }

  lemma ExtendKeeps(s: Store, k: nat)
    requires Ok(s)
    ensures Ok(Extended(s, k))
  {
    hide Wrap, Mirrored, BelowLimit;
    var s' := Extended(s, k);
    hide Holds;
    forall i | 0 <= i < |s.rows| ensures Placed(s', s.rows[i]) && Stored(s', s.rows[i]) {
      assert Stored(s, s.rows[i]);
      HoldsExtended(s.file, Zeros(k), At(s, s.rows[i]), s.rows[i].text);
    }
    hide Stored, Placed, Mirrors, Unwrapped;
    forall i, j | 0 <= i < j < |s.rows| ensures Apart(s', s.rows[i], s.rows[j]) {
      assert Apart(s, s.rows[i], s.rows[j]);
    }
    hide RowsOk, BlocksOk;
    forall b: nat | b < SEG_BLOCK_CAPACITY ensures CellOk(s', b) {
      assert CellOk(s, b);
      if s.base + b in s.cells { HoldsExtended(s.file, Zeros(k), s.starts[b], s.cells[s.base + b]); }
    }
  }

  lemma LoadKeeps(s: Store, b: nat)
    requires Ok(s) && b + 1 < |s.blocks|
    ensures Ok(Load(s, b))
  {
    hide Wrap, Mirrored, BelowLimit, BlocksOk, Load, Placed, Stored;
    var s' := Load(s, b);
    LoadFields(s, b);
    SameRows(s, s');
    hide RowsOk;
    forall c: nat | c < SEG_BLOCK_CAPACITY ensures CellOk(s', c) {
      assert CellOk(s, c);
      if c == b { HoldsSlice(s.file, s.starts[b], s.starts[b + 1] - s.starts[b]); }
    }
  }

  lemma LoadFields(s: Store, b: nat)
    requires Mirrors(s) && Unwrapped(s) && BlocksOk(s.per, s.starts, s.total) && s.total <= |s.file|
    requires b + 1 < |s.blocks|
    ensures s.starts[b] <= s.starts[b + 1] <= |s.file|
    ensures Load(s, b) == if s.base + b in s.cells then s
            else s.(cells := s.cells[s.base + b := s.file[s.starts[b]..s.starts[b + 1]]])
  {
    hide Wrap, Mirrored, BelowLimit, BlocksOk;
    BlockSpans(s.per, s.starts, s.total, b);
    SpanIs(s, b);
    ClosedBelow(s, b);
    EndBelow(s.per, s.starts, s.total, b);
    assert PRead(s.file, s.starts[b], s.starts[b + 1] - s.starts[b]) == s.file[s.starts[b]..s.starts[b + 1]];
    hide PRead;
  }

  /** Eviction, in this or any other segment's part of the cache. */
  lemma EvictKeeps(s: Store, keys: set<nat>)
    requires Ok(s)
    ensures Ok(s.(cells := s.cells - keys))
  {
    hide Wrap, Mirrored, BelowLimit;
    var s' := s.(cells := s.cells - keys);
    SameRows(s, s');
    forall c: nat | c < SEG_BLOCK_CAPACITY ensures CellOk(s', c) {
      assert CellOk(s, c);
    }
  }

  lemma SameRows(s: Store, s': Store)
    requires RowsOk(s) && s' == s.(cells := s'.cells)
    ensures RowsOk(s')
  {
    forall i | 0 <= i < |s.rows| ensures Placed(s', s.rows[i]) && Stored(s', s.rows[i]) {
      assert Stored(s, s.rows[i]);
    }
    forall i, j | 0 <= i < j < |s.rows| ensures Apart(s', s.rows[i], s.rows[j]) {
      assert Apart(s, s.rows[i], s.rows[j]);
    }
  }

  // ----- Whole runs -----

  /** Values may be of any length; `Elsewhere` is what goes on in the cache on behalf of other segments. */
  datatype Op =
    | Grow(k: nat)
    | PutOp(value: Bytes)
    | SetOp(i: nat, value: Bytes)
    | Cache(b: nat)
    | Drop(keys: set<nat>)
    | Elsewhere(cells: map<nat, Bytes>)

  /** The same cached blocks among those with ids from `base` on. */
  ghost predicate SameOwn(base: nat, a: map<nat, Bytes>, b: map<nat, Bytes>) {
    forall k: nat :: base <= k < base + SEG_BLOCK_CAPACITY ==> (k in a <==> k in b) && (k in a ==> a[k] == b[k])
  }

  /** The cached blocks of other segments are those of before, less what was evicted. */
  ghost predicate OthersKept(base: nat, before: map<nat, Bytes>, after: map<nat, Bytes>) {
    forall k: nat :: k in after && !(base <= k < base + SEG_BLOCK_CAPACITY) ==> k in before && after[k] == before[k]
  }

  ghost predicate Enabled(s: Store, op: Op) {
    match op
    case Grow(_) => true
    case PutOp(_) => true
    case SetOp(i, _) => i < |s.rows|
    case Cache(b) => b + 1 < |s.blocks|
    case Drop(_) => true
    case Elsewhere(cells) => SameOwn(s.base, s.cells, cells)
  }

  ghost function Apply(s: Store, op: Op): Store
    requires Enabled(s, op)
  {
    match op
    case Grow(k) => Extended(s, k)
    case PutOp(value) => AfterPut(s, Cut(value))
    case SetOp(i, value) => AfterSet(s, i, Cut(value))
    case Cache(b) => Load(s, b)
    case Drop(keys) => s.(cells := s.cells - keys)
    case Elsewhere(cells) => s.(cells := cells)
  }

  /** If the operation appends, the text starts below the limit or is empty. */
  predicate StartsBelow(s: Store, op: Op) {
    match op
    case PutOp(value) => Room(s, Cut(value))
    case SetOp(i, value) => i < |s.rows| ==> StaysPut(s, i, |Cut(value)|) || Room(s, Cut(value))
    case _ => true
  }

  /** What an operation means for the list of values. */
  function Meaning(values: seq<Bytes>, op: Op): seq<Bytes> {
    match op
    case PutOp(value) => values + [value]
    case SetOp(i, value) => if i < |values| then values[i := value] else values
    case _ => values
  }

  ghost predicate Runs(s: Store, ops: seq<Op>, s': Store)
    decreases |ops|
  {
    if ops == [] then s' == s else Enabled(s, ops[0]) && Runs(Apply(s, ops[0]), ops[1..], s')
  }

  function MeaningOf(values: seq<Bytes>, ops: seq<Op>): seq<Bytes>
    decreases |ops|
  {
    if ops == [] then values else MeaningOf(Meaning(values, ops[0]), ops[1..])
  }

  /** The rows hold what is stored of these values. */
  predicate Holding(rows: seq<Row>, values: seq<Bytes>) {
    |rows| == |values| && forall i :: 0 <= i < |rows| ==> Texts(rows)[i] == Cut(values[i])
  }

  lemma ApplyKeeps(s: Store, op: Op, values: seq<Bytes>)
    requires Ok(s) && Enabled(s, op) && StartsBelow(s, op) && Holding(s.rows, values)
    ensures Ok(Apply(s, op)) && Holding(Apply(s, op).rows, Meaning(values, op))
  {
    hide Wrap, Mirrored, BelowLimit;
    hide Ok, Cut, Overwrite;
    match op
    case Grow(k) => ExtendKeeps(s, k);
    case PutOp(value) => PutKeeps(s, Cut(value));
    case SetOp(i, value) => SetKeeps(s, i, Cut(value));
    case Cache(b) => LoadKeeps(s, b);
    case Drop(keys) => EvictKeeps(s, keys);
    case Elsewhere(cells) => ElsewhereKeeps(s, cells);
  }

  /** What other segments do in the cache does not matter here. */
  lemma ElsewhereKeeps(s: Store, cells: map<nat, Bytes>)
    requires Ok(s) && SameOwn(s.base, s.cells, cells)
    ensures Ok(s.(cells := cells))
  {
    hide Wrap, Mirrored, BelowLimit;
    var s' := s.(cells := cells);
    SameRows(s, s');
    hide RowsOk, BlocksOk;
    forall b: nat | b < SEG_BLOCK_CAPACITY ensures CellOk(s', b) {
      assert CellOk(s, b);
    }
  }

  /** Nor does this segment touch the cached blocks of others, unless by evicting them. */
  lemma ApplyLeavesOthers(s: Store, op: Op)
    requires Ok(s) && Enabled(s, op) && !op.Elsewhere?
    ensures OthersKept(s.base, s.cells, Apply(s, op).cells)
  {
    hide Wrap, Mirrored, BelowLimit;
    BlocksBounded(s.per, s.starts, s.total);
  }

  /** Every append of the run starts below the limit or is empty. */
  ghost predicate RunStartsBelow(s: Store, ops: seq<Op>)
    decreases |ops|
  {
    ops == [] || (Enabled(s, ops[0]) ==> StartsBelow(s, ops[0]) && RunStartsBelow(Apply(s, ops[0]), ops[1..]))
  }

  /** That is so when the sizes of all strings appended, by puts and by updates that move, total at most 2^32. */
  lemma {:induction false} TotalWithinLimit(s: Store, ops: seq<Op>, s': Store)
    requires Runs(s, ops, s') && s'.total <= OFFSET_LIMIT
    ensures s.total <= s'.total && RunStartsBelow(s, ops)
    decreases |ops|
  {
    if ops != [] {
      hide Overwrite, Opened, PWrite;
      TotalWithinLimit(Apply(s, ops[0]), ops[1..], s');
    }
  }

  /**
    After any run of puts, updates, file growth, cache loads and evictions, whatever other segments
    do in the same cache, a record reads back the value last put or set there exactly when that is
    shorter than 65536 bytes; of a longer one, the size modulo 65536 of its bytes.  No text of the run
    may start at or past 2^32 bytes of strings appended.
   */
  lemma {:induction false} RunReadsBack(s: Store, ops: seq<Op>, s': Store, values: seq<Bytes>)
    requires Ok(s) && Runs(s, ops, s') && RunStartsBelow(s, ops) && Holding(s.rows, values)
    ensures Ok(s') && Holding(s'.rows, MeaningOf(values, ops))
    ensures forall i :: 0 <= i < |s'.rows| ==>
              var value := MeaningOf(values, ops)[i];
              && ReadRow(s', s'.rows[i]) == Cut(value)
              && (ReadRow(s', s'.rows[i]) == value <==> |value| <= MAX_STRING_LEN)
    decreases |ops|
  {
    hide Wrap, Mirrored, BelowLimit;
    if ops == [] {
      forall i | 0 <= i < |s.rows| ensures ReadRow(s, s.rows[i]) == s.rows[i].text {
        ReadsBack(s, i);
      }
    } else {
      ApplyKeeps(s, ops[0], values);
      RunReadsBack(Apply(s, ops[0]), ops[1..], s', Meaning(values, ops[0]));
    }
  }

  lemma CachedBlockFits(s: Store, b: nat)
    requires Ok(s) && b < SEG_BLOCK_CAPACITY && s.base + b in s.cells
    ensures |s.cells[s.base + b]| <= MAX_STRING_LEN
  {
    hide Wrap, Mirrored, BelowLimit;
    hide Holds, RowsOk;
    assert CellOk(s, b) && End(s.starts, s.total, b) == s.starts[b + 1];
  }

  lemma HoldsItself(s: Store)
    requires Ok(s)
    ensures Holding(s.rows, Texts(s.rows))
  {
    hide Wrap, Mirrored, BelowLimit;
    hide Holds;
    forall i | 0 <= i < |s.rows| ensures Texts(s.rows)[i] == Cut(Texts(s.rows)[i]) {
      assert Placed(s, s.rows[i]) && Stored(s, s.rows[i]);
    }
  }

  /** No block of the segment that is in the cache, after any run, is longer than a cache buffer. */
  lemma {:induction false} CachedBlocksFit(s: Store, ops: seq<Op>, s': Store, b: nat)
    requires Ok(s) && Runs(s, ops, s') && RunStartsBelow(s, ops) && b < SEG_BLOCK_CAPACITY && s'.base + b in s'.cells
    ensures |s'.cells[s'.base + b]| <= MAX_STRING_LEN
    decreases |ops|
  {
    hide Wrap, Mirrored, BelowLimit;
    if ops == [] {
      CachedBlockFits(s, b);
    } else {
      hide Ok, Apply, Holding;
      var values := Texts(s.rows);
      HoldsItself(s);
      ApplyKeeps(s, ops[0], values);
      CachedBlocksFit(Apply(s, ops[0]), ops[1..], s', b);
    }
  }

  /** A value of 65536 bytes is stored as the empty string. */
  lemma LongValueLost(s: Store, value: Bytes)
    requires Ok(s) && |value| == 65536
    ensures var s' := Apply(s, PutOp(value));
            Ok(s') && ReadRow(s', s'.rows[|s.rows|]) == [] != value
  {
    hide Wrap, Mirrored, BelowLimit;
    var s' := Apply(s, PutOp(value));
    PutKeeps(s, Cut(value));
    hide Opened, Ok;
    ReadsBack(s', |s.rows|);
  }

  /** The growth loop of `AddString`: a factor of 1.3, truncated, makes progress from 4 on. */
  method ExtendCapacity(capacity: nat, need: nat) returns (extended: nat)
    requires capacity >= 4
    ensures extended > need && extended > capacity
  {
    extended := capacity * 13 / 10;
    while need >= extended
      invariant extended > capacity
      decreases need - extended
    {
      extended := extended * 13 / 10;
    }
  }

  /** No cache id of one segment is in use. */
  predicate NoneOf(cells: map<nat, Bytes>, base: nat) {
    forall key :: key in cells ==> !(base <= key < base + SEG_BLOCK_CAPACITY)
  }

  /** `ftruncate`. */
  function Resized(file: Bytes, n: nat): (r: Bytes)
    ensures |r| == n
  {
    if n <= |file| then file[..n] else file + Zeros(n - |file|)
  }

  class StringBlock {
    const perBlockSize: nat
    const cacheBase: nat       // cache id of the first block, seg_id_ * seg_block_capacity_
    var file: Bytes            // the contents behind str_fd_
    var blockPos: seq<nat>
    var strOffset: nat
    var strCapacity: nat
    var cells: map<nat, Bytes> // the cache
    ghost var rows: seq<Row>
    ghost var starts: seq<nat>
    ghost var total: nat

    ghost function Model(): Store
      reads this
    {
      Store(perBlockSize, cacheBase, file, blockPos, strOffset, cells, rows, starts, total)
    }

    /** The file is as long as its capacity until a string reaches across the limit. */
    ghost predicate Roomy()
      reads this
    {
      4 <= strCapacity <= |file| && strOffset < strCapacity && (total < OFFSET_LIMIT ==> |file| == strCapacity)
    }

    ghost predicate Valid()
      reads this
    {
      Ok(Model()) && Roomy()
    }

    constructor (perBlockSize: nat, segId: nat, strCapacity: nat, cells: map<nat, Bytes>)
      requires 32768 < perBlockSize <= 65536 && strCapacity >= 4
      requires NoneOf(cells, segId * SEG_BLOCK_CAPACITY)
      ensures Valid() && Model() == Empty(perBlockSize, segId * SEG_BLOCK_CAPACITY, strCapacity, cells)
    {
      this.perBlockSize, this.cacheBase, this.strCapacity := perBlockSize, segId * SEG_BLOCK_CAPACITY, strCapacity;
      file, blockPos, strOffset, this.cells := Zeros(strCapacity), [], 0, cells;
      rows, starts, total := [], [], 0;
    }

    method AddBlockPos(pos: nat)
      modifies `blockPos
      ensures blockPos == old(blockPos) + [pos]
    {
      blockPos := blockPos + [pos];
    }

    /** The string is written where the last one ended, which may also open a block there. */
    method WriteString(value: Bytes, start: nat) returns (blockId: nat, inBlockPos: nat)
      requires start == strOffset
      modifies `file, `blockPos
      ensures file == PWrite(old(file), start, value)
      ensures blockPos == Opened(perBlockSize, old(blockPos), start, |value|).0
      ensures Row(blockId, inBlockPos, |value|, |value|, value) == NewRow(old(Model()), value)
    {
      file := PWrite(file, start, value);
      if |blockPos| == 0 {
        AddBlockPos(0);
      }
      inBlockPos := Narrow(start - blockPos[|blockPos| - 1]);
      var blockLen := inBlockPos + |value|;
      if blockLen >= perBlockSize {
        AddBlockPos(start);
        inBlockPos := 0;
      }
      blockId := |blockPos| - 1;
    }

    /** Raises the capacity until the string fits, by the 32-bit sum of offset and size. */
    method Reserve(len: nat)
      requires strCapacity >= 4
      modifies `file, `strCapacity
      ensures strCapacity >= old(strCapacity) && Wrap(strOffset + len) < strCapacity
      ensures strCapacity == old(strCapacity) <==> Wrap(strOffset + len) < old(strCapacity)
      ensures file == if strCapacity == old(strCapacity) then old(file) else Resized(old(file), strCapacity)
    {
      if Wrap(strOffset + len) >= strCapacity {
        var extendCapacity := ExtendCapacity(strCapacity, Wrap(strOffset + len));
        strCapacity := extendCapacity;
        file := Resized(file, strCapacity);
      }
    }

    /** Appends a string at the 32-bit offset, making room in the file first; `room` is the file by then. */
    method AddString(value: Bytes) returns (blockId: nat, inBlockPos: nat, ghost room: Bytes)
      requires strCapacity >= 4 && |value| <= MAX_STRING_LEN
      modifies `file, `blockPos, `strOffset, `strCapacity, `starts, `total
      ensures strCapacity >= 4 && Model() == Append(old(Model()).(file := room), value)
      ensures Row(blockId, inBlockPos, |value|, |value|, value) == NewRow(old(Model()), value)
      ensures old(Mirrors(Model()) && Roomy() && Room(Model(), value) && total < OFFSET_LIMIT + 65536) ==>
                Roomy() && |old(file)| <= |room| && room == old(file) + Zeros(|room| - |old(file)|)
    {
      hide Opened, PWrite, Wrap, Mirrored;
      ghost var m := Model();
      Reserve(|value|);
      room := file;
      if Mirrors(m) && old(Roomy()) && Room(m, value) && total < OFFSET_LIMIT + 65536 {
        StaysRoomy(m, value, old(strCapacity), room, strCapacity);
      }
      blockId, inBlockPos := WriteString(value, strOffset);
      starts := Opened(perBlockSize, starts, total, |value|).0;
      total := total + |value|;
      strOffset := Wrap(strOffset + |value|);
    }

    /**
      A value of any length is taken.  As long as its text starts below the limit, or is empty, what is
      stored of it reads back and every other string is as it was.
     */
    method Put(value: Bytes) returns (blockId: nat, inBlockPos: nat, ghost room: Bytes)
      requires strCapacity >= 4
      modifies `file, `blockPos, `strOffset, `strCapacity, `rows, `starts, `total
      ensures strCapacity >= 4 && Model() == AfterPut(old(Model()).(file := room), Cut(value))
      ensures rows == old(rows) + [Row(blockId, inBlockPos, |Cut(value)|, |Cut(value)|, Cut(value))]
      ensures old(Valid() && Room(Model(), Cut(value))) ==>
                Valid() == true && Texts(rows) == Texts(old(rows)) + [Cut(value)]
    {
      hide Ok, Cut;
      ghost var s := Model();
      var text := Cut(value);
      blockId, inBlockPos, room := AddString(text);
      rows := rows + [Row(blockId, inBlockPos, |text|, |text|, text)];
      assert NewRow(s.(file := room), text) == NewRow(s, text);
      if old(Valid() && Room(Model(), Cut(value))) {
        OkHistory(s);
        ExtendKeeps(s, |room| - |s.file|);
        PutKeeps(s.(file := room), text);
      }
    }

    /** Overwrites in place, -1 when the text does not fit the block. */
    method UpdateString(value: Bytes, blockId: nat, inBlockPos: nat, ghost i: nat) returns (ret: int)
      requires i < |rows| && rows[i].blockId == blockId && rows[i].inBlockPos == inBlockPos
      modifies `file, `cells, `rows
      ensures ret == if Fits(old(Model()), old(rows[i]), |value|) then 0 else -1
      ensures Model() == if ret == 0 then Overwrite(old(Model()), i, value) else old(Model())
    {
      if blockId >= |blockPos| || inBlockPos + |value| > perBlockSize {
        return -1;
      }
      file := PWrite(file, Wrap(blockPos[blockId] + inBlockPos), value);
      var cacheBid := cacheBase + blockId;
      if cacheBid in cells {
        cells := cells[cacheBid := PWrite(cells[cacheBid], inBlockPos, value)];
      }
      rows := rows[i := rows[i].(len := |value|, text := value)];
      return 0;
    }

    /** An update, through `StorageManager::UpdateString`: in place when what is stored is not longer, else appended. */
    method Set(ghost i: nat, value: Bytes, oldLen: nat, blockId: nat, inBlockPos: nat)
      returns (bid: nat, pos: nat, ghost room: Bytes)
      requires strCapacity >= 4
      requires i < |rows| && rows[i].blockId == blockId && rows[i].inBlockPos == inBlockPos && rows[i].len == oldLen
      modifies `file, `cells, `rows, `blockPos, `strOffset, `strCapacity, `starts, `total
      ensures strCapacity >= 4 && Model() == AfterSet(old(Model()).(file := room), i, Cut(value))
      ensures rows[i].blockId == bid && rows[i].inBlockPos == pos && rows[i].len == |Cut(value)|
      ensures forall j :: 0 <= j < |rows| && j != i ==> rows[j] == old(rows[j])
      ensures old(Valid() && (StaysPut(Model(), i, |Cut(value)|) || Room(Model(), Cut(value)))) ==>
                Valid() == true && Texts(rows) == Texts(old(rows))[i := Cut(value)]
    {
      hide Ok, Cut;
      ghost var s := Model();
      var ret := -1;
      var text := Cut(value);
      bid, pos, room := blockId, inBlockPos, file;
      if |text| <= oldLen {
        ret := UpdateString(text, blockId, inBlockPos, i);
      }
      if ret == -1 {
        bid, pos, room := AddString(text);
        rows := rows[i := Row(bid, pos, |text|, |text|, text)];
        assert NewRow(s.(file := room), text) == NewRow(s, text);
        if old(Valid() && Room(Model(), Cut(value))) {
          OkHistory(s);
          ExtendKeeps(s, |room| - |s.file|);
          MovedKeeps(s.(file := room), i, text);
        }
      } else if old(Valid()) {
        OverwriteKeeps(s, i, text);
      }
    }

    /** The cached block, brought in when it is missing and not too long. */
    method SetOrGet(blockId: nat) returns (res: bool, block: Bytes)
      requires blockId + 1 < |blockPos|
      modifies `cells
      ensures Model() == Load(old(Model()), blockId)
      ensures res <==> cacheBase + blockId in cells
      ensures res ==> block == cells[cacheBase + blockId]
    {
      var cacheBid := cacheBase + blockId;
      if cacheBid in cells {
        return true, cells[cacheBid];
      }
      var len := Wrap((blockPos[blockId + 1] as int) - blockPos[blockId]);
      if len > MAX_BLOCK_SIZE {
        return false, [];
      }
      block := PRead(file, blockPos[blockId], len);
      cells := cells[cacheBid := block];
      res := true;
    }

    method Evict(keys: set<nat>)
      requires Valid()
      modifies `cells
      ensures Valid() && cells == old(cells) - keys
    {
      hide Ok;
      EvictKeeps(Model(), keys);
      cells := cells - keys;
    }

    /** Whatever a record says is read; in a valid segment, a string as it was last put or set. */
    method Read(blockId: nat, inBlockPos: nat, nBytes: nat) returns (str: Bytes)
      modifies `cells
      ensures str == ReadAt(old(Model()), blockId, inBlockPos, nBytes)
      ensures old(Valid()) ==> Valid() == true && rows == old(rows) && forall i ::
                0 <= i < |rows| && rows[i].blockId == blockId && rows[i].inBlockPos == inBlockPos &&
                rows[i].len == nBytes
                ==> str == Texts(rows)[i]
    {
      hide Ok;
      ghost var s := Model();
      var front := if blockId < |blockPos| then blockPos[blockId] else 0;
      if blockId + 1 >= |blockPos| {
        str := PRead(file, Wrap(front + inBlockPos), nBytes);
      } else {
        if old(Valid()) { LoadKeeps(s, blockId); }
        var res, block := SetOrGet(blockId);
        if !res {
          str := PRead(file, Wrap(front + inBlockPos), nBytes);
        } else {
          str := PRead(block, inBlockPos, nBytes);
        }
      }
      if old(Valid()) {
        forall i | 0 <= i < |rows| && rows[i].blockId == blockId && rows[i].inBlockPos == inBlockPos &&
                   rows[i].len == nBytes
          ensures str == Texts(rows)[i]
        {
          ReadsBack(s, i);
        }
      }
    }
  }

  /** After the capacity was raised as `Reserve` does, the string either fits or reaches across the limit. */
  lemma StaysRoomy(s: Store, text: Bytes, capacity: nat, room: Bytes, raised: nat)
    requires Mirrors(s) && Room(s, text) && |text| <= MAX_STRING_LEN && s.total < OFFSET_LIMIT + 65536
    requires 4 <= capacity <= |s.file| && s.offset < capacity && (s.total < OFFSET_LIMIT ==> |s.file| == capacity)
    requires capacity <= raised && Wrap(s.offset + |text|) < raised
    requires raised == capacity <==> Wrap(s.offset + |text|) < capacity
    requires room == if raised == capacity then s.file else Resized(s.file, raised)
    ensures |s.file| <= |room| && room == s.file + Zeros(|room| - |s.file|)
    ensures var file := PWrite(room, s.offset, text);
            && raised <= |file| && Wrap(s.offset + |text|) < raised
            && (s.total + |text| < OFFSET_LIMIT ==> |file| == raised)
  {
    assert s.file + Zeros(0) == s.file;
  }

  lemma OkHistory(s: Store)
    requires Ok(s)
    ensures Mirrors(s) && s.total < OFFSET_LIMIT + 65536
  {
    hide Wrap, Mirrored, BelowLimit;
  }
}
