/**
  Where the strings of a segment end up when the block index on disk is an old one, and when their
  sizes add up to more than the 32-bit string offset can hold.
 */
module StringPlaces {
  import opened FileBytes
  import opened StringBlocks
  import JoinedWrites

  // ----- A segment over the block index of an earlier one -----

  /** The places that the records of strings of these sizes name, in 32 bits, and where the strings are written. */
  function PlacesNamed(per: nat, blocks: seq<nat>, offset: nat, sizes: seq<nat>): (r: seq<nat>)
    ensures |r| == |sizes|
    decreases |sizes|
  {
    if sizes == [] then [] else
      var (blocks', pos) := Opened(per, blocks, offset, sizes[0]);
      [Wrap(blocks'[|blocks'| - 1] + pos)] + PlacesNamed(per, blocks', Wrap(offset + sizes[0]), sizes[1..])
  }

  function PlacesWritten(offset: nat, sizes: seq<nat>): (r: seq<nat>)
    ensures |r| == |sizes|
    decreases |sizes|
  {
    if sizes == [] then [] else [offset] + PlacesWritten(Wrap(offset + sizes[0]), sizes[1..])
  }

  /** The same without the wrap. */
  function UnwrappedNamed(per: nat, blocks: seq<nat>, offset: nat, sizes: seq<nat>): (r: seq<nat>)
    ensures |r| == |sizes|
    decreases |sizes|
  {
    if sizes == [] then [] else
      var (blocks', pos) := Opened(per, blocks, offset, sizes[0]);
      [blocks'[|blocks'| - 1] + pos] + UnwrappedNamed(per, blocks', offset + sizes[0], sizes[1..])
  }

  function UnwrappedWritten(offset: nat, sizes: seq<nat>): (r: seq<nat>)
    ensures |r| == |sizes|
    decreases |sizes|
  {
    if sizes == [] then [] else [offset] + UnwrappedWritten(offset + sizes[0], sizes[1..])
  }

  lemma {:induction false} WrittenWrapped(total: nat, sizes: seq<nat>, i: nat)
    requires i < |sizes|
    ensures PlacesWritten(Wrap(total), sizes)[i] == Wrap(UnwrappedWritten(total, sizes)[i])
    decreases i
  {
    hide Wrap;
    WrapAdds(total, sizes[0]);
    if i > 0 { WrittenWrapped(total + sizes[0], sizes[1..], i - 1); }
  }

  lemma {:induction false} NamedWrapped(per: nat, blocks: seq<nat>, starts: seq<nat>, total: nat, sizes: seq<nat>,
      i: nat)
    requires i < |sizes| && blocks != [] && starts != [] && blocks[|blocks| - 1] == Wrap(starts[|starts| - 1])
    ensures PlacesNamed(per, blocks, Wrap(total), sizes)[i] == Wrap(UnwrappedNamed(per, starts, total, sizes)[i])
    decreases i
  {
    hide Wrap, Narrow;
    NarrowWrapped(total, starts[|starts| - 1]);
    WrapAdds(total, sizes[0]);
    var (blocks', pos) := Opened(per, blocks, Wrap(total), sizes[0]);
    var (starts', pos') := Opened(per, starts, total, sizes[0]);
    assert pos' == pos && blocks'[|blocks'| - 1] == Wrap(starts'[|starts'| - 1]);
    hide Opened;
    WrapAdds(starts'[|starts'| - 1], pos);
    if i > 0 { NamedWrapped(per, blocks', starts', total + sizes[0], sizes[1..], i - 1); }
  }

  /** The 16-bit position that the first string gets. */
  function FirstPos(stale: seq<nat>): (pos: nat)
    requires stale != []
    ensures pos < 65536
  {
    Narrow(-(stale[|stale| - 1] as int))
  }

  /** While the last block starts less than sixteen bits before the end, records are right, whatever precedes it. */
  lemma {:induction false} RightFromHereOn(per: nat, blocks: seq<nat>, offset: nat, sizes: seq<nat>)
    requires per <= 65536 && blocks != [] && blocks[|blocks| - 1] <= offset < blocks[|blocks| - 1] + 65536
    requires forall i :: 0 <= i < |sizes| ==> sizes[i] <= MAX_STRING_LEN
    ensures UnwrappedNamed(per, blocks, offset, sizes) == UnwrappedWritten(offset, sizes)
    decreases |sizes|
  {
    if sizes != [] {
      var last := blocks[|blocks| - 1];
      assert Narrow(offset - last) == offset - last;
      hide Narrow;
      RightFromHereOn(per, Opened(per, blocks, offset, sizes[0]).0, offset + sizes[0], sizes[1..]);
    }
  }

  /** By how much the records are off until a block opens: a multiple of 65536. */
  function Off(stale: seq<nat>): nat
    requires stale != []
  {
    stale[|stale| - 1] + FirstPos(stale)
  }

  /** String `i`, which starts `at` bytes into the segment, or an earlier one opens a block. */
  predicate OpenedBy(per: nat, stale: seq<nat>, at: nat, size: nat)
    requires stale != []
  {
    FirstPos(stale) + at + size >= per
  }

  /**
    `Segment::Init` starts a segment at string offset 0 but reads back whatever block index is on
    disk, such as that of a segment dropped by `Truncate`.  Records are right from the first string
    on that opens a block, and all before it are off by the same multiple of 65536, which is none in
    32 bits exactly when the index ends at 0 or less than 65536 before the limit.
   */
  lemma StaleIndexMisplaces(per: nat, stale: seq<nat>, sizes: seq<nat>, i: nat)
    requires 32768 < per <= 65536 && stale != [] && stale[|stale| - 1] < OFFSET_LIMIT && i < |sizes|
    requires forall i :: 0 <= i < |sizes| ==> sizes[i] <= MAX_STRING_LEN
    ensures var at := UnwrappedWritten(0, sizes)[i];
            && PlacesWritten(0, sizes)[i] == Wrap(at)
            && PlacesNamed(per, stale, 0, sizes)[i] ==
               Wrap(at + if OpenedBy(per, stale, at, sizes[i]) then 0 else Off(stale))
            && (PlacesNamed(per, stale, 0, sizes)[i] == PlacesWritten(0, sizes)[i] <==>
                OpenedBy(per, stale, at, sizes[i]) || Off(stale) == 0 || Off(stale) == OFFSET_LIMIT)
    ensures Off(stale) % 65536 == 0 && (Off(stale) == 0 <==> stale[|stale| - 1] == 0)
    ensures Off(stale) == OFFSET_LIMIT <==> stale[|stale| - 1] > OFFSET_LIMIT - 65536
  {
    var last, at := stale[|stale| - 1], UnwrappedWritten(0, sizes)[i];
    OffIs(stale);
    WrittenWrapped(0, sizes, i);
    NamedWrapped(per, stale, stale, 0, sizes, i);
    WrapsAround(at, Off(stale));
    hide Narrow, FirstPos, Wrap;
    if last == 0 { RightFromHereOn(per, stale, 0, sizes); } else { OffUntilOpened(per, stale, 0, sizes, i); }
  }

  lemma OffIs(stale: seq<nat>)
    requires stale != [] && stale[|stale| - 1] < OFFSET_LIMIT
    ensures Off(stale) % 65536 == 0 && Off(stale) <= OFFSET_LIMIT
    ensures Off(stale) == 0 <==> stale[|stale| - 1] == 0
    ensures Off(stale) == OFFSET_LIMIT <==> stale[|stale| - 1] > OFFSET_LIMIT - 65536
  {
  }

  lemma WrapsAround(x: nat, off: nat)
    requires off <= OFFSET_LIMIT
    ensures Wrap(0) == 0 && (Wrap(x + off) == Wrap(x) <==> off == 0 || off == OFFSET_LIMIT)
  {
  }

  lemma {:induction false} OffUntilOpened(per: nat, stale: seq<nat>, offset: nat, sizes: seq<nat>, i: nat)
    requires 32768 < per <= 65536 && stale != [] && i < |sizes|
    requires forall i :: 0 <= i < |sizes| ==> sizes[i] <= MAX_STRING_LEN
    requires offset == 0 || FirstPos(stale) + offset < per
    ensures var last := stale[|stale| - 1];
            var at := UnwrappedWritten(offset, sizes)[i];
            UnwrappedNamed(per, stale, offset, sizes)[i] ==
            at + if FirstPos(stale) + at + sizes[i] >= per then 0 else last + FirstPos(stale)
    decreases |sizes|
  {
    var last := stale[|stale| - 1];
    var blocks := Opened(per, stale, offset, sizes[0]).0;
    assert Narrow(offset - last) == FirstPos(stale) + offset;
    hide Narrow, FirstPos;
    if FirstPos(stale) + offset + sizes[0] >= per {
      PlacesAscend(offset, sizes, i);
      RightFromHereOn(per, blocks, offset + sizes[0], sizes[1..]);
    } else if i > 0 {
      OffUntilOpened(per, stale, offset + sizes[0], sizes[1..], i - 1);
    }
  }

  lemma {:induction false} PlacesAscend(offset: nat, sizes: seq<nat>, i: nat)
    requires i < |sizes|
    ensures UnwrappedWritten(offset, sizes)[i] + sizes[i] >= offset + sizes[0]
    decreases i
  {
    if i > 0 { PlacesAscend(offset + sizes[0], sizes[1..], i - 1); }
  }

  // ----- A text that starts past the limit -----

  /** Where the text is written over the row, it has the row's own bytes. */
  predicate Agrees(at: nat, before: Bytes, start: nat, text: Bytes) {
    forall k :: 0 <= k < |before| && start <= at + k < start + |text| ==> before[k] == text[at + k - start]
  }

  /** An append in 32 bits, wherever it lands: the index grows as if offsets did not wrap. */
  lemma AppendGrows(s: Store, text: Bytes)
    requires Mirrors(s) && BlocksOk(s.per, s.starts, s.total) && |text| <= MAX_STRING_LEN
    ensures var a := Append(s, text);
            && Mirrors(a) && BlocksOk(a.per, a.starts, a.total) && a.total == s.total + |text| && s.starts <= a.starts
            && a.per == s.per && a.base == s.base && a.cells == s.cells && a.rows == s.rows
            && a.file == PWrite(s.file, s.offset, text)
            && forall b :: 0 <= b < |s.starts| ==> End(s.starts, s.total, b) <= End(a.starts, a.total, b)
  {
    hide Wrap, Mirrored, BlocksOk, Opened, PWrite;
    AppendMirrors(s, text);
    OpenedBlocks(s.per, s.starts, s.total, |text|);
  }

  /**
    Once the strings of a segment total 2^32 bytes or more, the next text is written from their total
    modulo 2^32 on, over what is there: a string still reads back exactly when it is not hit by it
    or has the same bytes where it is.
   */
  lemma PastTheLimit(s: Store, text: Bytes, i: nat)
    requires Ok(s) && s.total >= OFFSET_LIMIT && |text| <= MAX_STRING_LEN
    requires i < |s.rows| && s.base + s.rows[i].blockId !in s.cells
    ensures Placed(s, s.rows[i])
    ensures ReadRow(Append(s, text), s.rows[i]) == s.rows[i].text <==>
            Agrees(At(s, s.rows[i]), s.rows[i].text, s.offset, text)
  {
    hide Wrap, Mirrored, BelowLimit, BlocksOk, Append, CellsOk, ReadRow;
    var row, a := s.rows[i], Append(s, text);
    assert Placed(s, row) && Stored(s, row);
    AppendGrows(s, text);
    if row.len > 0 {
      hide RowsOk;
      assert End(s.starts, s.total, row.blockId) <= End(a.starts, a.total, row.blockId);
      ReadsFromFile(a, row);
      WrittenOver(s.file, s.offset, text, At(s, row), row.text);
    } else {
      ReadsNothing(a, row);
    }
  }

  lemma ReadsNothing(s: Store, row: Row)
    requires row.len == 0
    ensures ReadRow(s, row) == []
  {
  }

  lemma WrittenOver(file: Bytes, start: nat, text: Bytes, at: nat, before: Bytes)
    requires Holds(file, at, before)
    ensures PRead(PWrite(file, start, text), at, |before|) == before <==> Agrees(at, before, start, text)
  {
    var file' := PWrite(file, start, text);
    var now := PRead(file', at, |before|);
    forall k | 0 <= k < |before|
      ensures now[k] == if start <= at + k < start + |text| then text[at + k - start] else before[k]
    {
      PWriteAt(file, start, text, at + k);
    }
    hide PWrite, PRead;
    if Agrees(at, before, start, text) {
      assert now == before;
    }
  }

  // ----- Runs of puts -----

  function AfterPuts(s: Store, texts: seq<Bytes>): Store {
    if texts == [] then s else AfterPut(AfterPuts(s, texts[..|texts| - 1]), texts[|texts| - 1])
  }

  predicate Short(sizes: seq<nat>) {
    forall i :: 0 <= i < |sizes| ==> sizes[i] <= MAX_STRING_LEN
  }

  predicate LaidAt(s: Store, row: Row, at: nat, size: nat) {
    row.blockId < |s.starts| && row.len == size && At(s, row) == at && at + size <= End(s.starts, s.total, row.blockId)
  }

  /** The records lead to one string behind the other, whether or not they still are there. */
  predicate Laid(s: Store, sizes: seq<nat>) {
    && Mirrors(s) && BlocksOk(s.per, s.starts, s.total) && s.cells == map[]
    && |s.rows| == |sizes| && s.total == JoinedWrites.Total(sizes)
    && forall i :: 0 <= i < |sizes| ==> LaidAt(s, s.rows[i], JoinedWrites.Total(sizes[..i]), sizes[i])
  }

  lemma LaidNew(s: Store, text: Bytes)
    requires Mirrors(s) && BlocksOk(s.per, s.starts, s.total) && |text| <= MAX_STRING_LEN
    ensures LaidAt(Append(s, text), NewRow(s, text), s.total, |text|)
  {
    AppendMirrors(s, text);
    OpenedBlocks(s.per, s.starts, s.total, |text|);
    var (starts, pos) := Opened(s.per, s.starts, s.total, |text|);
    hide Wrap, Mirrored, Opened, PWrite, NewRow, BlocksOk;
    assert End(starts, s.total + |text|, |starts| - 1) == s.total + |text|;
  }

  lemma LaidNext(s: Store, sizes: seq<nat>, text: Bytes)
    requires Laid(s, sizes) && |text| <= MAX_STRING_LEN
    ensures Laid(AfterPut(s, text), sizes + [|text|])
  {
    hide Wrap, Mirrored, Append, NewRow, BlocksOk;
    var a, all := AfterPut(s, text), sizes + [|text|];
    AppendGrows(s, text);
    LaidNew(s, text);
    assert all[..|sizes|] == sizes;
    forall i | 0 <= i < |all| ensures LaidAt(a, a.rows[i], JoinedWrites.Total(all[..i]), all[i]) {
      assert all[..i] == sizes[..i];
      if i < |sizes| { assert LaidAt(s, s.rows[i], JoinedWrites.Total(sizes[..i]), sizes[i]); }
    }
  }

  lemma {:induction false} PutsLaid(per: nat, base: nat, capacity: nat, texts: seq<Bytes>, sizes: seq<nat>)
    requires 32768 < per <= 65536 && JoinedWrites.Sized(texts, sizes) && Short(sizes)
    ensures Laid(AfterPuts(Empty(per, base, capacity, map[]), texts), sizes)
    decreases |texts|
  {
    hide Wrap, Append, NewRow;
    if texts == [] {
      assert Empty(per, base, capacity, map[]).offset == Wrap(0);
    } else {
      var n := |texts| - 1;
      PutsLaid(per, base, capacity, texts[..n], sizes[..n]);
      LaidNext(AfterPuts(Empty(per, base, capacity, map[]), texts[..n]), sizes[..n], texts[n]);
      assert sizes[..n] + [|texts[n]|] == sizes;
    }
  }

  predicate AllRead(s: Store, texts: seq<Bytes>) {
    |s.rows| == |texts| && forall i :: 0 <= i < |texts| ==> ReadRow(s, s.rows[i]) == texts[i]
  }

  /** Whatever strings of these sizes are put into a new segment, all of them read back afterwards. */
  ghost predicate PutsReadBack(per: nat, base: nat, capacity: nat, sizes: seq<nat>) {
    forall texts :: JoinedWrites.Sized(texts, sizes) ==>
      AllRead(AfterPuts(Empty(per, base, capacity, map[]), texts), texts)
  }

  /** Every string that is not empty starts below the limit. */
  predicate StartBelowLimit(sizes: seq<nat>) {
    forall i :: 0 <= i < |sizes| && sizes[i] > 0 ==> JoinedWrites.Total(sizes[..i]) < OFFSET_LIMIT
  }

  /** Strings of given sizes, each of at most 65535 bytes, all read back if and only if none starts past the limit. */
  lemma PutsReadBackIff(per: nat, base: nat, capacity: nat, sizes: seq<nat>)
    requires 32768 < per <= 65536 && Short(sizes)
    ensures PutsReadBack(per, base, capacity, sizes) <==> StartBelowLimit(sizes)
  {
    hide AllRead, AfterPuts;
    if StartBelowLimit(sizes) {
      forall texts | JoinedWrites.Sized(texts, sizes)
        ensures AllRead(AfterPuts(Empty(per, base, capacity, map[]), texts), texts)
      {
        PutsOk(per, base, capacity, texts, sizes);
        AllReadOk(AfterPuts(Empty(per, base, capacity, map[]), texts), texts);
      }
    }
    if i :| 0 <= i < |sizes| && sizes[i] > 0 && JoinedWrites.Total(sizes[..i]) >= OFFSET_LIMIT {
      var k := Overwritten(per, base, capacity, sizes, i);
      var texts := JoinedWrites.Marked(sizes, k);
      assert !AllRead(AfterPuts(Empty(per, base, capacity, map[]), texts), texts);
    }
  }

  lemma AllReadOk(s: Store, texts: seq<Bytes>)
    requires Ok(s) && Texts(s.rows) == texts
    ensures AllRead(s, texts)
  {
    hide Ok;
    forall i | 0 <= i < |texts| ensures ReadRow(s, s.rows[i]) == texts[i] {
      ReadsBack(s, i);
    }
  }

  lemma {:induction false} PutsOk(per: nat, base: nat, capacity: nat, texts: seq<Bytes>, sizes: seq<nat>)
    requires 32768 < per <= 65536 && JoinedWrites.Sized(texts, sizes) && Short(sizes) && StartBelowLimit(sizes)
    ensures var s := AfterPuts(Empty(per, base, capacity, map[]), texts);
            Ok(s) && Texts(s.rows) == texts && s.total == JoinedWrites.Total(sizes)
    decreases |texts|
  {
    hide Ok, Wrap;
    var empty := Empty(per, base, capacity, map[]);
    if texts == [] {
      EmptyOk(per, base, capacity, map[]);
    } else {
      var n := |texts| - 1;
      assert forall i :: 0 <= i < n ==> sizes[..n][..i] == sizes[..i];
      PutsOk(per, base, capacity, texts[..n], sizes[..n]);
      PutKeeps(AfterPuts(empty, texts[..n]), texts[n]);
    }
  }

  /** Some string covers each byte below the total. */
  lemma {:induction false} Covering(sizes: seq<nat>, x: nat) returns (k: nat)
    requires x < JoinedWrites.Total(sizes)
    ensures k < |sizes| && JoinedWrites.Total(sizes[..k]) <= x < JoinedWrites.Total(sizes[..k]) + sizes[k]
    decreases |sizes|
  {
    var n := |sizes| - 1;
    if x < JoinedWrites.Total(sizes[..n]) {
      k := Covering(sizes[..n], x);
      assert sizes[..n][..k] == sizes[..k];
    } else {
      k := n;
    }
  }

  /** The string that starts past the limit overwrites an earlier one: ones by zeros. */
  lemma Overwritten(per: nat, base: nat, capacity: nat, sizes: seq<nat>, i: nat) returns (k: nat)
    requires 32768 < per <= 65536 && Short(sizes)
    requires i < |sizes| && sizes[i] > 0 && JoinedWrites.Total(sizes[..i]) >= OFFSET_LIMIT
    ensures k < i
    ensures var texts := JoinedWrites.Marked(sizes, k);
            !AllRead(AfterPuts(Empty(per, base, capacity, map[]), texts), texts)
  {
    hide Wrap, AfterPuts, Laid, ReadRow, PRead;
    var x := Wrap(JoinedWrites.Total(sizes[..i]));
    k := Covering(sizes[..i], x);
    assert sizes[..i][..k] == sizes[..k];
    var texts := JoinedWrites.Marked(sizes, k);
    var s := AfterPuts(Empty(per, base, capacity, map[]), texts);
    PutsLaid(per, base, capacity, texts, sizes);
    assert texts[..|sizes|] == texts;
    StaysZero(per, base, capacity, texts, sizes, i, |sizes|);
    ZeroShows(s, sizes, texts, k, x);
  }

  lemma ZeroShows(s: Store, sizes: seq<nat>, texts: seq<Bytes>, k: nat, x: nat)
    requires Laid(s, sizes) && JoinedWrites.Sized(texts, sizes) && k < |sizes| && x < OFFSET_LIMIT
    requires JoinedWrites.Total(sizes[..k]) <= x < JoinedWrites.Total(sizes[..k]) + sizes[k]
    requires x < |s.file| && s.file[x] == 0 && texts[k][x - JoinedWrites.Total(sizes[..k])] == 1
    ensures !AllRead(s, texts)
  {
    hide Wrap, Mirrored, BlocksOk, ReadRow, JoinedWrites.Total;
    var at, row := JoinedWrites.Total(sizes[..k]), s.rows[k];
    assert LaidAt(s, row, at, sizes[k]);
    ReadsFromFile(s, row);
    PReadByte(s.file, at, sizes[k], x);
    hide PRead;
    assert ReadRow(s, row) != texts[k];
  }

  lemma PReadByte(file: Bytes, at: nat, n: nat, x: nat)
    requires at <= x < at + n && x < |file|
    ensures x - at < |PRead(file, at, n)| && PRead(file, at, n)[x - at] == file[x]
  {
  }

  /** The byte that string `i` starts at is zero from then on. */
  lemma {:induction false} StaysZero(per: nat, base: nat, capacity: nat, texts: seq<Bytes>, sizes: seq<nat>, i: nat,
      n: nat)
    requires 32768 < per <= 65536 && JoinedWrites.Sized(texts, sizes) && Short(sizes)
    requires i < n <= |texts| && sizes[i] > 0
    requires forall j, k :: i <= j < |texts| && 0 <= k < |texts[j]| ==> texts[j][k] == 0
    ensures var x := Wrap(JoinedWrites.Total(sizes[..i]));
            var file := AfterPuts(Empty(per, base, capacity, map[]), texts[..n]).file;
            x < |file| && file[x] == 0
    decreases n
  {
    hide Wrap, Opened, PWrite;
    var x := Wrap(JoinedWrites.Total(sizes[..i]));
    var s := AfterPuts(Empty(per, base, capacity, map[]), texts[..n - 1]);
    assert texts[..n][..n - 1] == texts[..n - 1];
    if i < n - 1 {
      StaysZero(per, base, capacity, texts, sizes, i, n - 1);
    } else {
      PutsLaid(per, base, capacity, texts[..i], sizes[..i]);
    }
    PWriteAt(s.file, s.offset, texts[n - 1], x);
  }

  // ----- A concrete run -----

  lemma {:induction false} TotalOfEqual(n: nat, size: nat)
    ensures JoinedWrites.Total(seq(n, _ => size)) == n * size
  {
    if n > 0 {
      assert seq(n, _ => size)[..n - 1] == seq(n - 1, _ => size);
      TotalOfEqual(n - 1, size);
    }
  }

  /** Sizes that add up to exactly 2^32, of 65537 strings of 65535 bytes and one of one byte. */
  function FourGiB(): seq<nat> {
    seq(65537, _ => 65535) + [1]
  }

  lemma FourGiBTotal()
    ensures JoinedWrites.Total(FourGiB()) == OFFSET_LIMIT && Short(FourGiB())
    ensures |FourGiB()| > 0 && FourGiB()[0] == 65535
  {
    TotalOfEqual(65537, 65535);
    assert FourGiB()[..65537] == seq(65537, _ => 65535);
  }

  /** A byte written at offset 0 shows in the first string. */
  lemma FirstByteShows(s: Store, sizes: seq<nat>, b: Byte)
    requires Laid(s, sizes) && s.offset == 0 && |sizes| > 0 && sizes[0] > 0
    ensures var s' := AfterPut(s, [b]);
            s'.rows != [] && |ReadRow(s', s'.rows[0])| > 0 && ReadRow(s', s'.rows[0])[0] == b
  {
    hide Wrap, Mirrored, BlocksOk, ReadRow, NewRow, PRead, PWrite, Opened;
    var s' := AfterPut(s, [b]);
    LaidNext(s, sizes, [b]);
    assert (sizes + [1])[..0] == [];
    assert LaidAt(s', s'.rows[0], 0, sizes[0]);
    ReadsFromFile(s', s'.rows[0]);
    PWriteAt(s.file, 0, [b], 0);
    PReadByte(s'.file, 0, sizes[0], 0);
  }

  /** After 2^32 bytes of strings a string of one byte overwrites the first byte of the first string. */
  lemma FirstStringOverwritten(per: nat, base: nat, capacity: nat, texts: seq<Bytes>, b: Byte)
    requires 32768 < per <= 65536 && JoinedWrites.Sized(texts, FourGiB())
    ensures |texts| > 0 && |texts[0]| == 65535
    ensures var s := AfterPuts(Empty(per, base, capacity, map[]), texts + [[b]]);
            s.rows != [] && |ReadRow(s, s.rows[0])| > 0 && ReadRow(s, s.rows[0])[0] == b
  {
    hide FourGiB, Wrap, Append, NewRow, ReadRow, Mirrored, BlocksOk, LaidAt;
    FourGiBTotal();
    LimitWraps();
    assert (texts + [[b]])[..|texts|] == texts;
    PutsLaid(per, base, capacity, texts, FourGiB());
    var s := AfterPuts(Empty(per, base, capacity, map[]), texts);
    OffsetIs(s, FourGiB());
    FirstByteShows(s, FourGiB(), b);
  }

  lemma OffsetIs(s: Store, sizes: seq<nat>)
    requires Laid(s, sizes)
    ensures s.offset == Wrap(JoinedWrites.Total(sizes))
  {
  }

  lemma LimitWraps()
    ensures Wrap(OFFSET_LIMIT) == 0
  {
  }
}
