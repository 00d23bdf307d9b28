/**
  A store of fixed-length records in segments (storage_manager.cc, segment.cc).  Appends go to the
  last segment and reach its file later; the store is to behave as one sequence of records.
 */
module StorageManagers {
  import opened FileBytes

  const PARAM_ERR := 100
  const MISSING := -1

  // ----- Record numbers -----

  /** Records in `n` full segments. */
  function Times(n: nat, size: nat): nat {
    n * size
  }

  /** The two halves of a record number: `id / segment_size` and `id % segment_size`. */
  function SegOf(id: nat, size: nat): nat
    requires size > 0
  {
    id / size
  }

  function OffOf(id: nat, size: nat): nat
    requires size > 0
  {
    id % size
  }

  lemma TimesNext(n: nat, size: nat)
    ensures Times(0, size) == 0 && Times(n + 1, size) == Times(n, size) + size
  {
  }

  lemma TimesMonotone(m: nat, n: nat, size: nat)
    requires m <= n
    ensures Times(m, size) <= Times(n, size)
  {
  }

  lemma Halves(id: nat, size: nat)
    requires size > 0
    ensures id == Times(SegOf(id, size), size) + OffOf(id, size) && OffOf(id, size) < size
  {
  }

  /** A number below `n` full segments and `rest` records more lies in one of them. */
  lemma HalvesBelow(id: nat, size: nat, n: nat, rest: nat)
    requires size > 0 && id <= Times(n, size) + rest && rest < size
    ensures SegOf(id, size) <= n
    ensures SegOf(id, size) == n ==> OffOf(id, size) <= rest && (id < Times(n, size) + rest ==> OffOf(id, size) < rest)
  {
    Halves(id, size);
    var q := SegOf(id, size);
    TimesNext(n, size);
    if q > n {
      TimesMonotone(n + 1, q, size);
      assert false;
    }
  }

  // ----- Segments as parts of one sequence -----

  function Flat<T>(parts: seq<seq<T>>): seq<T> {
    if parts == [] then [] else Flat(parts[..|parts| - 1]) + parts[|parts| - 1]
  }

  /** Every part but the last is full, and the last is not. */
  predicate Shaped<T>(parts: seq<seq<T>>, size: nat) {
    && size > 0 && |parts| > 0
    && (forall i :: 0 <= i < |parts| - 1 ==> |parts[i]| == size)
    && |parts[|parts| - 1]| < size
  }

  predicate AllFull<T>(parts: seq<seq<T>>, size: nat) {
    forall i :: 0 <= i < |parts| ==> |parts[i]| == size
  }

  lemma {:induction false} FlatOfFull<T>(parts: seq<seq<T>>, size: nat)
    requires AllFull(parts, size)
    ensures |Flat(parts)| == Times(|parts|, size)
  {
    hide Times;
    TimesNext(if parts == [] then 0 else |parts| - 1, size);
    if parts != [] {
      var n := |parts| - 1;
      FlatOfFull(parts[..n], size);
    }
  }

  lemma FlatSize<T>(parts: seq<seq<T>>, size: nat)
    requires Shaped(parts, size)
    ensures |Flat(parts)| == Times(|parts| - 1, size) + |parts[|parts| - 1]|
  {
    FlatOfFull(parts[..|parts| - 1], size);
  }

  /** Record `Times(q, size) + r` is record `r` of part `q`. */
  lemma {:induction false} FlatAt<T>(parts: seq<seq<T>>, size: nat, q: nat, r: nat)
    requires q < |parts| && r < |parts[q]| && AllFull(parts[..|parts| - 1], size)
    ensures Times(q, size) + r < |Flat(parts)| && Flat(parts)[Times(q, size) + r] == parts[q][r]
    decreases |parts|
  {
    var n := |parts| - 1;
    FlatOfFull(parts[..n], size);
    hide Times;
    if q < n {
      assert parts[..n][q] == parts[q];
      assert AllFull(parts[..n][..n - 1], size);
      FlatAt(parts[..n], size, q, r);
    }
  }

  /** Where a record number leads. */
  lemma Locate<T>(parts: seq<seq<T>>, size: nat, id: nat)
    requires Shaped(parts, size) && id < |Flat(parts)|
    ensures SegOf(id, size) < |parts| && OffOf(id, size) < |parts[SegOf(id, size)]|
    ensures Flat(parts)[id] == parts[SegOf(id, size)][OffOf(id, size)]
  {
    FlatSize(parts, size);
    HalvesBelow(id, size, |parts| - 1, |parts[|parts| - 1]|);
    Halves(id, size);
    hide SegOf, OffOf, Times;
    FlatAt(parts, size, SegOf(id, size), OffOf(id, size));
  }

  lemma {:induction false} FlatUpdate<T>(parts: seq<seq<T>>, size: nat, q: nat, r: nat, x: T)
    requires q < |parts| && r < |parts[q]| && AllFull(parts[..|parts| - 1], size)
    ensures Times(q, size) + r < |Flat(parts)|
    ensures Flat(parts[q := parts[q][r := x]]) == Flat(parts)[Times(q, size) + r := x]
    decreases |parts|
  {
    FlatAt(parts, size, q, r);
    var n, parts' := |parts| - 1, parts[q := parts[q][r := x]];
    FlatOfFull(parts[..n], size);
    if q < n {
      assert parts[..n][q] == parts[q] && AllFull(parts[..n][..n - 1], size);
      FlatUpdate(parts[..n], size, q, r, x);
      assert parts'[..n] == parts[..n][q := parts[q][r := x]];
      FlatAt(parts[..n], size, q, r);
    } else {
      assert parts'[..n] == parts[..n];
    }
  }

  /** A slice within one part. */
  lemma FlatSlice<T>(parts: seq<seq<T>>, size: nat, id: nat, len: nat)
    requires Shaped(parts, size) && id < |Flat(parts)| && len <= size - OffOf(id, size) && id + len <= |Flat(parts)|
    ensures SegOf(id, size) < |parts| && OffOf(id, size) + len <= |parts[SegOf(id, size)]|
    ensures parts[SegOf(id, size)][OffOf(id, size)..OffOf(id, size) + len] == Flat(parts)[id..id + len]
  {
    Locate(parts, size, id);
    Halves(id, size);
    FlatSize(parts, size);
    hide SegOf, OffOf, Times;
    var q, r := SegOf(id, size), OffOf(id, size);
    assert r + len <= |parts[q]|;
    var a, b := parts[q][r..r + len], Flat(parts)[id..id + len];
    forall k | 0 <= k < len ensures a[k] == b[k] {
      FlatAt(parts, size, q, r + k);
    }
  }

  /** Dropping parts and cutting the last one keeps a prefix. */
  lemma FlatPrefix<T>(parts: seq<seq<T>>, size: nat, n: nat)
    requires Shaped(parts, size) && n <= |Flat(parts)|
    ensures SegOf(n, size) < |parts| && OffOf(n, size) <= |parts[SegOf(n, size)]|
    ensures Flat(parts[..SegOf(n, size)] + [parts[SegOf(n, size)][..OffOf(n, size)]]) == Flat(parts)[..n]
  {
    FlatSize(parts, size);
    HalvesBelow(n, size, |parts| - 1, |parts[|parts| - 1]|);
    Halves(n, size);
    var q, r := SegOf(n, size), OffOf(n, size);
    hide SegOf, OffOf, Times, Flat;
    assert r <= |parts[q]|;
    FlatOfFull(parts[..q], size);
    PrefixOf(parts, q, r);
  }

  lemma PrefixOf<T>(parts: seq<seq<T>>, q: nat, r: nat)
    requires q < |parts| && r <= |parts[q]|
    ensures |Flat(parts[..q])| + r <= |Flat(parts)|
    ensures Flat(parts[..q] + [parts[q][..r]]) == Flat(parts)[..|Flat(parts[..q])| + r]
  {
    hide Flat;
    FlatTake(parts, q + 1);
    assert parts[..q + 1] == parts[..q] + [parts[q]];
    FlatSnoc(parts[..q], parts[q]);
    FlatSnoc(parts[..q], parts[q][..r]);
    PrefixCut(Flat(parts), Flat(parts[..q]), parts[q], r);
  }

  lemma PrefixCut<T>(all: seq<T>, before: seq<T>, part: seq<T>, r: nat)
    requires before + part <= all && r <= |part|
    ensures before + part[..r] == all[..|before| + r]
  {
    assert before + part[..r] == (before + part)[..|before| + r];
  }

  lemma {:induction false} FlatTake<T>(parts: seq<seq<T>>, q: nat)
    requires q <= |parts|
    ensures Flat(parts[..q]) <= Flat(parts)
    decreases |parts|
  {
    if q < |parts| {
      FlatTake(parts[..|parts| - 1], q);
      assert parts[..|parts| - 1][..q] == parts[..q];
    } else {
      assert parts[..q] == parts;
    }
  }

  // ----- One segment -----

  type Record = Bytes

  class Segment {
    const maxSize: nat
    var file: seq<Record>     // the slots of the file
    var curSize: nat         // slots known to be on disk
    var queue: seq<Record>    // handed to the background writer, for the slots from `cur_size` on
    var bufferedSize: nat

    predicate Valid()
      reads this
    {
      curSize + |queue| == bufferedSize <= maxSize == |file|
    }

    /** What the segment stands for, whether on disk already or not. */
    function Records(): (r: seq<Record>)
      requires Valid()
      reads this
      ensures |r| == bufferedSize
    {
      file[..curSize] + queue
    }

    constructor (maxSize: nat, blank: Record)
      ensures Valid() && Records() == [] && queue == [] && this.maxSize == maxSize
    {
      this.maxSize := maxSize;
      file, curSize, queue, bufferedSize := seq(maxSize, _ => blank), 0, [], 0;
    }

    method Add(value: Record)
      requires Valid() && bufferedSize < maxSize
      modifies this
      ensures Valid() && Records() == old(Records()) + [value] && curSize == old(curSize)
    {
      queue := queue + [value];
      bufferedSize := bufferedSize + 1;
    }

    /** The background writer: some of the queue reaches the file and is counted. */
    method Persist(n: nat)
      requires Valid() && n <= |queue|
      modifies this
      ensures Valid() && Records() == old(Records()) && curSize == old(curSize) + n
    {
      file := file[..curSize] + queue[..n] + file[curSize + n..];
      curSize := curSize + n;
      queue := queue[n..];
    }

    /** Waits until the slots are on disk, then reads them. */
    method GetValues(id: nat, n: nat) returns (values: seq<Record>)
      requires Valid() && id + n <= bufferedSize
      modifies this
      ensures Valid() && Records() == old(Records()) && curSize >= old(curSize) && curSize >= id + n
      ensures values == Records()[id..id + n]
    {
      while id + n > curSize
        invariant Valid() && Records() == old(Records()) && curSize >= old(curSize) &&
                  bufferedSize == old(bufferedSize)
        decreases bufferedSize - curSize
      {
        Persist(1);
      }
      values := file[id..id + n];
      assert forall k :: 0 <= k < n ==> values[k] == Records()[id..id + n][k];
    }

    predicate HasRoom()
      reads this
    {
      bufferedSize < maxSize
    }

    method IsFull() returns (full: bool)
      ensures full <==> bufferedSize == maxSize
    {
      full := bufferedSize == maxSize;
    }

    /** Writes one slot in place: lost when the slot is still in the writer's queue. */
    method Update(id: nat, value: Record)
      requires Valid() && id < bufferedSize
      modifies this
      ensures Valid() && curSize == old(curSize) && queue == old(queue)
      ensures Records() == if id < curSize then old(Records())[id := value] else old(Records())
    {
      file := file[id := value];
    }

    /**
      Cuts the segment to its first `size` slots; a larger size changes nothing.  It is a cut
      exactly when nothing is queued or nothing is cut off: otherwise the writer goes on to count
      slots past the end.
     */
    method SetBaseSize(size: nat)
      requires Valid()
      modifies this
      ensures Valid() <==> size >= |old(Records())| || old(queue) == []
      ensures Valid() ==> Records() == if size <= |old(Records())| then old(Records())[..size] else old(Records())
      ensures queue == old(queue) && (!Valid() ==> curSize + |queue| > bufferedSize == size)
    {
      if curSize > size {
        curSize := size;
      }
      if bufferedSize > size {
        bufferedSize := size;
      }
    }
  }

  /** An update is lost when it overtakes the record it changes on the way to the file, and only then. */
  method UpdateOvertakes() returns (early: seq<Record>, late: seq<Record>)
    ensures early == [[1]] && late == [[2]]
  {
    var segment := new Segment(4, [0]);
    segment.Add([1]);
    segment.Update(0, [2]);
    early := segment.GetValues(0, 1);
    segment.Update(0, [2]);
    late := segment.GetValues(0, 1);
  }

  ghost function PartsOf(segments: seq<Segment>): (r: seq<seq<Record>>)
    requires forall i :: 0 <= i < |segments| ==> segments[i].Valid()
    reads segments
    ensures |r| == |segments| && forall i :: 0 <= i < |r| ==> r[i] == segments[i].Records()
  {
    if segments == [] then [] else PartsOf(segments[..|segments| - 1]) + [segments[|segments| - 1].Records()]
  }

  // ----- The manager -----

  class StorageManager {
    const segmentSize: nat
    const fixedValueBytes: nat
    var segments: seq<Segment>
    var totalSize: nat
    ghost var stray: seq<Record>   // still queued for segments that are gone

    ghost predicate Separate()
      reads this`segments, segments
    {
      && segmentSize > 0
      && (forall i :: 0 <= i < |segments| ==> segments[i].Valid() && segments[i].maxSize == segmentSize)
      && (forall i, j :: 0 <= i < j < |segments| ==> segments[i] != segments[j])
    }

    ghost function Parts(): (r: seq<seq<Record>>)
      requires Separate()
      reads this`segments, segments
      ensures |r| == |segments| && forall i :: 0 <= i < |r| ==> r[i] == segments[i].Records()
    {
      PartsOf(segments)
    }

    /** The one sequence of records the store stands for. */
    ghost function Records(): seq<Record>
      requires Separate()
      reads this`segments, segments
    {
      Flat(Parts())
    }

    ghost predicate Valid()
      reads this, segments
    {
      Separate() && Shaped(Parts(), segmentSize) && totalSize == |Records()| && stray == []
    }

    constructor (segmentSize: nat, fixedValueBytes: nat)
      requires segmentSize > 0
      ensures Valid() && Records() == [] && fresh(segments)
      ensures this.segmentSize == segmentSize && this.fixedValueBytes == fixedValueBytes
    {
      this.segmentSize, this.fixedValueBytes := segmentSize, fixedValueBytes;
      var segment := new Segment(segmentSize, Zeros(fixedValueBytes));
      segments, totalSize, stray := [segment], 0, [];
      new;
      NoRecords<Record>();
      hide Flat;
      assert Parts() == [[]];
    }

    method Extend()
      modifies this`segments
      ensures old(Separate()) ==> Separate() && Parts() == old(Parts()) + [[]]
      ensures |segments| == |old(segments)| + 1 && segments[..|old(segments)|] == old(segments) &&
              fresh(segments[|old(segments)|])
      ensures segments[|old(segments)|].queue == []
    {
      var segment := new Segment(segmentSize, Zeros(fixedValueBytes));
      segments := segments + [segment];
    }

    method AddLast(value: Record)
      requires Separate() && |segments| > 0 && |Parts()[|segments| - 1]| < segmentSize
      modifies segments[|segments| - 1]
      ensures Separate() && Parts() == old(Appended(Parts(), value))
    {
      ghost var parts := Parts();
      var last := |segments| - 1;
      segments[last].Add(value);
      forall i | 0 <= i < |segments| ensures segments[i].Valid() && segments[i].Records() == Appended(parts, value)[i] {
        if i != last { assert segments[i] != segments[last]; }
      }
    }

    /** Opens a new segment when the last one is full. */
    method ExtendIfFull()
      requires |segments| > 0
      modifies this`segments
      ensures old(Separate()) ==> Separate() && Parts() == old(Closed(Parts(), segmentSize))
      ensures old(segments[|segments| - 1].HasRoom()) ==> segments == old(segments)
      ensures forall s :: s in segments ==> s in old(segments) || fresh(s)
    {
      var full := segments[|segments| - 1].IsFull();
      if full {
        Extend();
      }
    }

    /** Appends one record; a wrong length is refused. */
    method Add(value: Record) returns (ret: int)
      requires Valid()
      modifies this, segments
      ensures Valid() == true && ret == if |value| == fixedValueBytes then 0 else PARAM_ERR
      ensures Records() == if ret == 0 then old(Records()) + [value] else old(Records())
      ensures forall s :: s in segments ==> s in old(segments) || fresh(s)
    {
      if |value| != fixedValueBytes {
        return PARAM_ERR;
      }
      AddRecord(value);
      return 0;
    }

    method AddRecord(value: Record)
      requires Valid()
      modifies this, segments
      ensures Valid() == true && Records() == old(Records()) + [value]
      ensures forall s :: s in segments ==> s in old(segments) || fresh(s)
    {
      ghost var parts := Parts();
      AppendCloses(parts, segmentSize, value);
      hide Flat, PartsOf, Appended, Closed, Separate;
      AddClosing(value);
      hide Shaped;
      totalSize := totalSize + 1;
    }

    method AddClosing(value: Record)
      requires Separate() == true && |segments| > 0 && |Parts()[|segments| - 1]| < segmentSize
      modifies this`segments, segments
      ensures Separate() == true && Parts() == old(Closed(Appended(Parts(), value), segmentSize))
      ensures forall s :: s in segments ==> s in old(segments) || fresh(s)
    {
      hide PartsOf, Appended, Closed, Separate;
      AddLast(value);
      ExtendIfFull();
    }

    /** Reads one segment; nothing changes but what the background writer has done by then. */
    method ReadSegment(q: nat, r: nat, n: nat) returns (values: seq<Record>)
      requires Valid() && q < |segments| && r + n <= |Parts()[q]|
      modifies segments
      ensures Valid() && Parts() == old(Parts())
      ensures values == Parts()[q][r..r + n]
    {
      ghost var parts := Parts();
      values := segments[q].GetValues(r, n);
      forall i | 0 <= i < |segments| ensures segments[i].Valid() && segments[i].Records() == parts[i] {
        if i != q { assert segments[i] != segments[q]; }
      }
      assert Parts() == parts;
    }

    /** The value last added or updated at `id`. */
    method Get(id: int) returns (ret: int, value: Record)
      requires Valid()
      modifies segments
      ensures Valid() && Records() == old(Records())
      ensures ret == if 0 <= id < |Records()| then 0 else PARAM_ERR
      ensures ret == 0 ==> value == Records()[id]
    {
      if id >= totalSize || id < 0 {
        return PARAM_ERR, [];
      }
      Locate(Parts(), segmentSize, id);
      hide Flat, Shaped, PartsOf, SegOf, OffOf;
      var values := ReadSegment(SegOf(id, segmentSize), OffOf(id, segmentSize), 1);
      return 0, values[0];
    }

    /** Records `start_id` to `start_id + n`, one slice for each segment they lie in. */
    method GetHeaders(startId: nat, n: nat) returns (ret: int, values: seq<seq<Record>>, lens: seq<nat>)
      requires Valid()
      modifies segments
      ensures Valid() && Records() == old(Records())
      ensures ret == if startId + n <= |Records()| then 0 else PARAM_ERR
      ensures ret == 0 ==> Flat(values) == Records()[startId..startId + n]
      ensures |lens| == |values| && forall i :: 0 <= i < |lens| ==> lens[i] == |values[i]|
    {
      values, lens := [], [];
      if startId + n > totalSize {
        return PARAM_ERR, values, lens;
      }
      values, lens := Slices(startId, n);
      return 0, values, lens;
    }

    method Slices(startId: nat, n: nat) returns (values: seq<seq<Record>>, lens: seq<nat>)
      requires Valid() == true && startId + n <= |Records()|
      modifies segments
      ensures Valid() == true && Parts() == old(Parts())
      ensures Covers(values, Records(), startId, startId + n)
      ensures |lens| == |values| && forall i :: 0 <= i < |lens| ==> lens[i] == |values[i]|
    {
      ghost var parts := Parts();
      values, lens := [], [];
      assert Covers(values, Flat(parts), startId, startId);
      hide Flat, PartsOf, Shaped, Covers;
      var at: nat, left: nat := startId, n;
      while left != 0
        invariant Valid() == true && Parts() == parts && startId <= at && at + left == startId + n <= |Flat(parts)|
        invariant Covers(values, Flat(parts), startId, at)
        invariant |lens| == |values| && forall i :: 0 <= i < |lens| ==> lens[i] == |values[i]|
        decreases left
      {
        var len, value := ReadSlice(at, left);
        CoversNext(values, Flat(parts), startId, at, at + len, value);
        lens, values := lens + [len], values + [value];
        at, left := at + len, left - len;
      }
    }

    method ReadSlice(at: nat, left: nat) returns (len: nat, value: seq<Record>)
      requires Valid() == true && left > 0 && at + left <= |Records()|
      modifies segments
      ensures Valid() == true && Parts() == old(Parts()) && 0 < len <= left
      ensures |value| == len && value == Records()[at..at + len]
    {
      Halves(at, segmentSize);
      var id := OffOf(at, segmentSize);
      len := segmentSize - id;
      if len > left {
        len := left;
      }
      FlatSlice(Parts(), segmentSize, at, len);
      value := ReadSegment(SegOf(at, segmentSize), id, len);
    }

    /** Whether the record at `id` has reached its file. */
    predicate Persisted(id: nat)
      requires segmentSize > 0 && SegOf(id, segmentSize) < |segments|
      reads this, segments
    {
      OffOf(id, segmentSize) < segments[SegOf(id, segmentSize)].curSize
    }

    method UpdateSegment(q: nat, r: nat, value: Record)
      requires Separate() && q < |segments| && r < |Parts()[q]|
      modifies segments[q]
      ensures Separate()
      ensures Parts() == if r < old(segments[q].curSize)
              then old(Parts())[q := old(Parts())[q][r := value]] else old(Parts())
    {
      ghost var parts := Parts();
      ghost var landed := r < segments[q].curSize;
      segments[q].Update(r, value);
      forall i | 0 <= i < |segments|
        ensures segments[i].Valid() &&
                segments[i].Records() == (if i == q && landed then parts[q][r := value] else parts[i])
      {
        if i != q { assert segments[i] != segments[q]; }
      }
    }

    /** Overwrites a record in place: exactly a persisted one takes the new value. */
    method Update(id: int, value: Record) returns (ret: int)
      requires Valid()
      modifies segments
      ensures Valid() && ret == if 0 <= id < |old(Records())| && |value| == fixedValueBytes then 0 else PARAM_ERR
      ensures ret != 0 ==> Records() == old(Records())
      ensures ret == 0 ==> SegOf(id, segmentSize) < |old(segments)|
      ensures ret == 0 ==> Records() == if old(Persisted(id)) then old(Records())[id := value] else old(Records())
    {
      if id >= totalSize || id < 0 || |value| != fixedValueBytes {
        return PARAM_ERR;
      }
      UpdatePart(Parts(), segmentSize, id, value);
      UpdateSegment(SegOf(id, segmentSize), OffOf(id, segmentSize), value);
      return 0;
    }
  
    /** The background writer at work on one segment: the records stay. */
    method Persist(q: nat, n: nat)
      requires Valid() && q < |segments| && n <= |segments[q].queue|
      modifies segments[q]
      ensures Valid() && Records() == old(Records())
      ensures segments[q].curSize == old(segments[q].curSize) + n
    {
      ghost var parts := Parts();
      segments[q].Persist(n);
      forall i | 0 <= i < |segments| ensures segments[i].Valid() && segments[i].Records() == parts[i] {
        if i != q { assert segments[i] != segments[q]; }
      }
      assert Parts() == parts;
    }

    /** Nothing is queued for segments from `seg_num` on. */
    ghost predicate NoneQueued(segNum: nat)
      reads this`segments, segments
    {
      forall i :: segNum <= i < |segments| ==> segments[i].queue == []
    }

    /** Cutting the last segment kept to `offset` slots cuts nothing off that is queued. */
    ghost predicate LastClean(segNum: nat, offset: nat)
      requires segNum <= |segments| && (offset > 0 ==> segNum > 0)
      reads this`segments, segments
    {
      offset > 0 ==> segments[segNum - 1].queue == [] || segments[segNum - 1].bufferedSize <= offset
    }

    /** No queued write is for a slot that `Truncate(size)` drops or in the segment it cuts. */
    ghost predicate Clean(size: nat)
      requires segmentSize > 0 && SegsFor(size, segmentSize) <= |segments|
      reads this`segments, segments
    {
      NoneQueued(SegsFor(size, segmentSize)) && LastClean(SegsFor(size, segmentSize), OffOf(size, segmentSize))
    }

    /** Deletes the segments from `seg_num` on; the writer's queue is not told. */
    method DropFrom(segNum: nat)
      requires segNum <= |segments| && stray == []
      modifies this`segments, this`stray
      ensures segments == old(segments)[..segNum]
      ensures stray == [] <==> old(NoneQueued(segNum))
    {
      var i := segNum;
      while i < |segments|
        invariant segments == old(segments) && segNum <= i <= |segments|
        invariant (stray == [] <==> forall k :: segNum <= k < i ==> segments[k].queue == [])
      {
        stray := stray + segments[i].queue;
        i := i + 1;
      }
      segments := segments[..segNum];
    }

    /** Keeps the first `seg_num` segments and cuts the last of them to `offset` slots, if that is not 0. */
    method CutSegments(segNum: nat, offset: nat)
      requires Separate() && stray == [] && segNum <= |segments| && offset < segmentSize &&
               (offset > 0 ==> segNum > 0)
      modifies this`segments, this`stray, segments
      ensures segments == old(segments)[..segNum] && (stray == [] <==> old(NoneQueued(segNum)))
      ensures old(LastClean(segNum, offset)) ==> Separate() && Parts() == CutParts(old(Parts()), segNum, offset)
      ensures !old(LastClean(segNum, offset)) ==> !Separate() && segNum > 0 && segments[segNum - 1].HasRoom()
    {
      ghost var parts := Parts();
      DropFrom(segNum);
      assert Separate() && Parts() == parts[..segNum];
      if offset > 0 {
        hide Separate, NoneQueued;
        CutLast(offset);
      }
    }

    method CutLast(offset: nat)
      requires Separate() && |segments| > 0 && offset < segmentSize
      modifies segments[|segments| - 1]
      ensures old(LastClean(|segments|, offset)) && offset > 0 ==>
              Separate() && Parts() == CutParts(old(Parts()), |segments|, offset)
      ensures offset > 0 && !old(LastClean(|segments|, offset)) ==>
                !Separate() && segments[|segments| - 1].HasRoom()
    {
      ghost var parts := Parts();
      var last := |segments| - 1;
      segments[last].SetBaseSize(offset);
      if segments[last].Valid() && offset > 0 {
        forall i | 0 <= i < |segments|
          ensures segments[i].Valid() && segments[i].Records() == CutParts(parts, |segments|, offset)[i]
        {
          if i != last { assert segments[i] != segments[last]; }
        }
      }
    }

    /**
      Cuts the store to `size` records.  It meets its purpose, and keeps the invariant, exactly
      when `size` is at most the number of records and nothing is queued for what it cuts; a
      larger size that still fits the segments only makes `size_` wrong.
     */
    method Truncate(size: nat) returns (ret: int)
      requires Valid()
      modifies this, segments
      ensures ret == if SegsFor(size, segmentSize) > |old(segments)| then PARAM_ERR else 0
      ensures ret != 0 ==> Valid() == true && Records() == old(Records()) && segments == old(segments)
      ensures ret == 0 ==> totalSize == size && (Valid() <==> size <= |old(Records())| && old(Clean(size)))
      ensures ret == 0 && old(Clean(size)) ==> Separate() == true
      ensures ret == 0 && old(Clean(size)) ==>
                Records() == if size <= |old(Records())| then old(Records())[..size] else old(Records())
    {
      var segNum := SegOf(size, segmentSize);
      var offset := OffOf(size, segmentSize);
      if offset > 0 {
        segNum := segNum + 1;
      }
      if segNum > |segments| {
        return PARAM_ERR;
      }
      CutKeeps(Parts(), segmentSize, size);
      Halves(size, segmentSize);
      hide Flat, PartsOf, Shaped, AfterCut;
      TruncateTo(size, segNum, offset);
      return 0;
    }

    method TruncateTo(size: nat, segNum: nat, offset: nat)
      requires Separate() == true && stray == [] && offset < segmentSize
      requires segNum == SegsFor(size, segmentSize) <= |segments| && offset == OffOf(size, segmentSize)
      modifies this, segments
      ensures totalSize == size && (stray == [] && Separate() <==> old(Clean(size)))
      ensures stray == [] && Separate() ==> Parts() == old(AfterCut(Parts(), segmentSize, size))
    {
      hide SegOf, OffOf, PartsOf, Separate, NoneQueued, LastClean, Segment.HasRoom, Closed, CutParts;
      CutSegments(segNum, offset);
      totalSize := size;
      Reopen(segNum);
    }

    /** The end of `Truncate`: there is a last segment, and it has room. */
    method Reopen(segNum: nat)
      requires segNum == |segments|
      modifies this`segments
      ensures old(Separate()) ==>
              Separate() && Parts() == old(Closed(if Parts() == [] then [[]] else Parts(), segmentSize))
      ensures segNum > 0 && old(segments[segNum - 1].HasRoom()) ==> segments == old(segments)
    {
      hide Separate;
      if segNum == 0 {
        Extend();
      }
      ExtendIfFull();
    }
  }

  /** Segments needed for `n` records. */
  function SegsFor(n: nat, size: nat): nat
    requires size > 0
  {
    if OffOf(n, size) > 0 then SegOf(n, size) + 1 else SegOf(n, size)
  }

  function CutParts<T>(parts: seq<seq<T>>, segNum: nat, offset: nat): (r: seq<seq<T>>)
    requires segNum <= |parts| && (offset > 0 ==> segNum > 0)
    ensures |r| == segNum
  {
    if offset == 0 then parts[..segNum]
    else
      var last := parts[segNum - 1];
      parts[..segNum - 1] + [if offset <= |last| then last[..offset] else last]
  }

  /** What the cut, and then `Extend`, leave. */
  function AfterCut<T>(parts: seq<seq<T>>, size: nat, n: nat): seq<seq<T>>
    requires size > 0 && SegsFor(n, size) <= |parts|
  {
    var cut := CutParts(parts, SegsFor(n, size), OffOf(n, size));
    Closed(if cut == [] then [[]] else cut, size)
  }

  lemma CutKeeps<T>(parts: seq<seq<T>>, size: nat, n: nat)
    requires Shaped(parts, size) && SegsFor(n, size) <= |parts|
    ensures Shaped(AfterCut(parts, size, n), size)
    ensures Flat(AfterCut(parts, size, n)) == if n <= |Flat(parts)| then Flat(parts)[..n] else Flat(parts)
  {
    if n <= |Flat(parts)| {
      CutWithin(parts, size, n);
    } else {
      CutBeyond(parts, size, n);
    }
  }

  lemma CutWithin<T>(parts: seq<seq<T>>, size: nat, n: nat)
    requires Shaped(parts, size) && SegsFor(n, size) <= |parts| && n <= |Flat(parts)|
    ensures Shaped(AfterCut(parts, size, n), size) && Flat(AfterCut(parts, size, n)) == Flat(parts)[..n]
  {
    FlatPrefix(parts, size, n);
    Halves(n, size);
    hide SegOf, OffOf, Times, Flat;
    var q, r := SegOf(n, size), OffOf(n, size);
    if r == 0 {
      assert parts[q][..0] == [];
    }
    assert AfterCut(parts, size, n) == parts[..q] + [parts[q][..r]];
  }

  lemma CutBeyond<T>(parts: seq<seq<T>>, size: nat, n: nat)
    requires Shaped(parts, size) && SegsFor(n, size) <= |parts| && n > |Flat(parts)|
    ensures AfterCut(parts, size, n) == parts
  {
    FlatSize(parts, size);
    Halves(n, size);
    var q, r := SegOf(n, size), OffOf(n, size);
    if q < |parts| - 1 {
      TimesMonotone(q + 1, |parts| - 1, size);
      TimesNext(q, size);
      assert false;
    }
    hide SegOf, OffOf, Times, Flat;
    assert SegsFor(n, size) == |parts|;
  }

  lemma UpdatePart<T>(parts: seq<seq<T>>, size: nat, id: nat, x: T)
    requires Shaped(parts, size) && id < |Flat(parts)|
    ensures var q, r := SegOf(id, size), OffOf(id, size);
            q < |parts| && r < |parts[q]| &&
            Shaped(parts[q := parts[q][r := x]], size) && Flat(parts[q := parts[q][r := x]]) == Flat(parts)[id := x]
  {
    Locate(parts, size, id);
    Halves(id, size);
    hide SegOf, OffOf, Times;
    FlatUpdate(parts, size, SegOf(id, size), OffOf(id, size), x);
  }

  /** The slices laid end to end are `all[a..b]`. */
  predicate Covers<T(==)>(values: seq<seq<T>>, all: seq<T>, a: nat, b: nat) {
    a <= b <= |all| && Flat(values) == all[a..b]
  }

  lemma CoversNext<T>(values: seq<seq<T>>, all: seq<T>, a: nat, b: nat, c: nat, value: seq<T>)
    requires Covers(values, all, a, b) && b <= c <= |all| && value == all[b..c]
    ensures Covers(values + [value], all, a, c)
  {
    FlatSnoc(values, value);
    assert all[a..b] + all[b..c] == all[a..c];
  }

  lemma FlatSnoc<T>(parts: seq<seq<T>>, part: seq<T>)
    ensures Flat(parts + [part]) == Flat(parts) + part
  {
    assert (parts + [part])[..|parts|] == parts;
  }

  function Appended<T>(parts: seq<seq<T>>, x: T): (r: seq<seq<T>>)
    requires |parts| > 0
    ensures |r| == |parts|
  {
    parts[|parts| - 1 := parts[|parts| - 1] + [x]]
  }

  function Closed<T>(parts: seq<seq<T>>, size: nat): seq<seq<T>>
    requires |parts| > 0
  {
    if |parts[|parts| - 1]| == size then parts + [[]] else parts
  }

  lemma AppendCloses<T>(parts: seq<seq<T>>, size: nat, x: T)
    requires Shaped(parts, size)
    ensures Shaped(Closed(Appended(parts, x), size), size)
    ensures Flat(Closed(Appended(parts, x), size)) == Flat(parts) + [x]
  {
    FlatAppend(parts, x);
    FlatEmpty(Appended(parts, x));
  }

  lemma FlatAppend<T>(parts: seq<seq<T>>, x: T)
    requires |parts| > 0
    ensures Flat(Appended(parts, x)) == Flat(parts) + [x]
  {
    var n := |parts| - 1;
    assert parts[n := parts[n] + [x]][..n] == parts[..n];
  }

  lemma NoRecords<T>()
    ensures Flat<T>([[]]) == []
  {
  }

  lemma FlatEmpty<T>(parts: seq<seq<T>>)
    ensures Flat(parts + [[]]) == Flat(parts)
  {
    assert (parts + [[]])[..|parts|] == parts;
  }
}
