/**
  The background writer (async_writer.cc): a queue of writes drained in batches, runs of writes
  to one file being joined into one.  The reference meaning is `SyncAll`: every write on its own.
 */
module AsyncWriter {
  import opened FileBytes

  const BULK_SIZE := 1000
  const BULK_BYTES := 1048576

  /** One open file: its bytes, the count in its header and the count in memory. */
  datatype File = File(bytes: Bytes, persisted: nat, curSize: nat)

  datatype WriterStruct = WriterStruct(fd: int, start: nat, data: Bytes)

  type Disk = map<int, File>

  // ----- The reference: one write at a time -----

  /** Whole items, and never more than the bulk buffer takes. */
  predicate Whole(item: nat, w: WriterStruct) {
    item > 0 && |w.data| % item == 0 && |w.data| < BULK_BYTES
  }

  predicate AllWhole(item: nat, ws: seq<WriterStruct>) {
    forall i :: 0 <= i < |ws| ==> Whole(item, ws[i])
  }

  /** `UpdateSize`: the header first, then the counter that readers look at. */
  function Counted(f: File, num: nat): File {
    f.(persisted := f.curSize + num, curSize := f.curSize + num)
  }

  function Written(f: File, w: WriterStruct): File {
    f.(bytes := PWrite(f.bytes, w.start, w.data))
  }

  /** `SyncWrite` on the file it names. */
  function SyncFile(item: nat, f: File, w: WriterStruct): File
    requires item > 0
  {
    Counted(Written(f, w), |w.data| / item)
  }

  function SyncWrite(item: nat, disk: Disk, w: WriterStruct): Disk
    requires item > 0
  {
    if w.fd in disk then disk[w.fd := SyncFile(item, disk[w.fd], w)] else disk
  }

  function SyncAll(item: nat, disk: Disk, ws: seq<WriterStruct>): Disk
    requires item > 0
    decreases |ws|
  {
    if ws == [] then disk else SyncAll(item, SyncWrite(item, disk, ws[0]), ws[1..])
  }

  lemma {:induction false} SyncAllAppend(item: nat, disk: Disk, a: seq<WriterStruct>, b: seq<WriterStruct>)
    requires item > 0
    ensures SyncAll(item, disk, a + b) == SyncAll(item, SyncAll(item, disk, a), b)
    decreases |a|
  {
    if a == [] {
      assert a + b == b;
    } else {
      SyncAllAppend(item, SyncWrite(item, disk, a[0]), a[1..], b);
      assert (a + b)[1..] == a[1..] + b;
    }
  }

  // ----- Joining -----

  /** The second write continues the first. */
  predicate Continues(a: WriterStruct, b: WriterStruct) {
    b.fd == a.fd && b.start == a.start + |a.data|
  }

  function Joined(a: WriterStruct, b: WriterStruct): WriterStruct {
    a.(data := a.data + b.data)
  }

  lemma ItemsAdd(item: nat, m: nat, n: nat)
    requires item > 0 && m % item == 0
    ensures (m + n) / item == m / item + n / item
  {
    var q := m / item;
    assert m == item * q;
    assert m + n == item * (q + n / item) + n % item;
    DivUnique(item, m + n, q + n / item, n % item);
  }

  lemma DivUnique(d: nat, x: nat, q: nat, r: nat)
    requires d > 0 && x == d * q + r && r < d
    ensures x / d == q && x % d == r
  {
    var q', r' := x / d, x % d;
    assert x == d * q' + r';
    assert q' < q ==> d * q >= d * (q' + 1);
    assert q < q' ==> d * q' >= d * (q + 1);
  }

  /** One joined write leaves the file as the two writes do, count included. */
  lemma JoinKeeps(item: nat, disk: Disk, a: WriterStruct, b: WriterStruct)
    requires item > 0 && |a.data| % item == 0 && Continues(a, b)
    ensures SyncWrite(item, SyncWrite(item, disk, a), b) == SyncWrite(item, disk, Joined(a, b))
  {
    if a.fd in disk {
      PWriteJoins(disk[a.fd].bytes, a.start, a.data, b.data);
      ItemsAdd(item, |a.data|, |b.data|);
    }
  }

  // ----- What is still to be written -----

  /** The bytes that pending writes bring to one file. */
  function Rest(ws: seq<WriterStruct>, fd: int): Bytes {
    if ws == [] then [] else (if ws[0].fd == fd then ws[0].data else []) + Rest(ws[1..], fd)
  }

  /** The pending writes to one file follow each other from `start` on. */
  predicate Lined(ws: seq<WriterStruct>, fd: int, start: nat) {
    ws == [] ||
    if ws[0].fd == fd then ws[0].start == start && Lined(ws[1..], fd, start + |ws[0].data|)
    else Lined(ws[1..], fd, start)
  }

  lemma {:induction false} Push(ws: seq<WriterStruct>, w: WriterStruct, fd: int, start: nat)
    requires Lined(ws, fd, start) && (w.fd == fd ==> w.start == start + |Rest(ws, fd)|)
    ensures Lined(ws + [w], fd, start)
    ensures Rest(ws + [w], fd) == Rest(ws, fd) + (if w.fd == fd then w.data else [])
  {
    if ws == [] {
      assert ws + [w] == [w] && [w][1..] == [];
    } else {
      assert (ws + [w])[1..] == ws[1..] + [w];
      Push(ws[1..], w, fd, if ws[0].fd == fd then start + |ws[0].data| else start);
    }
  }

  /** Joining the first two pending writes changes neither. */
  lemma JoinPending(a: WriterStruct, b: WriterStruct, ws: seq<WriterStruct>, fd: int, start: nat)
    requires Continues(a, b) && Lined([a, b] + ws, fd, start)
    ensures Lined([Joined(a, b)] + ws, fd, start)
    ensures Rest([Joined(a, b)] + ws, fd) == Rest([a, b] + ws, fd)
  {
    var two, one := [a, b] + ws, [Joined(a, b)] + ws;
    assert two[1..] == [b] + ws && two[1..][1..] == ws && one[1..] == ws;
  }

  /** In a line, neighbours of one file continue each other. */
  lemma Neighbours(a: WriterStruct, b: WriterStruct, ws: seq<WriterStruct>, start: nat)
    requires b.fd == a.fd && Lined([a, b] + ws, a.fd, start)
    ensures Continues(a, b)
  {
    var two := [a, b] + ws;
    assert two[1..] == [b] + ws;
  }

  // ----- What readers may rely on -----

  function Size(item: nat, n: nat): nat {
    n * item
  }

  lemma SizeGrows(item: nat, n: nat, len: nat)
    requires item > 0 && len % item == 0
    ensures Size(item, n + len / item) == Size(item, n) + len
  {
    assert len == item * (len / item);
  }

  /**
    Everything counted in a file is already there with its final bytes, and what is pending is
    exactly the rest, in order, from there on.
   */
  predicate Durable(header: nat, item: nat, f: File, want: Bytes, pending: seq<WriterStruct>, fd: int) {
    var end := header + Size(item, f.curSize);
    && f.persisted == f.curSize && end <= |f.bytes|
    && f.bytes[header..end] + Rest(pending, fd) == want
    && Lined(pending, fd, end)
  }

  /** The data of a write is in the file. */
  predicate Landed(f: File, w: WriterStruct) {
    Written(f, w) == f
  }

  lemma LandedBytes(f: File, w: WriterStruct)
    requires Landed(f, w) && w.start <= |f.bytes|
    ensures w.start + |w.data| <= |f.bytes| && f.bytes[w.start..w.start + |w.data|] == w.data
  {
    forall k | 0 <= k < |w.data| ensures f.bytes[w.start + k] == w.data[k] {
      PWriteAt(f.bytes, w.start, w.data, w.start + k);
    }
  }

  lemma LandKeeps(header: nat, item: nat, f: File, want: Bytes, w: WriterStruct, rest: seq<WriterStruct>)
    requires Durable(header, item, f, want, [w] + rest, w.fd)
    ensures Durable(header, item, Written(f, w), want, [w] + rest, w.fd) && Landed(Written(f, w), w)
  {
    PWriteTwice(f.bytes, w.start, w.data);
    var end := header + Size(item, f.curSize);
    var bytes := Written(f, w).bytes;
    assert w.start == end;
    forall k | header <= k < end ensures bytes[k] == f.bytes[k] {
      PWriteAt(f.bytes, w.start, w.data, k);
    }
    assert bytes[header..end] == f.bytes[header..end];
  }

  lemma CountKeeps(header: nat, item: nat, f: File, want: Bytes, w: WriterStruct, rest: seq<WriterStruct>)
    requires Durable(header, item, f, want, [w] + rest, w.fd) && Landed(f, w) && Whole(item, w)
    ensures Durable(header, item, Counted(f, |w.data| / item), want, rest, w.fd)
  {
    var end := header + Size(item, f.curSize);
    LandedBytes(f, w);
    SizeGrows(item, f.curSize, |w.data|);
    assert ([w] + rest)[1..] == rest;
    assert f.bytes[header..end + |w.data|] == f.bytes[header..end] + w.data;
  }

  // ----- The whole writer -----

  predicate AllDurable(header: nat, item: nat, disk: Disk, want: map<int, Bytes>, pending: seq<WriterStruct>) {
    want.Keys == disk.Keys &&
    forall fd :: fd in disk ==> Durable(header, item, disk[fd], want[fd], pending, fd)
  }

  predicate Known(disk: Disk, pending: seq<WriterStruct>) {
    forall i :: 0 <= i < |pending| ==> pending[i].fd in disk
  }

  /** What is on disk followed by what is pending is what the writes one by one would leave. */
  predicate Equivalent(item: nat, disk: Disk, pending: seq<WriterStruct>, goal: Disk) {
    item > 0 && SyncAll(item, disk, pending) == goal
  }

  predicate WriterOk(header: nat, item: nat, disk: Disk, want: map<int, Bytes>, pending: seq<WriterStruct>,
      goal: Disk) {
    && AllWhole(item, pending) && Known(disk, pending)
    && AllDurable(header, item, disk, want, pending) && Equivalent(item, disk, pending, goal)
  }

  lemma SubmitDurable(header: nat, item: nat, disk: Disk, want: map<int, Bytes>, pending: seq<WriterStruct>,
      w: WriterStruct)
    requires AllDurable(header, item, disk, want, pending) && w.fd in disk && w.start == header + |want[w.fd]|
    ensures AllDurable(header, item, disk, want[w.fd := want[w.fd] + w.data], pending + [w])
  {
    var want' := want[w.fd := want[w.fd] + w.data];
    forall fd | fd in disk ensures Durable(header, item, disk[fd], want'[fd], pending + [w], fd) {
      assert Durable(header, item, disk[fd], want[fd], pending, fd);
      Push(pending, w, fd, header + Size(item, disk[fd].curSize));
    }
  }

  lemma SubmitKeeps(header: nat, item: nat, disk: Disk, want: map<int, Bytes>, pending: seq<WriterStruct>, goal: Disk,
      w: WriterStruct)
    requires WriterOk(header, item, disk, want, pending, goal)
    requires w.fd in disk && Whole(item, w) && w.start == header + |want[w.fd]|
    ensures WriterOk(header, item, disk, want[w.fd := want[w.fd] + w.data], pending + [w], SyncWrite(item, goal, w))
  {
    SubmitDurable(header, item, disk, want, pending, w);
    hide Durable, Lined, Rest;
    SyncAllAppend(item, disk, pending, [w]);
    assert SyncAll(item, goal, [w]) == SyncWrite(item, goal, w);
  }

  lemma WriteKeeps(header: nat, item: nat, disk: Disk, want: map<int, Bytes>, w: WriterStruct, rest: seq<WriterStruct>,
      goal: Disk)
    requires WriterOk(header, item, disk, want, [w] + rest, goal)
    ensures w.fd in disk && Landed(Written(disk[w.fd], w), w)
    ensures WriterOk(header, item, disk[w.fd := Written(disk[w.fd], w)], want, [w] + rest, goal)
  {
    assert ([w] + rest)[0] == w && ([w] + rest)[1..] == rest;
    PWriteTwice(disk[w.fd].bytes, w.start, w.data);
    var disk' := disk[w.fd := Written(disk[w.fd], w)];
    assert SyncWrite(item, disk', w) == SyncWrite(item, disk, w);
    assert Durable(header, item, disk[w.fd], want[w.fd], [w] + rest, w.fd);
    LandKeeps(header, item, disk[w.fd], want[w.fd], w, rest);
    hide Durable, PWrite;
    assert AllDurable(header, item, disk', want, [w] + rest);
  }

  lemma CountedDurable(header: nat, item: nat, disk: Disk, want: map<int, Bytes>, w: WriterStruct,
      rest: seq<WriterStruct>)
    requires AllDurable(header, item, disk, want, [w] + rest) && Whole(item, w) && w.fd in disk && Landed(disk[w.fd], w)
    ensures AllDurable(header, item, disk[w.fd := Counted(disk[w.fd], |w.data| / item)], want, rest)
  {
    var all, counted := [w] + rest, Counted(disk[w.fd], |w.data| / item);
    assert all[0] == w && all[1..] == rest;
    assert Durable(header, item, disk[w.fd], want[w.fd], all, w.fd);
    CountKeeps(header, item, disk[w.fd], want[w.fd], w, rest);
    hide Counted, Landed, Whole, Size;
    forall fd | fd in disk && fd != w.fd ensures Durable(header, item, disk[fd], want[fd], rest, fd) {
      assert Durable(header, item, disk[fd], want[fd], all, fd);
    }
  }

  lemma CountedKeeps(header: nat, item: nat, disk: Disk, want: map<int, Bytes>, w: WriterStruct,
      rest: seq<WriterStruct>, goal: Disk)
    requires WriterOk(header, item, disk, want, [w] + rest, goal)
    requires w.fd in disk && Landed(disk[w.fd], w)
    ensures Whole(item, w)
    ensures WriterOk(header, item, disk[w.fd := Counted(disk[w.fd], |w.data| / item)], want, rest, goal)
  {
    var all := [w] + rest;
    assert all[0] == w && all[1..] == rest;
    CountedDurable(header, item, disk, want, w, rest);
    hide AllDurable, Landed, Durable;
    assert forall i :: 0 <= i < |rest| ==> rest[i] == all[i + 1];
    CountedIsSync(item, disk, w);
  }

  /** Counting data that is already in place completes the write. */
  lemma CountedIsSync(item: nat, disk: Disk, w: WriterStruct)
    requires item > 0 && w.fd in disk && Landed(disk[w.fd], w)
    ensures disk[w.fd := Counted(disk[w.fd], |w.data| / item)] == SyncWrite(item, disk, w)
  {
  }

  lemma JoinedDurable(header: nat, item: nat, disk: Disk, want: map<int, Bytes>, a: WriterStruct, b: WriterStruct,
      rest: seq<WriterStruct>)
    requires AllDurable(header, item, disk, want, [a, b] + rest) && Continues(a, b)
    ensures AllDurable(header, item, disk, want, [Joined(a, b)] + rest)
  {
    forall fd | fd in disk ensures Durable(header, item, disk[fd], want[fd], [Joined(a, b)] + rest, fd) {
      assert Durable(header, item, disk[fd], want[fd], [a, b] + rest, fd);
      JoinPending(a, b, rest, fd, header + Size(item, disk[fd].curSize));
    }
  }

  lemma JoinedEquivalent(item: nat, disk: Disk, a: WriterStruct, b: WriterStruct, rest: seq<WriterStruct>, goal: Disk)
    requires Equivalent(item, disk, [a, b] + rest, goal) && Whole(item, a) && Continues(a, b)
    ensures Equivalent(item, disk, [Joined(a, b)] + rest, goal)
  {
    var two, one := [a, b] + rest, [Joined(a, b)] + rest;
    assert two[0] == a && two[1..] == [b] + rest && two[1..][0] == b && two[1..][1..] == rest && one[1..] == rest;
    JoinKeeps(item, disk, a, b);
    var disk1 := SyncWrite(item, disk, a);
    assert SyncAll(item, disk, two) == SyncAll(item, disk1, two[1..]);
    assert SyncAll(item, disk1, two[1..]) == SyncAll(item, SyncWrite(item, disk1, b), rest);
    assert SyncAll(item, disk, one) == SyncAll(item, SyncWrite(item, disk, Joined(a, b)), rest);
  }

  lemma JoinedWhole(item: nat, disk: Disk, a: WriterStruct, b: WriterStruct, rest: seq<WriterStruct>)
    requires AllWhole(item, [a, b] + rest) && Known(disk, [a, b] + rest) && |a.data| + |b.data| < BULK_BYTES
    ensures AllWhole(item, [Joined(a, b)] + rest) && Known(disk, [Joined(a, b)] + rest)
  {
    var two, one := [a, b] + rest, [Joined(a, b)] + rest;
    assert two[0] == a && two[1] == b;
    ModAdds(item, |a.data|, |b.data|);
    forall i | 0 <= i < |one| ensures Whole(item, one[i]) && one[i].fd in disk {
      if i > 0 { assert one[i] == two[i + 1]; }
    }
  }

  lemma JoinedKeeps(header: nat, item: nat, disk: Disk, want: map<int, Bytes>, a: WriterStruct, b: WriterStruct,
      rest: seq<WriterStruct>, goal: Disk)
    requires WriterOk(header, item, disk, want, [a, b] + rest, goal)
    requires a.fd == b.fd && |a.data| + |b.data| < BULK_BYTES
    ensures WriterOk(header, item, disk, want, [Joined(a, b)] + rest, goal)
  {
    var two := [a, b] + rest;
    assert two[0] == a && two[1] == b;
    assert Durable(header, item, disk[a.fd], want[a.fd], two, a.fd);
    Neighbours(a, b, rest, header + Size(item, disk[a.fd].curSize));
    hide AllDurable, Equivalent, Durable;
    JoinedWhole(item, disk, a, b, rest);
    JoinedDurable(header, item, disk, want, a, b, rest);
    JoinedEquivalent(item, disk, a, b, rest, goal);
  }

  /** Every record that a reader may count on is in the file with its final bytes. */
  lemma CountedRecordsAreFinal(header: nat, item: nat, disk: Disk, want: map<int, Bytes>, pending: seq<WriterStruct>,
      goal: Disk, fd: int, id: nat)
    requires WriterOk(header, item, disk, want, pending, goal) && fd in disk && id < disk[fd].curSize
    ensures Size(item, id) + item <= |want[fd]| && header + Size(item, id) + item <= |disk[fd].bytes|
    ensures disk[fd].bytes[header + Size(item, id)..header + Size(item, id) + item] ==
            want[fd][Size(item, id)..Size(item, id) + item]
  {
    assert Durable(header, item, disk[fd], want[fd], pending, fd);
    SizeBelow(item, id, disk[fd].curSize);
    SliceOfPrefix(disk[fd].bytes, header, Size(item, disk[fd].curSize), Rest(pending, fd), Size(item, id), item);
  }

  /** Behind the header the file holds exactly these bytes, all of them counted. */
  predicate AllThere(header: nat, item: nat, f: File, want: Bytes) {
    f.curSize * item == |want| && header + |want| <= |f.bytes| && f.bytes[header..header + |want|] == want
  }

  lemma NothingPending(header: nat, item: nat, disk: Disk, want: map<int, Bytes>, goal: Disk)
    requires WriterOk(header, item, disk, want, [], goal)
    ensures forall fd :: fd in disk ==> fd in want && AllThere(header, item, disk[fd], want[fd])
  {
    forall fd | fd in disk ensures fd in want && AllThere(header, item, disk[fd], want[fd]) {
      assert Durable(header, item, disk[fd], want[fd], [], fd);
      var end := header + Size(item, disk[fd].curSize);
      assert disk[fd].bytes[header..end] + [] == disk[fd].bytes[header..end];
    }
  }

  lemma SizeBelow(item: nat, id: nat, n: nat)
    requires id < n
    ensures Size(item, id) + item <= Size(item, n)
  {
    assert (id + 1) * item <= n * item;
  }

  lemma SliceOfPrefix(bytes: Bytes, header: nat, n: nat, rest: Bytes, at: nat, len: nat)
    requires header + n <= |bytes| && at + len <= n
    ensures (bytes[header..header + n] + rest)[at..at + len] == bytes[header + at..header + at + len]
  {
    var l, r := (bytes[header..header + n] + rest)[at..at + len], bytes[header + at..header + at + len];
    assert |l| == |r|;
    forall k | 0 <= k < len ensures l[k] == r[k] {
      assert l[k] == (bytes[header..header + n] + rest)[at + k] == bytes[header..header + n][at + k];
    }
  }

  lemma ModAdds(item: nat, m: nat, n: nat)
    requires item > 0 && m % item == 0 && n % item == 0
    ensures (m + n) % item == 0
  {
    assert m == item * (m / item) && n == item * (n / item);
    assert m + n == item * (m / item + n / item);
    DivUnique(item, m + n, m / item + n / item, 0);
  }

  class AsyncWriter {
    const headerSize: nat
    const itemLength: nat
    var disk: Disk
    var writerQ: seq<WriterStruct>
    ghost var inflight: seq<WriterStruct>   // taken from the queue, not yet counted
    ghost var want: map<int, Bytes>         // the records handed over so far, by file
    ghost var goal: Disk                    // the disk after all of them one by one

    ghost predicate Valid()
      reads this
    {
      WriterOk(headerSize, itemLength, disk, want, inflight + writerQ, goal)
    }

    constructor (headerSize: nat, itemLength: nat, disk: Disk)
      requires itemLength > 0
      requires forall fd :: fd in disk ==>
               disk[fd].persisted == disk[fd].curSize &&
               headerSize + Size(itemLength, disk[fd].curSize) <= |disk[fd].bytes|
      ensures Valid() && inflight == [] && writerQ == [] && this.disk == goal == disk
      ensures this.headerSize == headerSize && this.itemLength == itemLength
    {
      this.headerSize, this.itemLength, this.disk := headerSize, itemLength, disk;
      writerQ, inflight, goal := [], [], disk;
      want := map fd | fd in disk :: disk[fd].bytes[headerSize..headerSize + Size(itemLength, disk[fd].curSize)];
    }

    /** Handing over a record that continues its file. */
    method AsyncWrite(w: WriterStruct)
      requires Valid() && w.fd in disk && Whole(itemLength, w) && w.start == headerSize + |want[w.fd]|
      modifies `writerQ, `want, `goal
      ensures Valid() && writerQ == old(writerQ) + [w] && goal == SyncWrite(itemLength, old(goal), w)
      ensures want == old(want)[w.fd := old(want[w.fd]) + w.data]
    {
      assert itemLength > 0 && want.Keys == disk.Keys;
      hide WriterOk, Whole;
      SubmitKeeps(headerSize, itemLength, disk, want, inflight + writerQ, goal, w);
      assert inflight + (writerQ + [w]) == (inflight + writerQ) + [w];
      writerQ := writerQ + [w];
      want := want[w.fd := want[w.fd] + w.data];
      goal := SyncWrite(itemLength, goal, w);
    }

    /** One `pwrite` of the handler. */
    method Pwrite(fd: int, buffer: Bytes, start: nat)
      requires Valid() && inflight != [] && inflight[0] == WriterStruct(fd, start, buffer)
      modifies `disk
      ensures Valid() && fd in disk && Landed(disk[fd], inflight[0])
    {
      hide WriterOk;
      assert inflight + writerQ == [inflight[0]] + (inflight[1..] + writerQ);
      WriteKeeps(headerSize, itemLength, disk, want, inflight[0], inflight[1..] + writerQ, goal);
      disk := disk[fd := disk[fd].(bytes := PWrite(disk[fd].bytes, start, buffer))];
    }

    /** After which readers may use the records just written. */
    method UpdateSize(fd: int, num: nat)
      requires Valid() && inflight != [] && inflight[0].fd == fd && fd in disk && Landed(disk[fd], inflight[0])
      requires num == |inflight[0].data| / itemLength
      modifies `disk, `inflight
      ensures Valid() && inflight == old(inflight)[1..]
    {
      hide WriterOk;
      assert inflight + writerQ == [inflight[0]] + (inflight[1..] + writerQ);
      CountedKeeps(headerSize, itemLength, disk, want, inflight[0], inflight[1..] + writerQ, goal);
      var size := disk[fd].curSize + num;
      disk := disk[fd := disk[fd].(persisted := size, curSize := size)];
      inflight := inflight[1..];
    }

    ghost method Join()
      requires Valid() && |inflight| >= 2 && inflight[0].fd == inflight[1].fd
      requires |inflight[0].data| + |inflight[1].data| < BULK_BYTES
      modifies `inflight
      ensures Valid() && inflight == [Joined(old(inflight[0]), old(inflight[1]))] + old(inflight)[2..]
    {
      hide WriterOk;
      var a, b, rest := inflight[0], inflight[1], inflight[2..];
      assert inflight + writerQ == [a, b] + (rest + writerQ);
      JoinedKeeps(headerSize, itemLength, disk, want, a, b, rest + writerQ, goal);
      inflight := [Joined(a, b)] + rest;
      assert inflight + writerQ == [Joined(a, b)] + (rest + writerQ);
    }

    /** The prefix of the queue that one round takes. */
    method PopBatch() returns (structs: seq<WriterStruct>)
      requires Valid() && inflight == []
      modifies `writerQ, `inflight
      ensures Valid() && inflight == structs && structs + writerQ == old(writerQ)
      ensures |structs| == if |old(writerQ)| < BULK_SIZE then |old(writerQ)| else BULK_SIZE
    {
      hide WriterOk;
      structs := [];
      while writerQ != [] && |structs| < BULK_SIZE
        invariant inflight == [] && structs + writerQ == old(writerQ) && |structs| <= BULK_SIZE
        decreases |writerQ|
      {
        structs, writerQ := structs + [writerQ[0]], writerQ[1..];
      }
      inflight := structs;
      assert inflight + writerQ == old(inflight + writerQ);
    }

    /** The end of a run: one write and one count for all of it. */
    method Flush(prevFd: int, buffer: Bytes, bufferedStart: nat)
      requires Valid() && inflight != [] && inflight[0] == WriterStruct(prevFd, bufferedStart, buffer)
      modifies `disk, `inflight
      ensures Valid() && inflight == old(inflight)[1..]
    {
      Pwrite(prevFd, buffer, bufferedStart);
      UpdateSize(prevFd, |buffer| / itemLength);
    }

    /** One round of `WriterHandler`: afterwards the whole batch is on disk and counted. */
    method HandleBatch() returns (size: nat)
      requires Valid() && inflight == []
      modifies `disk, `writerQ, `inflight
      ensures Valid() && inflight == [] && size <= BULK_SIZE && size <= |old(writerQ)| &&
              writerQ == old(writerQ)[size..]
      ensures writerQ == [] ==> disk == goal
      ensures size == 0 ==> old(writerQ) == []
    {
      var structs := PopBatch();
      size := |structs|;
      if size > 0 {
        HandleRuns(structs);
      }
      assert writerQ == [] ==> inflight + writerQ == [];
    }

    /** Rounds until the queue is empty: then every file holds all that was handed over for it, and counts it. */
    method Drain()
      requires Valid() && inflight == []
      modifies `disk, `writerQ, `inflight
      ensures Valid() && inflight == [] && writerQ == [] && disk == goal
      ensures forall fd :: fd in disk ==> fd in want && AllThere(headerSize, itemLength, disk[fd], want[fd]) == true
    {
      var size := HandleBatch();
      while writerQ != []
        invariant Valid() && inflight == [] && (writerQ == [] ==> disk == goal)
        decreases |writerQ|
      {
        size := HandleBatch();
      }
      assert inflight + writerQ == [];
      NothingPending(headerSize, itemLength, disk, want, goal);
      hide AllThere;
    }

    method HandleRuns(structs: seq<WriterStruct>)
      requires Valid() && inflight == structs && |structs| > 0
      modifies `disk, `inflight
      ensures Valid() && inflight == []
    {
      hide WriterOk;
      var prevFd, bufferedStart, buffer := structs[0].fd, structs[0].start, structs[0].data;
      for i := 1 to |structs|
        invariant Valid() == true && inflight == [WriterStruct(prevFd, bufferedStart, buffer)] + structs[i..]
      {
        var w := structs[i];
        assert structs[i..][0] == w && structs[i..][1..] == structs[i + 1..];
        if prevFd != w.fd || |buffer| + |w.data| >= BULK_BYTES {
          Flush(prevFd, buffer, bufferedStart);
          prevFd, bufferedStart, buffer := w.fd, w.start, w.data;
          assert inflight == structs[i..] == [w] + structs[i + 1..];
        } else {
          assert inflight[1] == w && inflight[2..] == structs[i + 1..];
          Join();
          buffer := buffer + w.data;
        }
      }
      assert structs[|structs|..] == [];
      Flush(prevFd, buffer, bufferedStart);
    }
  }
}
