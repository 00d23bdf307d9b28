/**
  Saving the inverted lists of an index and loading them into a fresh one (gamma_index_io.cc).
  The stream is a sequence of bytes; words are little-endian.
 */
module InvertedListIO {
  import opened RealtimeIndex
  import opened RealtimeMemory
  import opened FileBytes

  // ----- Words -----

  function Power(k: nat): (r: nat)
    ensures r > 0
  {
    if k == 0 then 1 else 256 * Power(k - 1)
  }

  /** The `k` low bytes of `n`, lowest first. */
  function Word(n: nat, k: nat): (r: Bytes)
    ensures |r| == k
  {
    if k == 0 then [] else [n % 256] + Word(n / 256, k - 1)
  }

  function Value(bytes: Bytes): nat {
    if bytes == [] then 0 else bytes[0] + 256 * Value(bytes[1..])
  }

  lemma {:induction false} ValueOfWord(n: nat, k: nat)
    requires n < Power(k)
    ensures Value(Word(n, k)) == n
    decreases k
  {
    if k > 0 {
      ValueOfWord(n / 256, k - 1);
      assert Word(n, k)[1..] == Word(n / 256, k - 1);
    }
  }

  /** A signed long as the word that holds it. */
  function ToWord(stored: int): nat
    requires -DEL_BIT <= stored < DEL_BIT
  {
    if stored < 0 then stored + 2 * DEL_BIT else stored
  }

  function ToLong(word: nat): int {
    if word < DEL_BIT then word else word - 2 * DEL_BIT
  }

  // ----- The stream -----

  const ILAR := 0x72616c69
  const FULL := 0x6c6c7566

  /** The stored id of a slot: bit 63 set when tombstoned. */
  function StoredId(slot: Slot): int {
    if slot.tomb then slot.vid - DEL_BIT else slot.vid
  }

  function CodesOf(slots: seq<Slot>): Bytes {
    if slots == [] then [] else slots[0].code + CodesOf(slots[1..])
  }

  function IdsOf(slots: seq<Slot>): Bytes
    requires VidsFit(slots)
  {
    if slots == [] then [] else Word(ToWord(StoredId(slots[0])), 8) + IdsOf(slots[1..])
  }

  predicate VidsFit(slots: seq<Slot>) {
    forall p :: 0 <= p < |slots| ==> slots[p].vid < DEL_BIT
  }

  predicate CodesFit(slots: seq<Slot>, codeBytes: nat) {
    forall p :: 0 <= p < |slots| ==> |slots[p].code| == codeBytes
  }

  /** An index whose bucket lengths, vids and codes fit their fields. */
  predicate Storable(buckets: seq<seq<Slot>>, codeBytes: nat) {
    && |buckets| < 0x8000_0000 && codeBytes < 0x8000_0000
    && forall b :: 0 <= b < |buckets| ==>
         |buckets[b]| <= 0x2000_0000 && VidsFit(buckets[b]) && CodesFit(buckets[b], codeBytes)
  }

  function SizesOf(buckets: seq<seq<Slot>>): Bytes {
    if buckets == [] then [] else Word(|buckets[0]|, 8) + SizesOf(buckets[1..])
  }

  function ListsOf(buckets: seq<seq<Slot>>): Bytes
    requires forall b :: 0 <= b < |buckets| ==> VidsFit(buckets[b])
  {
    if buckets == [] then [] else CodesOf(buckets[0]) + IdsOf(buckets[0]) + ListsOf(buckets[1..])
  }

  function HeaderOf(n: nat, codeBytes: nat): Bytes {
    Word(ILAR, 4) + Word(n, 8) + Word(codeBytes, 8) + Word(FULL, 4) + Word(n, 8)
  }

  function Image(buckets: seq<seq<Slot>>, codeBytes: nat): Bytes
    requires Storable(buckets, codeBytes)
  {
    HeaderOf(|buckets|, codeBytes) + SizesOf(buckets) + ListsOf(buckets)
  }

  // ----- What loading does to the index -----

  /** The table and counter after the first `n` slots of bucket `b` have been gone through. */
  function PointSlots(rev: seq<Loc>, b: nat, slots: seq<Slot>, n: nat): (r: seq<Loc>)
    requires n <= |slots| && |rev| > 0
    ensures |r| >= |rev|
  {
    if n == 0 then rev
    else
      var r := PointSlots(rev, b, slots, n - 1);
      var slot := slots[n - 1];
      if slot.tomb then r else GrowTo(r, slot.vid)[slot.vid := At(b, n - 1)]
  }

  function Tombs(slots: seq<Slot>): nat {
    if slots == [] then 0 else Tombs(slots[..|slots| - 1]) + (if slots[|slots| - 1].tomb then 1 else 0)
  }

  function LoadBucket(s: State, b: nat, slots: seq<Slot>): State
    requires b < |s.buckets| == |s.dead| && |s.rev| > 0
  {
    s.(buckets := s.buckets[b := slots], rev := PointSlots(s.rev, b, slots, |slots|),
        dead := s.dead[b := s.dead[b] + Tombs(slots)])
  }

  predicate Before(c: nat, p: nat, b: nat, n: nat) {
    c < b || (c == b && p < n)
  }

  /** An untombstoned slot of the saved index among those already gone through. */
  predicate Loaded(m: State, c: nat, p: nat, b: nat, n: nat) {
    Before(c, p, b, n) && c < |m.buckets| && p < |m.buckets[c]| && !m.buckets[c][p].tomb
  }

  /** Slots gone through are pointed at ... */
  ghost predicate PointsTo(m: State, rev: seq<Loc>, b: nat, n: nat) {
    forall c: nat, p: nat :: Loaded(m, c, p, b, n) ==>
        m.buckets[c][p].vid < |rev| && rev[m.buckets[c][p].vid] == At(c, p)
  }

  predicate Hits(m: State, loc: Loc, v: nat, b: nat, n: nat)
    requires loc.At?
  {
    Loaded(m, loc.bucket, loc.pos, b, n) && m.buckets[loc.bucket][loc.pos].vid == v
  }

  /** ... and nothing else is. */
  predicate PointsBack(m: State, rev: seq<Loc>, b: nat, n: nat) {
    forall v :: 0 <= v < |rev| && rev[v].At? ==> Hits(m, rev[v], v, b, n)
  }

  /** The table points at exactly the untombstoned slots gone through so far. */
  ghost predicate Pointing(m: State, rev: seq<Loc>, b: nat, n: nat) {
    PointsTo(m, rev, b, n) && PointsBack(m, rev, b, n)
  }

  lemma PointsToOneMore(m: State, rev: seq<Loc>, rev': seq<Loc>, b: nat, n: nat)
    requires SlotsPointedAt(m) && b < |m.buckets| && n < |m.buckets[b]| && !m.buckets[b][n].tomb &&
             PointsTo(m, rev, b, n)
    requires |rev| <= |rev'| && m.buckets[b][n].vid < |rev'| && rev'[m.buckets[b][n].vid] == At(b, n)
    requires forall v :: 0 <= v < |rev| && v != m.buckets[b][n].vid ==> rev'[v] == rev[v]
    ensures PointsTo(m, rev', b, n + 1)
  {
    assert m.rev[m.buckets[b][n].vid] == At(b, n);
    forall c: nat, p: nat | Loaded(m, c, p, b, n + 1)
      ensures m.buckets[c][p].vid < |rev'| && rev'[m.buckets[c][p].vid] == At(c, p)
    {
      assert m.rev[m.buckets[c][p].vid] == At(c, p);
      if c != b || p != n {
        assert Loaded(m, c, p, b, n);
      }
    }
  }

  lemma PointsBackOneMore(m: State, rev: seq<Loc>, rev': seq<Loc>, b: nat, n: nat)
    requires b < |m.buckets| && n < |m.buckets[b]| && !m.buckets[b][n].tomb && PointsBack(m, rev, b, n)
    requires forall v :: 0 <= v < |rev'| && rev'[v].At? ==>
               (v == m.buckets[b][n].vid && rev'[v] == At(b, n)) || (v < |rev| && rev[v] == rev'[v])
    ensures PointsBack(m, rev', b, n + 1)
  {
  }

  lemma PointOneSlot(m: State, rev: seq<Loc>, b: nat, n: nat)
    requires SlotsPointedAt(m) && |rev| > 0 && b < |m.buckets| && n < |m.buckets[b]| && Pointing(m, rev, b, n)
    ensures var slot := m.buckets[b][n];
            Pointing(m, if slot.tomb then rev else GrowTo(rev, slot.vid)[slot.vid := At(b, n)], b, n + 1)
  {
    var slot := m.buckets[b][n];
    if slot.tomb {
      assert forall c: nat, p: nat :: Loaded(m, c, p, b, n + 1) ==> Loaded(m, c, p, b, n);
    } else {
      var rev' := GrowTo(rev, slot.vid)[slot.vid := At(b, n)];
      PointsToOneMore(m, rev, rev', b, n);
      PointsBackOneMore(m, rev, rev', b, n);
    }
  }

  lemma {:induction false} PointSlotsPoints(m: State, rev: seq<Loc>, b: nat, n: nat)
    requires SlotsPointedAt(m) && |rev| > 0 && b < |m.buckets| && n <= |m.buckets[b]| && Pointing(m, rev, b, 0)
    ensures Pointing(m, PointSlots(rev, b, m.buckets[b], n), b, n)
    decreases n
  {
    if n > 0 {
      PointSlotsPoints(m, rev, b, n - 1);
      PointOneSlot(m, PointSlots(rev, b, m.buckets[b], n - 1), b, n - 1);
    }
    hide Pointing, GrowTo;
  }

  lemma NextBucket(m: State, rev: seq<Loc>, b: nat)
    requires b < |m.buckets| && Pointing(m, rev, b, |m.buckets[b]|)
    ensures Pointing(m, rev, b + 1, 0)
  {
    assert forall c: nat, p: nat :: Loaded(m, c, p, b + 1, 0) ==> Loaded(m, c, p, b, |m.buckets[b]|);
    assert forall c: nat, p: nat :: Loaded(m, c, p, b, |m.buckets[b]|) ==> Loaded(m, c, p, b + 1, 0);
  }

  /** What is true after the first `b` buckets of a saved index have been loaded. */
  ghost predicate Loading(m: State, s: State, b: nat) {
    && b <= |m.buckets| == |s.buckets| == |s.caps| == |s.dead| && |s.rev| > 0 && s.deleted == m.deleted
    && (forall c :: 0 <= c < |s.buckets| ==> s.buckets[c] == if c < b then m.buckets[c] else [])
    && (forall c :: 0 <= c < |s.buckets| ==> s.dead[c] == if c < b then Tombs(m.buckets[c]) else 0)
    && (forall c :: 0 <= c < |s.buckets| ==> |s.buckets[c]| <= s.caps[c])
    && Pointing(m, s.rev, b, 0)
  }

  /** An index just constructed. */
  predicate FreshIndex(s: State) {
    && |s.buckets| == |s.caps| == |s.dead| && |s.rev| > 0
    && (forall c :: 0 <= c < |s.buckets| ==> s.buckets[c] == [] && s.dead[c] == 0)
    && (forall v :: 0 <= v < |s.rev| ==> s.rev[v] == Unset)
  }

  lemma LoadStep(m: State, s: State, s1: State, b: nat)
    requires SlotsPointedAt(m) && Loading(m, s, b) && b < |m.buckets|
    requires s1 == s.(caps := s1.caps) && |s1.caps| == |s.caps|
    requires forall c :: 0 <= c < |s.caps| && c != b ==> s1.caps[c] == s.caps[c]
    requires s1.caps[b] >= |m.buckets[b]|
    ensures Loading(m, LoadBucket(s1, b, m.buckets[b]), b + 1)
  {
    PointSlotsPoints(m, s.rev, b, |m.buckets[b]|);
    NextBucket(m, PointSlots(s.rev, b, m.buckets[b], |m.buckets[b]|), b);
  }

  /** Some slot is dead only through the bitmap. */
  predicate BitmapDead(docOf: DocOf, m: State, b: nat, p: nat) {
    b < |m.buckets| && p < |m.buckets[b]| && !m.buckets[b][p].tomb && docOf(m.buckets[b][p].vid) in m.deleted
  }

  lemma {:induction false} TombsAreDead(docOf: DocOf, deleted: set<int>, slots: seq<Slot>)
    ensures Tombs(slots) <= DeadCount(docOf, deleted, slots)
    ensures Tombs(slots) == DeadCount(docOf, deleted, slots) <==>
            forall p :: 0 <= p < |slots| && !slots[p].tomb ==> docOf(slots[p].vid) !in deleted
  {
    if slots != [] {
      var n := |slots| - 1;
      TombsAreDead(docOf, deleted, slots[..n]);
      assert forall p :: 0 <= p < n ==> slots[..n][p] == slots[p];
    }
  }

  lemma LoadedSound(docOf: DocOf, m: State, s: State)
    requires Sound(docOf, m) && Loading(m, s, |m.buckets|)
    ensures Sound(docOf, s)
  {
    forall v | 0 <= v < |s.rev| ensures InRange(s.rev[v], |s.buckets|) {
    }
    forall b, p | 0 <= b < |s.buckets| && 0 <= p < |s.buckets[b]| && !s.buckets[b][p].tomb
      ensures s.buckets[b][p].vid < |s.rev| && s.rev[s.buckets[b][p].vid] == At(b, p)
    {
      assert Loaded(m, b, p, |m.buckets|, 0);
    }
  }

  /**
    The loaded index has the same buckets and the same view as the saved one.  Its dead counters
    are exact if and only if no untombstoned slot was dead in the saved index.
   */
  lemma LoadRestores(docOf: DocOf, m: State, s: State)
    requires Sound(docOf, m) && Loading(m, s, |m.buckets|)
    ensures s.buckets == m.buckets && Sound(docOf, s) && View(docOf, s) == View(docOf, m)
    ensures CountersExact(docOf, s) <==> forall b: nat, p: nat :: !BitmapDead(docOf, m, b, p)
  {
    LoadedSound(docOf, m, s);
    LoadedView(docOf, m, s);
    assert s.buckets == m.buckets;
    LoadedCounters(docOf, m, s);
  }

  /** One document, deleted before the save: its slot carries no tombstone, and after the load it is not counted. */
  lemma ADeletedDocumentUncounted(docOf: DocOf, code: Code)
    requires docOf(0) == 0
    ensures var m := State([[Slot(0, false, code)]], [1], [At(0, 0)], [1], 0, {0});
            var s := m.(dead := [0]);
            Inv(docOf, m) && Loading(m, s, 1) && Sound(docOf, s) && !CountersExact(docOf, s)
  {
    var m := State([[Slot(0, false, code)]], [1], [At(0, 0)], [1], 0, {0});
    assert m.buckets[0][..0] == [];
    assert DeadCount(docOf, {0}, m.buckets[0]) == 1;
    assert Inv(docOf, m);
    assert Loading(m, m.(dead := [0]), 1);
    assert m.(dead := [0]).dead[0] != 1;
  }

  lemma LoadedView(docOf: DocOf, m: State, s: State)
    requires Sound(docOf, m) && Sound(docOf, s) && Loading(m, s, |m.buckets|)
    ensures View(docOf, s) == View(docOf, m)
  {
    forall v ensures v in View(docOf, s) <==> v in View(docOf, m)
             ensures v in View(docOf, s) ==> s.rev[v] == m.rev[v]
    {
      if v in View(docOf, s) {
        assert Hits(m, s.rev[v], v, |m.buckets|, 0);
      }
      if v in View(docOf, m) {
        assert Resolves(m, v) && Loaded(m, m.rev[v].bucket, m.rev[v].pos, |m.buckets|, 0);
      }
    }
  }

  lemma LoadedCounters(docOf: DocOf, m: State, s: State)
    requires Loading(m, s, |m.buckets|)
    ensures CountersExact(docOf, s) <==> forall b: nat, p: nat :: !BitmapDead(docOf, m, b, p)
  {
    forall b | 0 <= b < |m.buckets|
      ensures s.dead[b] == DeadCount(docOf, s.deleted, s.buckets[b]) <==> forall p: nat :: !BitmapDead(docOf, m, b, p)
    {
      TombsAreDead(docOf, m.deleted, m.buckets[b]);
      if s.dead[b] == DeadCount(docOf, s.deleted, s.buckets[b]) {
        forall p: nat ensures !BitmapDead(docOf, m, b, p) {
        }
      } else {
        var p: nat :| p < |m.buckets[b]| && !m.buckets[b][p].tomb && docOf(m.buckets[b][p].vid) in m.deleted;
        assert BitmapDead(docOf, m, b, p);
      }
    }
  }

  // ----- Writing -----

  /** The memory of a bucket's codes, as one write sees it. */
  method CodeMemory(codes: array<Code>, size: nat, ghost slots: seq<Slot>) returns (out: Bytes)
    requires |slots| == size <= codes.Length && forall p :: 0 <= p < size ==> codes[p] == slots[p].code
    ensures out == CodesOf(slots)
  {
    out := [];
    for p := 0 to size
      invariant out + CodesOf(slots[p..]) == CodesOf(slots)
    {
      assert slots[p..][1..] == slots[p + 1..];
      assert CodesOf(slots[p..]) == codes[p] + CodesOf(slots[p + 1..]);
      out := out + codes[p];
    }
  }

  method IdMemory(ids: array<int>, size: nat, ghost slots: seq<Slot>) returns (out: Bytes)
    requires |slots| == size <= ids.Length && VidsFit(slots) && forall p :: 0 <= p < size ==>
             ids[p] == StoredId(slots[p])
    ensures out == IdsOf(slots)
  {
    out := [];
    for p := 0 to size
      invariant out + IdsOf(slots[p..]) == IdsOf(slots)
    {
      assert slots[p..][1..] == slots[p + 1..];
      assert IdsOf(slots[p..]) == Word(ToWord(ids[p]), 8) + IdsOf(slots[p + 1..]);
      out := out + Word(ToWord(ids[p]), 8);
    }
  }

  method SizeMemory(d: RealTimeMemData) returns (out: Bytes)
    requires d.Sized()
    ensures out == SizesOf(d.model.buckets)
  {
    ghost var buckets := d.model.buckets;
    out := [];
    for i := 0 to |d.idxArray|
      invariant out + SizesOf(buckets[i..]) == SizesOf(buckets)
    {
      assert buckets[i..][1..] == buckets[i + 1..];
      assert SizesOf(buckets[i..]) == Word(d.retrieveIdxPos[i], 8) + SizesOf(buckets[i + 1..]);
      out := out + Word(d.retrieveIdxPos[i], 8);
    }
  }

  method BucketMemory(d: RealTimeMemData, i: nat) returns (out: Bytes)
    requires d.Sized() && d.Buffers() && i < |d.idxArray| && VidsFit(d.model.buckets[i])
    ensures out == CodesOf(d.model.buckets[i]) + IdsOf(d.model.buckets[i])
  {
    out := [];
    if d.retrieveIdxPos[i] > 0 {
      StoredIds(d.idxArray[i], d.codesArray[i], d.model.buckets[i], d.curBucketKeys[i]);
      var codes := CodeMemory(d.codesArray[i], d.retrieveIdxPos[i], d.model.buckets[i]);
      var ids := IdMemory(d.idxArray[i], d.retrieveIdxPos[i], d.model.buckets[i]);
      out := codes + ids;
    }
  }

  lemma Regroup(a: Bytes, b: Bytes, c: Bytes)
    ensures (a + b) + c == a + (b + c)
  {
  }

  lemma ListsOfStep(buckets: seq<seq<Slot>>, i: nat)
    requires i < |buckets| && forall b :: 0 <= b < |buckets| ==> VidsFit(buckets[b])
    ensures ListsOf(buckets[i..]) == CodesOf(buckets[i]) + IdsOf(buckets[i]) + ListsOf(buckets[i + 1..])
  {
    assert buckets[i..][1..] == buckets[i + 1..];
  }

  method ListMemory(d: RealTimeMemData) returns (out: Bytes)
    requires d.Sized() && d.Buffers() && forall b :: 0 <= b < |d.model.buckets| ==> VidsFit(d.model.buckets[b])
    ensures out == ListsOf(d.model.buckets)
  {
    ghost var buckets := d.model.buckets;
    out := [];
    assert buckets[0..] == buckets;
    for i := 0 to |d.idxArray|
      invariant out + ListsOf(buckets[i..]) == ListsOf(buckets)
    {
      var list := BucketMemory(d, i);
      ListsOfStep(buckets, i);
      Regroup(out, list, ListsOf(buckets[i + 1..]));
      out := out + list;
    }
    assert out + [] == out;
  }

  /** The saved file is determined by the bucket contents alone. */
  method WriteInvertedLists(d: RealTimeMemData, codeBytes: nat) returns (f: Bytes)
    requires d.Represents() && Storable(d.model.buckets, codeBytes)
    ensures f == Image(d.model.buckets, codeBytes)
  {
    f := HeaderOf(|d.idxArray|, codeBytes);
    var sizes := SizeMemory(d);
    var lists := ListMemory(d);
    f := f + sizes + lists;
  }

  lemma StoredIds(ids: array<int>, codes: array<Code>, slots: seq<Slot>, cap: nat)
    requires BucketOk(ids, codes, slots, cap)
    ensures forall p :: 0 <= p < |slots| ==> ids[p] == StoredId(slots[p]) && codes[p] == slots[p].code
  {
    forall p | 0 <= p < |slots| ensures ids[p] == StoredId(slots[p]) && codes[p] == slots[p].code {
      assert SlotOk(ids[p], codes[p], slots[p]);
    }
  }

  // ----- Reading -----

  lemma Powers()
    ensures Power(4) == 0x1_0000_0000 && Power(8) == 2 * DEL_BIT
  {
    assert Power(4) == 256 * Power(3) && Power(3) == 256 * Power(2) && Power(2) == 256 * Power(1) && Power(1) == 256;
    assert Power(8) == 256 * Power(7) && Power(7) == 256 * Power(6) && Power(6) == 256 * Power(5) &&
           Power(5) == 256 * Power(4);
  }

  method ReadWord(f: Bytes, pos: nat, k: nat, ghost n0: nat, ghost rest: Bytes) returns (n: nat, next: nat)
    requires pos <= |f| && f[pos..] == Word(n0, k) + rest && n0 < Power(k)
    ensures n == n0 && next == pos + k <= |f| && f[next..] == rest
  {
    next := pos + k;
    n := Value(f[pos..next]);
    assert f[pos..next] == f[pos..][..k] == Word(n0, k);
    assert f[next..] == f[pos..][k..] == rest;
    ValueOfWord(n0, k);
  }

  method ReadCodes(f: Bytes, pos: nat, codes: array<Code>, size: nat, codeBytes: nat, ghost slots: seq<Slot>,
      ghost rest: Bytes)
    returns (next: nat)
    requires |slots| == size <= codes.Length && CodesFit(slots, codeBytes)
    requires pos <= |f| && f[pos..] == CodesOf(slots) + rest
    modifies codes
    ensures forall p :: 0 <= p < size ==> codes[p] == slots[p].code
    ensures next <= |f| && f[next..] == rest
  {
    next := pos;
    for p := 0 to size
      invariant next <= |f| && f[next..] == CodesOf(slots[p..]) + rest
      invariant forall q :: 0 <= q < p ==> codes[q] == slots[q].code
    {
      assert slots[p..][1..] == slots[p + 1..];
      assert f[next..] == slots[p].code + (CodesOf(slots[p + 1..]) + rest);
      ghost var tail := f[next..];
      codes[p] := f[next..next + codeBytes];
      assert codes[p] == tail[..codeBytes];
      assert f[next + codeBytes..] == tail[codeBytes..];
      next := next + codeBytes;
    }
  }

  method ReadIds(f: Bytes, pos: nat, ids: array<int>, size: nat, ghost slots: seq<Slot>, ghost rest: Bytes)
    returns (next: nat)
    requires |slots| == size <= ids.Length && VidsFit(slots)
    requires pos <= |f| && f[pos..] == IdsOf(slots) + rest
    modifies ids
    ensures forall p :: 0 <= p < size ==> ids[p] == StoredId(slots[p])
    ensures next <= |f| && f[next..] == rest
  {
    Powers();
    next := pos;
    for p := 0 to size
      invariant next <= |f| && f[next..] == IdsOf(slots[p..]) + rest
      invariant forall q :: 0 <= q < p ==> ids[q] == StoredId(slots[q])
    {
      assert slots[p..][1..] == slots[p + 1..];
      assert f[next..] == Word(ToWord(StoredId(slots[p])), 8) + (IdsOf(slots[p + 1..]) + rest);
      var word;
      word, next := ReadWord(f, next, 8, ToWord(StoredId(slots[p])), IdsOf(slots[p + 1..]) + rest);
      ids[p] := ToLong(word);
    }
  }

  /** The loop over the ids of one bucket: tombstoned ones are counted, the others pointed at. */
  method PointLoaded(d: RealTimeMemData, bno: nat, size: nat, ghost slots: seq<Slot>)
    requires |d.vidBucketNoPos| > 0 && RevOk(d.vidBucketNoPos, d.model.rev) && d.deletedNums == d.model.dead
    requires bno < |d.idxArray| && bno < |d.model.dead| && bno < 0x8000_0000
    requires size == |slots| <= d.idxArray[bno].Length && size < 0x8000_0000 && VidsFit(slots)
    requires forall p :: 0 <= p < size ==> d.idxArray[bno][p] == StoredId(slots[p])
    modifies d`vidBucketNoPos, d`deletedNums
    ensures RevOk(d.vidBucketNoPos, PointSlots(d.model.rev, bno, slots, size))
    ensures d.deletedNums == d.model.dead[bno := d.model.dead[bno] + Tombs(slots)]
  {
    for pos := 0 to size
      invariant |d.vidBucketNoPos| > 0 && RevOk(d.vidBucketNoPos, PointSlots(d.model.rev, bno, slots, pos))
      invariant d.deletedNums == d.model.dead[bno := d.model.dead[bno] + Tombs(slots[..pos])]
    {
      ghost var r := PointSlots(d.model.rev, bno, slots, pos);
      assert slots[..pos + 1][..pos] == slots[..pos];
      var id := d.idxArray[bno][pos];
      if IsDel(id) {
        d.deletedNums := d.deletedNums[bno := d.deletedNums[bno] + 1];
      } else {
        d.GrowIDs(id, r);
        RevOkUpdate(d.vidBucketNoPos, GrowTo(r, id), id, bno, pos);
        d.vidBucketNoPos := d.vidBucketNoPos[id := Pack(bno, pos)];
      }
    }
    assert slots[..size] == slots;
  }

  /** Codes and ids of one bucket, read into its buffers, then published. */
  method LoadList(d: RealTimeMemData, f: Bytes, pos: nat, bno: nat, size: nat, codeBytes: nat, ghost slots: seq<Slot>,
      ghost rest: Bytes)
    returns (next: nat)
    requires d.Represents() && bno < |d.idxArray| && |d.model.dead| == |d.model.buckets|
    requires size == |slots| <= d.curBucketKeys[bno] && VidsFit(slots) && CodesFit(slots, codeBytes)
    requires d.model.buckets[bno] == []
    requires pos <= |f| && f[pos..] == CodesOf(slots) + IdsOf(slots) + rest
    modifies d, d.idxArray[bno], d.codesArray[bno]
    ensures d.Represents() && d.model == LoadBucket(old(d.model), bno, slots)
    ensures d.idxArray == old(d.idxArray) && d.codesArray == old(d.codesArray)
    ensures next <= |f| && f[next..] == rest
  {
    assert f[pos..] == CodesOf(slots) + (IdsOf(slots) + rest);
    hide CodesOf, IdsOf, VidsFit, CodesFit;
    next := ReadBuffers(d, f, pos, bno, size, codeBytes, slots, rest);
    PointLoaded(d, bno, size, slots);
    d.Publish(bno, size, LoadBucket(d.model, bno, slots));
  }

  method ReadBuffers(d: RealTimeMemData, f: Bytes, pos: nat, bno: nat, size: nat, codeBytes: nat,
      ghost slots: seq<Slot>, ghost rest: Bytes)
    returns (next: nat)
    requires d.Buffers() && bno < |d.idxArray|
    requires size == |slots| <= d.curBucketKeys[bno] && VidsFit(slots) && CodesFit(slots, codeBytes)
    requires pos <= |f| && f[pos..] == CodesOf(slots) + (IdsOf(slots) + rest)
    modifies d.idxArray[bno], d.codesArray[bno]
    ensures forall p :: 0 <= p < size ==> d.idxArray[bno][p] == StoredId(slots[p])
    ensures forall b :: 0 <= b < |d.idxArray| ==>
              BucketOk(d.idxArray[b], d.codesArray[b], if b == bno
                  then slots else d.model.buckets[b], d.curBucketKeys[b])
    ensures next <= |f| && f[next..] == rest
  {
    var codes, ids := d.codesArray[bno], d.idxArray[bno];
    assert BucketOk(ids, codes, d.model.buckets[bno], d.curBucketKeys[bno]);
    next := ReadCodes(f, pos, codes, size, codeBytes, slots, IdsOf(slots) + rest);
    next := ReadIds(f, next, ids, size, slots, rest);
    forall p | 0 <= p < size ensures SlotOk(ids[p], codes[p], slots[p]) {
    }
    forall b | 0 <= b < |d.idxArray| && b != bno
      ensures BucketOk(d.idxArray[b], d.codesArray[b], d.model.buckets[b], d.curBucketKeys[b])
    {
      assert old(BucketOk(d.idxArray[b], d.codesArray[b], d.model.buckets[b], d.curBucketKeys[b]));
      assert d.idxArray[b] != ids && d.codesArray[b] != codes;
    }
  }

  method ReadSizes(f: Bytes, pos: nat, n: nat, ghost buckets: seq<seq<Slot>>,
      ghost rest: Bytes) returns (sizes: seq<nat>, next: nat)
    requires n == |buckets| && forall b :: 0 <= b < n ==> |buckets[b]| <= 0x2000_0000
    requires pos <= |f| && f[pos..] == SizesOf(buckets) + rest
    ensures |sizes| == n && forall b :: 0 <= b < n ==> sizes[b] == |buckets[b]|
    ensures next <= |f| && f[next..] == rest
  {
    Powers();
    sizes, next := [], pos;
    for b := 0 to n
      invariant |sizes| == b && forall c :: 0 <= c < b ==> sizes[c] == |buckets[c]|
      invariant next <= |f| && f[next..] == SizesOf(buckets[b..]) + rest
    {
      assert buckets[b..][1..] == buckets[b + 1..];
      assert f[next..] == Word(|buckets[b]|, 8) + (SizesOf(buckets[b + 1..]) + rest);
      var size;
      size, next := ReadWord(f, next, 8, |buckets[b]|, SizesOf(buckets[b + 1..]) + rest);
      sizes := sizes + [size];
    }
  }

  method ReadHeader(f: Bytes, ghost n0: nat, ghost codeBytes0: nat, ghost rest: Bytes) returns (n: nat, codeBytes: nat,
      next: nat)
    requires f == HeaderOf(n0, codeBytes0) + rest && n0 < 0x8000_0000 && codeBytes0 < 0x8000_0000
    ensures n == n0 && codeBytes == codeBytes0 && next <= |f| && f[next..] == Word(n0, 8) + rest
  {
    Powers();
    hide Word, Power;
    ghost var r4 := Word(n0, 8) + rest;
    ghost var r3 := Word(FULL, 4) + r4;
    ghost var r2 := Word(codeBytes0, 8) + r3;
    ghost var r1 := Word(n0, 8) + r2;
    assert f[0..] == Word(ILAR, 4) + r1;
    var h, listType;
    h, next := ReadWord(f, 0, 4, ILAR, r1);
    n, next := ReadWord(f, next, 8, n0, r2);
    codeBytes, next := ReadWord(f, next, 8, codeBytes0, r3);
    listType, next := ReadWord(f, next, 4, FULL, r4);
    assert h == ILAR && listType == FULL;
  }

  /** The buffers of the buckets from `b` on are still in place. */
  ghost predicate Untouched(d: RealTimeMemData, ids: seq<array<int>>, codes: seq<array<Code>>, b: nat)
    reads d
  {
    && |d.idxArray| == |ids| && |d.codesArray| == |codes|
    && (forall c :: b <= c < |ids| ==> d.idxArray[c] == ids[c])
    && (forall c :: b <= c < |codes| ==> d.codesArray[c] == codes[c])
  }

  /** Whether each saved bucket would be refused by the index as it is now. */
  ghost function Refusals(d: RealTimeMemData, saved: State): (r: seq<bool>)
    reads d
    requires |d.retrieveIdxPos| == |d.curBucketKeys| == |saved.buckets|
    ensures |r| == |saved.buckets| && forall b :: 0 <= b < |r| ==> r[b] == RefusedAt(d, saved, b)
  {
    seq(|saved.buckets|, b requires 0 <= b < |saved.buckets| reads d
                                    requires |d.retrieveIdxPos| == |d.curBucketKeys| ==
                                             |saved.buckets| => RefusedAt(d, saved, b))
  }

  /** Some saved bucket cannot be given room. */
  ghost predicate Refused(d: RealTimeMemData, saved: State)
    reads d
  {
    |d.retrieveIdxPos| == |d.curBucketKeys| == |saved.buckets| && true in Refusals(d, saved)
  }

  predicate RefusedAt(d: RealTimeMemData, saved: State, b: nat)
    reads d
    requires b < |saved.buckets| && b < |d.retrieveIdxPos| && b < |d.curBucketKeys|
  {
    |saved.buckets[b]| > 0 && d.Refuses(b, |saved.buckets[b]|)
  }

  /** The first `bno` buckets are loaded, the rest of the file is to be read, and the other buckets are as they were. */
  ghost predicate Progress(d: RealTimeMemData, f: Bytes, pos: int, bno: nat, codeBytes: nat, saved: State, tail: Bytes,
      refused: seq<bool>)
    reads d, d.idxArray, d.codesArray
  {
    && d.Represents() && Loading(saved, d.model, bno) && SlotsPointedAt(saved) && Storable(saved.buckets, codeBytes)
    && 0 <= pos <= |f| && f[pos..] == ListsOf(saved.buckets[bno..]) + tail
    && |refused| == |saved.buckets| && forall b :: bno <= b < |refused| ==> refused[b] == RefusedAt(d, saved, b)
  }

  lemma NothingToLoad(d: RealTimeMemData, f: Bytes, pos: int, bno: nat, codeBytes: nat, saved: State, tail: Bytes,
      refused: seq<bool>)
    requires Progress(d, f, pos, bno, codeBytes, saved, tail, refused) && bno < |saved.buckets| &&
             saved.buckets[bno] == []
    ensures !refused[bno] && Progress(d, f, pos, bno + 1, codeBytes, saved, tail, refused)
    ensures d.Represents()
  {
    ListsOfHead(saved.buckets, bno, tail);
    LoadStep(saved, d.model, d.model, bno);
    assert LoadBucket(d.model, bno, []) == d.model;
    assert refused[bno] == RefusedAt(d, saved, bno);
  }

  lemma AboutToLoad(d: RealTimeMemData, f: Bytes, pos: int, bno: nat, codeBytes: nat, saved: State, tail: Bytes,
      refused: seq<bool>)
    requires Progress(d, f, pos, bno, codeBytes, saved, tail, refused) && bno < |saved.buckets|
    ensures d.Represents() && Loading(saved, d.model, bno) && SlotsPointedAt(saved)
    ensures Storable(saved.buckets, codeBytes)
    ensures |d.model.buckets| == |d.model.caps| == |d.idxArray| == |refused| == |saved.buckets|
    ensures 0 <= pos <= |f|
    ensures f[pos..] ==
            CodesOf(saved.buckets[bno]) + IdsOf(saved.buckets[bno]) + (ListsOf(saved.buckets[bno + 1..]) + tail)
    ensures d.model.buckets[bno] == []
    ensures refused[bno] <==> |saved.buckets[bno]| > 0 && d.Refuses(bno, |saved.buckets[bno]|)
    ensures forall c :: bno < c < |refused| ==>
              refused[c] == WouldRefuse(d, |d.model.buckets[c]|, d.model.caps[c], |saved.buckets[c]|)
  {
    ListsOfHead(saved.buckets, bno, tail);
    assert forall c :: bno <= c < |refused| ==> refused[c] == RefusedAt(d, saved, c);
  }

  /** One turn of the loop over the buckets; false is the refusal by `ExtendBucketIfNeed`. */
  method LoadOne(d: RealTimeMemData, f: Bytes, pos: nat, bno: nat, size: nat, codeBytes: nat, ghost saved: State,
      ghost tail: Bytes, ghost refused: seq<bool>)
    returns (ok: bool, next: nat)
    requires Progress(d, f, pos, bno, codeBytes, saved, tail, refused) == true
    requires bno < |saved.buckets| == |d.idxArray| == |d.codesArray| == |refused| && size == |saved.buckets[bno]|
    modifies d, d.idxArray[bno], d.codesArray[bno]
    ensures Untouched(d, old(d.idxArray), old(d.codesArray), bno + 1) && d.Represents() == true
    ensures ok <==> !refused[bno]
    ensures ok ==> Progress(d, f, next, bno + 1, codeBytes, saved, tail, refused) == true
  {
    hide Progress, RefusedAt, ListsOf, CodesOf, IdsOf, Loading, SlotsPointedAt, Storable, WouldRefuse;
    ok, next := true, pos;
    if size == 0 {
      NothingToLoad(d, f, pos, bno, codeBytes, saved, tail, refused);
      return;
    }
    ghost var s := d.model;
    AboutToLoad(d, f, pos, bno, codeBytes, saved, tail, refused);
    var ret := d.ExtendBucketIfNeed(bno, size);
    if ret != 0 {
      ok := false;
      return;
    }
    next := FillOne(d, f, pos, bno, size, codeBytes, saved, s, tail, refused);
  }

  /** The bucket has room: read it. */
  method FillOne(d: RealTimeMemData, f: Bytes, pos: nat, bno: nat, size: nat, codeBytes: nat, ghost saved: State,
      ghost s: State, ghost tail: Bytes, ghost refused: seq<bool>)
    returns (next: nat)
    requires d.Represents() && Loading(saved, s, bno) && SlotsPointedAt(saved) && Storable(saved.buckets, codeBytes)
    requires bno < |saved.buckets| == |refused| && size == |saved.buckets[bno]|
    requires Extended(s, d.model, bno, size)
    requires pos <= |f| && f[pos..] ==
             CodesOf(saved.buckets[bno]) + IdsOf(saved.buckets[bno]) + (ListsOf(saved.buckets[bno + 1..]) + tail)
    requires forall c :: bno < c < |refused| ==>
             refused[c] == WouldRefuse(d, |s.buckets[c]|, s.caps[c], |saved.buckets[c]|)
    modifies d, d.idxArray[bno], d.codesArray[bno]
    ensures Progress(d, f, next, bno + 1, codeBytes, saved, tail, refused) == true
    ensures d.Represents() == true
    ensures d.idxArray == old(d.idxArray) && d.codesArray == old(d.codesArray)
  {
    LoadStep(saved, s, d.model, bno);
    next := LoadList(d, f, pos, bno, size, codeBytes, saved.buckets[bno], ListsOf(saved.buckets[bno + 1..]) + tail);
    Unrefused(d, saved, s, bno, refused);
  }

  /** Buckets not reached yet keep their length and capacity, so they are refused as before. */
  lemma Unrefused(d: RealTimeMemData, saved: State, s: State, bno: nat, refused: seq<bool>)
    requires d.Sized() && |s.buckets| == |s.caps| == |refused| == |saved.buckets| == |d.model.buckets| &&
             bno < |refused|
    requires forall c :: bno < c < |s.caps| ==> d.model.caps[c] == s.caps[c] && d.model.buckets[c] == s.buckets[c]
    requires forall c :: bno < c < |s.caps| ==>
             refused[c] == WouldRefuse(d, |s.buckets[c]|, s.caps[c], |saved.buckets[c]|)
    ensures forall c :: bno < c < |refused| ==> refused[c] == RefusedAt(d, saved, c)
  {
  }

  predicate WouldRefuse(d: RealTimeMemData, n: nat, cap: nat, more: nat) {
    more > 0 && n + more > cap && cap * 2 >= d.bucketKeysLimit
  }

  /**
    Loading a saved file, possibly followed by other data, into a fresh index.  A different shape
    is refused before anything changes; a bucket that cannot grow stops the load; otherwise the
    saved contents are back.
   */
  method ReadInvertedLists(d: RealTimeMemData, f: Bytes, codeBytes: nat, ghost saved: State, ghost savedBytes: nat,
      ghost tail: Bytes)
    returns (status: int)
    requires d.Represents() == true && FreshIndex(d.model) == true && d.model.deleted == saved.deleted
    requires SlotsPointedAt(saved) == true && Storable(saved.buckets, savedBytes) == true &&
             f == Image(saved.buckets, savedBytes) + tail
    modifies d, d.idxArray, d.codesArray
    ensures d.Represents() == true && (status == 0 || status == 101 || status == 300)
    ensures status == 101 <==> |saved.buckets| != |old(d.model).buckets| || savedBytes != codeBytes
    ensures status == 101 ==> d.model == old(d.model)
    ensures status != 101 ==> (status == 300 <==> old(Refused(d, saved)))
    ensures status == 0 ==> Restored(d.docOf, saved, d.model) == true
  {
    ghost var buckets := saved.buckets;
    ghost var rest := SizesOf(buckets) + ListsOf(buckets) + tail;
    var bucketsNum := d.BucketsNum();
    hide RealTimeMemData.Represents, Refused, Restored, SlotsPointedAt, FreshIndex, Loading;
    ImageSplit(buckets, savedBytes, tail);
    hide Image, HeaderOf, SizesOf, ListsOf;
    var n, bytes, next := ReadHeader(f, |buckets|, savedBytes, rest);
    if n != bucketsNum || bytes != codeBytes {
      return 101;
    }
    status := ReadLists(d, f, next, n, codeBytes, saved, tail);
    if status == 0 {
      LoadRestoresAll(d.docOf, saved, d.model);
    }
  }

  lemma ImageSplit(buckets: seq<seq<Slot>>, codeBytes: nat, tail: Bytes)
    requires Storable(buckets, codeBytes)
    ensures Image(buckets, codeBytes) + tail ==
            HeaderOf(|buckets|, codeBytes) + (SizesOf(buckets) + ListsOf(buckets) + tail)
  {
    var head, sizes, lists := HeaderOf(|buckets|, codeBytes), SizesOf(buckets), ListsOf(buckets);
    hide HeaderOf, SizesOf, ListsOf;
    Regroup(head + sizes, lists, tail);
    Regroup(head, sizes, lists + tail);
    Regroup(sizes, lists, tail);
  }

  /** The saved index is back, whatever it was. */
  ghost predicate Restored(docOf: DocOf, m: State, s: State) {
    && s.buckets == m.buckets
    && (Sound(docOf, m) ==>
          && Sound(docOf, s) && View(docOf, s) == View(docOf, m)
          && (Inv(docOf, s) <==> forall b: nat, p: nat :: !BitmapDead(docOf, m, b, p)))
  }

  lemma LoadRestoresAll(docOf: DocOf, m: State, s: State)
    requires Loading(m, s, |m.buckets|)
    ensures Restored(docOf, m, s)
  {
    assert s.buckets == m.buckets;
    if Sound(docOf, m) {
      LoadRestores(docOf, m, s);
    }
  }

  method ReadLists(d: RealTimeMemData, f: Bytes, pos: nat, n: nat, codeBytes: nat, ghost saved: State,
      ghost tail: Bytes)
    returns (status: int)
    requires d.Represents() == true && FreshIndex(d.model) == true && d.model.deleted == saved.deleted
    requires SlotsPointedAt(saved) == true && Storable(saved.buckets, codeBytes) == true &&
             n == |saved.buckets| == |d.idxArray|
    requires pos <= |f| && f[pos..] == Word(n, 8) + (SizesOf(saved.buckets) + ListsOf(saved.buckets) + tail)
    modifies d, d.idxArray, d.codesArray
    ensures d.Represents() == true && (status == 0 || status == 300)
    ensures status == 300 <==> old(Refused(d, saved))
    ensures status == 0 ==> Loading(saved, d.model, n) == true
  {
    ghost var buckets := saved.buckets;
    var size, next := ReadWord(f, pos, 8, n, SizesOf(buckets) + ListsOf(buckets) + tail) by { Powers(); }
    assert f[next..] == SizesOf(buckets) + (ListsOf(buckets) + tail);
    var sizes;
    sizes, next := ReadSizes(f, next, n, buckets, ListsOf(buckets) + tail);
    assert Loading(saved, d.model, 0) && buckets[0..] == buckets;
    status := LoadLists(d, f, next, n, sizes, codeBytes, saved, tail, Refusals(d, saved));
  }

  method LoadLists(d: RealTimeMemData, f: Bytes, pos: nat, n: nat, sizes: seq<nat>, codeBytes: nat, ghost saved: State,
      ghost tail: Bytes, ghost refused: seq<bool>)
    returns (status: int)
    requires Progress(d, f, pos, 0, codeBytes, saved, tail, refused) == true
    requires |d.idxArray| == |d.codesArray| == |saved.buckets| == |refused| == n
    requires |sizes| == n && forall b :: 0 <= b < n ==> sizes[b] == |saved.buckets[b]|
    modifies d, d.idxArray, d.codesArray
    ensures d.Represents() == true && (status == 0 || status == 300)
    ensures status == 300 <==> true in refused
    ensures status == 0 ==> Loading(saved, d.model, n) == true
  {
    hide Progress;
    var next: nat := pos;
    for bno := 0 to n
      invariant Progress(d, f, next, bno, codeBytes, saved, tail, refused) == true
      invariant Untouched(d, old(d.idxArray), old(d.codesArray), bno)
      invariant forall c :: 0 <= c < bno ==> !refused[c]
    {
      var ok;
      ok, next := LoadOne(d, f, next, bno, sizes[bno], codeBytes, saved, tail, refused);
      if !ok {
        return 300;
      }
    }
    AllLoaded(d, f, next, n, codeBytes, saved, tail, refused);
    status := 0;
  }

  lemma AllLoaded(d: RealTimeMemData, f: Bytes, pos: int, n: nat, codeBytes: nat, saved: State, tail: Bytes,
      refused: seq<bool>)
    requires Progress(d, f, pos, n, codeBytes, saved, tail, refused) == true
    ensures d.Represents() == true && Loading(saved, d.model, n) == true
  {
  }

  lemma ListsOfHead(buckets: seq<seq<Slot>>, b: nat, tail: Bytes)
    requires b < |buckets| && forall c :: 0 <= c < |buckets| ==> VidsFit(buckets[c])
    ensures ListsOf(buckets[b..]) + tail == CodesOf(buckets[b]) + IdsOf(buckets[b]) + (ListsOf(buckets[b + 1..]) + tail)
  {
    assert buckets[b..][1..] == buckets[b + 1..];
  }
}
