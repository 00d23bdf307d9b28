/**
  The realtime inverted index as a value: buckets of slots, the reverse table from vector id
  to slot, the dead counters and the deleted-document bitmap.  The class `RealTimeMemData`
  (module RealtimeMemory) is proved to compute exactly these functions on its buffers.

  The abstract meaning of a state is `View`: a map from live vector id to (bucket, code).
 */
module RealtimeIndex {
  import opened FileBytes
  import opened Wrappers

  type Code = Bytes

  /** One occupied position of a bucket; `tomb` is bit 63 of the stored id. */
  datatype Slot = Slot(vid: nat, tomb: bool, code: Code)

  /** One unpacked entry of `vid_bucket_no_pos_`. */
  datatype Loc = Unset | At(bucket: nat, pos: nat)

  datatype State = State(
    buckets: seq<seq<Slot>>,
    caps: seq<nat>,       // cur_bucket_keys_
    rev: seq<Loc>,        // vid_bucket_no_pos_
    dead: seq<int>,       // deleted_nums_
    compacted: int,       // compacted_num_
    deleted: set<int>)    // docids_bitmap_

  type DocOf = nat -> int

  predicate Live(docOf: DocOf, s: State, v: nat) {
    docOf(v) !in s.deleted
  }

  predicate SlotLive(docOf: DocOf, deleted: set<int>, slot: Slot) {
    !slot.tomb && docOf(slot.vid) !in deleted
  }

  // ----- The invariant -----

  predicate InRange(loc: Loc, n: nat) {
    loc.At? ==> loc.bucket < n
  }

  predicate AllInRange(rev: seq<Loc>, n: nat) {
    forall v :: 0 <= v < |rev| ==> InRange(rev[v], n)
  }

  predicate Shape(s: State) {
    && |s.rev| > 0
    && |s.caps| == |s.buckets| == |s.dead|
    && (forall b :: 0 <= b < |s.buckets| ==> |s.buckets[b]| <= s.caps[b])
    && AllInRange(s.rev, |s.buckets|)
  }

  /** Every untombstoned slot is the one its vector's reverse entry points at. */
  predicate SlotsPointedAt(s: State) {
    forall b, p :: 0 <= b < |s.buckets| && 0 <= p < |s.buckets[b]| && !s.buckets[b][p].tomb ==>
      s.buckets[b][p].vid < |s.rev| && s.rev[s.buckets[b][p].vid] == At(b, p)
  }

  predicate Resolves(s: State, v: nat)
    requires v < |s.rev| && s.rev[v].At?
  {
    var At(b, p) := s.rev[v];
    b < |s.buckets| && p < |s.buckets[b]| && s.buckets[b][p].vid == v && !s.buckets[b][p].tomb
  }

  /** The reverse entry of a live vector leads to its slot; that of a dead one may be stale. */
  predicate LiveResolve(docOf: DocOf, s: State) {
    forall v :: 0 <= v < |s.rev| && s.rev[v].At? && Live(docOf, s, v) ==> Resolves(s, v)
  }

  /** How many slots of a bucket a search must skip. */
  function DeadCount(docOf: DocOf, deleted: set<int>, slots: seq<Slot>): nat {
    if slots == [] then 0
    else DeadCount(docOf, deleted, slots[..|slots| - 1]) +
         (if SlotLive(docOf, deleted, slots[|slots| - 1]) then 0 else 1)
  }

  predicate CountersExact(docOf: DocOf, s: State)
    requires |s.dead| == |s.buckets|
  {
    forall b :: 0 <= b < |s.buckets| ==> s.dead[b] == DeadCount(docOf, s.deleted, s.buckets[b])
  }

  /** What a search needs; it leaves out the counters. */
  predicate Sound(docOf: DocOf, s: State) {
    Shape(s) && SlotsPointedAt(s) && LiveResolve(docOf, s)
  }

  predicate Inv(docOf: DocOf, s: State) {
    Sound(docOf, s) && CountersExact(docOf, s)
  }

  // ----- The abstraction -----

  type ViewMap = map<nat, (nat, Code)>

  function View(docOf: DocOf, s: State): ViewMap
    requires Sound(docOf, s)
  {
    map v: nat | 0 <= v < |s.rev| && s.rev[v].At? && Live(docOf, s, v) ::
      (s.rev[v].bucket, s.buckets[s.rev[v].bucket][s.rev[v].pos].code)
  }

  /** A slot that a scan of bucket `b` returns for vector `v`. */
  predicate Finds(docOf: DocOf, s: State, v: nat, b: nat, p: nat) {
    b < |s.buckets| && p < |s.buckets[b]| && s.buckets[b][p].vid == v && SlotLive(docOf, s.deleted, s.buckets[b][p])
  }

  /**
    Scanning the buckets and reading the view agree: a vector is in the view exactly when some
    slot is found for it, that slot is unique, and it holds the code of the view.
   */
  lemma ScanMatchesView(docOf: DocOf, s: State, v: nat)
    requires Inv(docOf, s)
    ensures v in View(docOf, s) <==> exists b: nat, p: nat :: Finds(docOf, s, v, b, p)
    ensures forall b: nat, p: nat, b': nat, p': nat ::
              Finds(docOf, s, v, b, p) && Finds(docOf, s, v, b', p') ==> b == b' && p == p'
    ensures forall b: nat, p: nat :: Finds(docOf, s, v, b, p) ==>
              v in View(docOf, s) && View(docOf, s)[v] == (b, s.buckets[b][p].code)
  {
    if v in View(docOf, s) {
      assert Resolves(s, v);
      assert Finds(docOf, s, v, s.rev[v].bucket, s.rev[v].pos);
    }
    forall b: nat, p: nat | Finds(docOf, s, v, b, p)
      ensures v in View(docOf, s) && View(docOf, s)[v] == (b, s.buckets[b][p].code)
    {
      assert s.rev[v] == At(b, p);
    }
  }

  // ----- Growing the reverse table -----

  function Unsets(n: nat): (r: seq<Loc>)
    ensures |r| == n && forall i :: 0 <= i < n ==> r[i] == Unset
  {
    seq(n, _ => Unset)
  }

  function ExtendIds(s: State): State {
    s.(rev := s.rev + Unsets(|s.rev|))
  }

  /** The reverse table doubled until it has an entry for `v`. */
  function GrowTo(rev: seq<Loc>, v: nat): (r: seq<Loc>)
    requires |rev| > 0
    ensures rev <= r && v < |r|
    ensures forall i :: |rev| <= i < |r| ==> r[i] == Unset
    decreases v - |rev|
  {
    if v < |rev| then rev else GrowTo(rev + Unsets(|rev|), v)
  }

  lemma RevTailKeeps(docOf: DocOf, s: State, s': State)
    requires Inv(docOf, s) && s.rev <= s'.rev
    requires s' == s.(rev := s'.rev)
    requires forall i :: |s.rev| <= i < |s'.rev| ==> s'.rev[i] == Unset
    ensures Inv(docOf, s') && View(docOf, s') == View(docOf, s)
  {
    forall v | 0 <= v < |s'.rev| && s'.rev[v].At? && Live(docOf, s', v)
      ensures Resolves(s', v)
    {
      assert v < |s.rev| && s.rev[v] == s'.rev[v] && Resolves(s, v);
    }
    hide SlotsPointedAt, CountersExact, Shape;
    assert View(docOf, s').Keys == View(docOf, s).Keys;
  }

  /** Doubling the reverse table changes neither the invariant nor the view. */
  lemma ExtendIdsKeeps(docOf: DocOf, s: State)
    requires Inv(docOf, s)
    ensures Inv(docOf, ExtendIds(s)) && View(docOf, ExtendIds(s)) == View(docOf, s)
  {
    RevTailKeeps(docOf, s, ExtendIds(s));
  }

  /** Reallocating a bucket: only its capacity changes, and never below its length. */
  predicate Extended(s: State, s': State, b: nat, least: nat) {
    && b < |s.caps| == |s'.caps|
    && s'.caps[b] >= least
    && s' == s.(caps := s.caps[b := s'.caps[b]])
  }

  lemma ExtendBucketKeeps(docOf: DocOf, s: State, s': State, b: nat, least: nat)
    requires Inv(docOf, s) && Extended(s, s', b, least) && least >= |s.buckets[b]|
    ensures Inv(docOf, s') && View(docOf, s') == View(docOf, s)
  {
    forall v | 0 <= v < |s'.rev| && s'.rev[v].At? && Live(docOf, s', v)
      ensures Resolves(s', v)
    {
      assert Resolves(s, v);
    }
  }

  // ----- Adding -----

  /** The counter bump of `RTInvertBucketData::Delete` for one vector. */
  function CountDelete(s: State, v: nat): State
    requires v < |s.rev| && (s.rev[v].At? ==> s.rev[v].bucket < |s.dead|)
  {
    if s.rev[v].Unset? then s else s.(dead := s.dead[s.rev[v].bucket := s.dead[s.rev[v].bucket] + 1])
  }

  function Append(s: State, b: nat, v: nat, code: Code): State
    requires b < |s.buckets| && |s.rev| > 0
  {
    var rev := GrowTo(s.rev, v);
    s.(buckets := s.buckets[b := s.buckets[b] + [Slot(v, false, code)]],
       rev := rev[v := At(b, |s.buckets[b]|)])
  }

  /** One iteration of the loop of `AddKeys`. */
  function AddOne(docOf: DocOf, s: State, b: nat, v: nat, code: Code): State
    requires b < |s.buckets| == |s.dead| && |s.rev| > 0
  {
    var s1 := Append(s, b, v, code);
    if Live(docOf, s1, v) then s1 else CountDelete(s1, v)
  }

  function AddAll(docOf: DocOf, s: State, b: nat, keys: seq<nat>, codes: seq<Code>): (s': State)
    requires b < |s.buckets| == |s.dead| && |s.rev| > 0 && |keys| == |codes|
    ensures |s'.buckets| == |s.buckets| && |s'.dead| == |s.dead| && |s'.rev| > 0
    ensures s'.caps == s.caps && s'.deleted == s.deleted && s'.compacted == s.compacted
    ensures |s'.buckets[b]| == |s.buckets[b]| + |keys|
    decreases |keys|
  {
    if keys == [] then s
    else
      var n := |keys| - 1;
      AddOne(docOf, AddAll(docOf, s, b, keys[..n], codes[..n]), b, keys[n], codes[n])
  }

  /** The vector has never been indexed. */
  predicate Fresh(s: State, v: nat) {
    v < |s.rev| ==> s.rev[v].Unset?
  }

  function Bind(docOf: DocOf, deleted: set<int>, m: ViewMap, b: nat, v: nat, code: Code): ViewMap {
    if docOf(v) in deleted then m else m[v := (b, code)]
  }

  function BindAll(docOf: DocOf, deleted: set<int>, m: ViewMap, b: nat, keys: seq<nat>, codes: seq<Code>): ViewMap
    requires |keys| == |codes|
  {
    if keys == [] then m
    else
      var n := |keys| - 1;
      Bind(docOf, deleted, BindAll(docOf, deleted, m, b, keys[..n], codes[..n]), b, keys[n], codes[n])
  }

  lemma DeadCountAppend(docOf: DocOf, deleted: set<int>, slots: seq<Slot>, slot: Slot)
    ensures DeadCount(docOf, deleted, slots + [slot]) ==
            DeadCount(docOf, deleted, slots) + (if SlotLive(docOf, deleted, slot) then 0 else 1)
  {
    assert (slots + [slot])[..|slots|] == slots;
  }

  /** The invariant and the view with one vector left out: its old slot, if any, is tombstoned. */
  predicate InvExcept(docOf: DocOf, s: State, v: nat) {
    && Shape(s) && SlotsPointedAt(s) && CountersExact(docOf, s)
    && (forall u :: 0 <= u < |s.rev| && u != v && s.rev[u].At? && Live(docOf, s, u) ==> Resolves(s, u))
    && (v < |s.rev| && s.rev[v].At? ==> !Resolves(s, v))
  }

  function ViewExcept(docOf: DocOf, s: State, v: nat): ViewMap
    requires InvExcept(docOf, s, v)
  {
    map u: nat | 0 <= u < |s.rev| && u != v && s.rev[u].At? && Live(docOf, s, u) ::
      (s.rev[u].bucket, s.buckets[s.rev[u].bucket][s.rev[u].pos].code)
  }

  lemma AppendShape(docOf: DocOf, s: State, b: nat, v: nat, code: Code)
    requires InvExcept(docOf, s, v) && b < |s.buckets| && |s.buckets[b]| < s.caps[b]
    ensures Shape(AddOne(docOf, s, b, v, code)) && CountersExact(docOf, AddOne(docOf, s, b, v, code))
  {
    DeadCountAppend(docOf, s.deleted, s.buckets[b], Slot(v, false, code));
    assert InRange(At(b, |s.buckets[b]|), |s.buckets|) && InRange(Unset, |s.buckets|);
  }

  lemma AppendPointedAt(docOf: DocOf, s: State, b: nat, v: nat, code: Code)
    requires InvExcept(docOf, s, v) && b < |s.buckets| && |s.buckets[b]| < s.caps[b]
    ensures SlotsPointedAt(AddOne(docOf, s, b, v, code))
  {
    var s' := AddOne(docOf, s, b, v, code);
    forall c, p | 0 <= c < |s'.buckets| && 0 <= p < |s'.buckets[c]| && !s'.buckets[c][p].tomb
      ensures s'.buckets[c][p].vid < |s'.rev| && s'.rev[s'.buckets[c][p].vid] == At(c, p)
    {
      if c != b || p < |s.buckets[b]| {
        assert s'.buckets[c][p] == s.buckets[c][p];
        var u := s.buckets[c][p].vid;
        assert u < |s.rev| && s.rev[u] == At(c, p) && Resolves(s, u);
      }
    }
  }

  lemma AppendSound(docOf: DocOf, s: State, b: nat, v: nat, code: Code)
    requires InvExcept(docOf, s, v) && b < |s.buckets| && |s.buckets[b]| < s.caps[b]
    ensures Inv(docOf, AddOne(docOf, s, b, v, code))
  {
    AppendShape(docOf, s, b, v, code);
    AppendPointedAt(docOf, s, b, v, code);
    var s' := AddOne(docOf, s, b, v, code);
    forall u | 0 <= u < |s'.rev| && s'.rev[u].At? && Live(docOf, s', u)
      ensures Resolves(s', u)
    {
      if u != v {
        assert u < |s.rev| && s.rev[u] == s'.rev[u] && Resolves(s, u);
      }
    }
  }

  /** What a reader of the view sees of an append: one new slot, one new entry, the rest as before. */
  predicate AppendsTo(s: State, s': State, b: nat, v: nat, code: Code) {
    && b < |s.buckets| && s'.deleted == s.deleted
    && s'.buckets == s.buckets[b := s.buckets[b] + [Slot(v, false, code)]]
    && |s.rev| <= |s'.rev| && v < |s'.rev| && s'.rev[v] == At(b, |s.buckets[b]|)
    && (forall u :: 0 <= u < |s.rev| && u != v ==> s'.rev[u] == s.rev[u])
    && (forall u :: |s.rev| <= u < |s'.rev| && u != v ==> s'.rev[u] == Unset)
  }

  lemma AppendViewAt(docOf: DocOf, s: State, s': State, b: nat, v: nat, code: Code, u: nat)
    requires InvExcept(docOf, s, v) && AppendsTo(s, s', b, v, code)
    requires Inv(docOf, s') && u != v
    ensures var V', W := View(docOf, s'), ViewExcept(docOf, s, v);
            (u in V' <==> u in W) && (u in V' ==> V'[u] == W[u])
  {
    if u < |s.rev| && s.rev[u].At? && Live(docOf, s, u) {
      assert Resolves(s, u);
    }
  }

  lemma AppendView(docOf: DocOf, s: State, b: nat, v: nat, code: Code)
    requires InvExcept(docOf, s, v) && b < |s.buckets| && |s.buckets[b]| < s.caps[b]
    requires Inv(docOf, AddOne(docOf, s, b, v, code))
    ensures View(docOf, AddOne(docOf, s, b, v, code)) ==
            Bind(docOf, s.deleted, ViewExcept(docOf, s, v), b, v, code)
  {
    var s' := AddOne(docOf, s, b, v, code);
    assert AppendsTo(s, s', b, v, code);
    hide SlotsPointedAt, CountersExact, Shape, AddOne, LiveResolve;
    forall u: nat | u != v {
      AppendViewAt(docOf, s, s', b, v, code, u);
    }
  }

  lemma AddOneKeeps(docOf: DocOf, s: State, b: nat, v: nat, code: Code)
    requires Inv(docOf, s) && b < |s.buckets| && |s.buckets[b]| < s.caps[b] && Fresh(s, v)
    ensures Inv(docOf, AddOne(docOf, s, b, v, code))
    ensures View(docOf, AddOne(docOf, s, b, v, code)) == Bind(docOf, s.deleted, View(docOf, s), b, v, code)
    ensures forall u: nat :: u != v && Fresh(s, u) ==> Fresh(AddOne(docOf, s, b, v, code), u)
  {
    AppendSound(docOf, s, b, v, code);
    AppendView(docOf, s, b, v, code);
    assert ViewExcept(docOf, s, v) == View(docOf, s);
  }

  /** `AddKeys` with room and fresh keys keeps the invariant and binds exactly the live keys. */
  lemma {:induction false} AddAllKeeps(docOf: DocOf, s: State, b: nat, keys: seq<nat>, codes: seq<Code>)
    requires Inv(docOf, s) && b < |s.buckets| && |keys| == |codes|
    requires |s.buckets[b]| + |keys| <= s.caps[b]
    requires Distinct(keys) && forall i :: 0 <= i < |keys| ==> Fresh(s, keys[i])
    ensures Inv(docOf, AddAll(docOf, s, b, keys, codes))
    ensures View(docOf, AddAll(docOf, s, b, keys, codes)) == BindAll(docOf, s.deleted, View(docOf, s), b, keys, codes)
    ensures forall u :: u !in keys && Fresh(s, u) ==> Fresh(AddAll(docOf, s, b, keys, codes), u)
    decreases |keys|
  {
    if keys != [] {
      var n := |keys| - 1;
      AddAllKeeps(docOf, s, b, keys[..n], codes[..n]);
      var s1 := AddAll(docOf, s, b, keys[..n], codes[..n]);
      assert keys[n] !in keys[..n];
      AddOneKeeps(docOf, s1, b, keys[n], codes[n]);
      forall u | u !in keys && Fresh(s, u) ensures Fresh(AddAll(docOf, s, b, keys, codes), u) {
        assert u != keys[n] && u !in keys[..n];
      }
    }
  }

  // ----- Updating -----

  function Tombstone(s: State, v: nat): State
    requires v < |s.rev| && s.rev[v].At? && Resolves(s, v) && |s.dead| == |s.buckets|
  {
    var At(b, p) := s.rev[v];
    s.(buckets := s.buckets[b := s.buckets[b][p := s.buckets[b][p].(tomb := true)]],
       dead := s.dead[b := s.dead[b] + 1])
  }

  function Overwrite(s: State, v: nat, code: Code): State
    requires v < |s.rev| && s.rev[v].At? && Resolves(s, v)
  {
    var At(b, p) := s.rev[v];
    s.(buckets := s.buckets[b := s.buckets[b][p := s.buckets[b][p].(code := code)]])
  }

  /** `Update` is a no-op, an in-place overwrite, or a move. */
  predicate Unindexed(s: State, v: nat) {
    v >= |s.rev| || s.rev[v].Unset?
  }

  /** The move of an update to another bucket, when that bucket takes the slot. */
  function Move(docOf: DocOf, s: State, b: nat, v: nat, code: Code): State
    requires b < |s.buckets| == |s.dead| && v < |s.rev| && s.rev[v].At? && Resolves(s, v)
  {
    AddOne(docOf, Tombstone(s, v), b, v, code)
  }

  lemma DeadCountUpdate(docOf: DocOf, deleted: set<int>, slots: seq<Slot>, p: nat, slot: Slot)
    requires p < |slots|
    ensures DeadCount(docOf, deleted, slots[p := slot]) ==
            DeadCount(docOf, deleted, slots)
            - (if SlotLive(docOf, deleted, slots[p]) then 0 else 1)
            + (if SlotLive(docOf, deleted, slot) then 0 else 1)
  {
    var n := |slots| - 1;
    if p < n {
      DeadCountUpdate(docOf, deleted, slots[..n], p, slot);
      assert slots[p := slot][..n] == slots[..n][p := slot];
    } else {
      assert slots[p := slot][..n] == slots[..n];
    }
  }

  lemma OverwriteSound(docOf: DocOf, s: State, v: nat, code: Code)
    requires Inv(docOf, s) && v < |s.rev| && s.rev[v].At? && Resolves(s, v)
    ensures Inv(docOf, Overwrite(s, v, code))
  {
    var s' := Overwrite(s, v, code);
    var At(b, p) := s.rev[v];
    DeadCountUpdate(docOf, s.deleted, s.buckets[b], p, s.buckets[b][p].(code := code));
    forall u | 0 <= u < |s'.rev| && s'.rev[u].At? && Live(docOf, s', u) ensures Resolves(s', u) {
      assert Resolves(s, u);
    }
  }

  /** Overwriting in place changes one code of the view and nothing else; for a deleted document not even that. */
  lemma OverwriteKeeps(docOf: DocOf, s: State, v: nat, code: Code)
    requires Inv(docOf, s) && v < |s.rev| && s.rev[v].At? && (Live(docOf, s, v) || Resolves(s, v))
    ensures Resolves(s, v) && Inv(docOf, Overwrite(s, v, code))
    ensures View(docOf, Overwrite(s, v, code)) ==
            if Live(docOf, s, v) then View(docOf, s)[v := (s.rev[v].bucket, code)] else View(docOf, s)
  {
    OverwriteSound(docOf, s, v, code);
    forall u: nat | u != v {
      OverwriteViewAt(docOf, s, v, code, u);
    }
  }

  lemma OverwriteViewAt(docOf: DocOf, s: State, v: nat, code: Code, u: nat)
    requires Inv(docOf, s) && v < |s.rev| && s.rev[v].At? && u != v
    requires Resolves(s, v) && Inv(docOf, Overwrite(s, v, code))
    ensures var V', V := View(docOf, Overwrite(s, v, code)), View(docOf, s);
            (u in V' <==> u in V) && (u in V' ==> V'[u] == V[u])
  {
    if u < |s.rev| && s.rev[u].At? && Live(docOf, s, u) {
      assert Resolves(s, u);
    }
  }

  lemma TombstoneSound(docOf: DocOf, s: State, v: nat)
    requires Inv(docOf, s) && v < |s.rev| && s.rev[v].At? && Live(docOf, s, v)
    ensures Resolves(s, v) && InvExcept(docOf, Tombstone(s, v), v)
  {
    var t := Tombstone(s, v);
    var At(b, p) := s.rev[v];
    DeadCountUpdate(docOf, s.deleted, s.buckets[b], p, s.buckets[b][p].(tomb := true));
    forall u | 0 <= u < |t.rev| && u != v && t.rev[u].At? && Live(docOf, t, u) ensures Resolves(t, u) {
      assert Resolves(s, u);
    }
  }

  lemma TombstoneViewAt(docOf: DocOf, s: State, v: nat, u: nat)
    requires Inv(docOf, s) && v < |s.rev| && s.rev[v].At? && Live(docOf, s, v) && u != v
    requires Resolves(s, v) && InvExcept(docOf, Tombstone(s, v), v)
    ensures var W, V := ViewExcept(docOf, Tombstone(s, v), v), View(docOf, s);
            (u in W <==> u in V) && (u in W ==> W[u] == V[u])
  {
    if u < |s.rev| && s.rev[u].At? && Live(docOf, s, u) {
      assert Resolves(s, u);
    }
  }

  lemma TombstoneFacts(docOf: DocOf, s: State, v: nat)
    requires Inv(docOf, s) && v < |s.rev| && s.rev[v].At? && Live(docOf, s, v)
    ensures Resolves(s, v) && InvExcept(docOf, Tombstone(s, v), v)
    ensures ViewExcept(docOf, Tombstone(s, v), v) == map u | u in View(docOf, s) && u != v :: View(docOf, s)[u]
  {
    TombstoneSound(docOf, s, v);
    forall u: nat | u != v {
      TombstoneViewAt(docOf, s, v, u);
    }
  }

  /** A move tombstones one slot, adds one, and rebinds the vector. */
  lemma MoveKeeps(docOf: DocOf, s: State, b: nat, v: nat, code: Code)
    requires Inv(docOf, s) && v < |s.rev| && s.rev[v].At? && Live(docOf, s, v)
    requires b < |s.buckets| && b != s.rev[v].bucket && |s.buckets[b]| < s.caps[b]
    ensures Resolves(s, v) && Inv(docOf, Move(docOf, s, b, v, code))
    ensures View(docOf, Move(docOf, s, b, v, code)) == View(docOf, s)[v := (b, code)]
  {
    TombstoneFacts(docOf, s, v);
    var t := Tombstone(s, v);
    assert t.deleted == s.deleted && |t.buckets[b]| < t.caps[b];
    AppendSound(docOf, t, b, v, code);
    AppendView(docOf, t, b, v, code);
    RebindAfterDrop(View(docOf, s), v, (b, code));
  }

  lemma RebindAfterDrop(m: ViewMap, v: nat, x: (nat, Code))
    ensures (map u | u in m && u != v :: m[u])[v := x] == m[v := x]
  {
  }

  /**
    When the target bucket refuses the slot, the old slot is already tombstoned: the vector is
    still live but its reverse entry leads to a dead slot, so no scan finds it and the
    invariant is lost.
   */
  lemma RefusedMoveBreaks(docOf: DocOf, s: State, v: nat)
    requires Inv(docOf, s) && v < |s.rev| && s.rev[v].At? && Live(docOf, s, v)
    ensures Resolves(s, v) && !Sound(docOf, Tombstone(s, v))
    ensures forall b: nat, p: nat :: !Finds(docOf, Tombstone(s, v), v, b, p)
  {
    TombstoneFacts(docOf, s, v);
    var t := Tombstone(s, v);
    assert t.rev[v] == s.rev[v];
    assert t.buckets[s.rev[v].bucket][s.rev[v].pos].tomb;
  }

  /**
    An update that comes after its document was deleted, which counted the slot as dead, counts it
    once more: nothing that a search sees changes, but the old bucket's counter is one too high.
   */
  lemma DeadMoveMiscounts(docOf: DocOf, s: State, b: nat, v: nat, code: Code)
    requires Inv(docOf, s) && v < |s.rev| && s.rev[v].At? && Resolves(s, v) && !Live(docOf, s, v)
    requires b < |s.buckets| && b != s.rev[v].bucket && |s.buckets[b]| < s.caps[b]
    ensures Sound(docOf, Move(docOf, s, b, v, code)) && View(docOf, Move(docOf, s, b, v, code)) == View(docOf, s)
    ensures var c, s' := s.rev[v].bucket, Move(docOf, s, b, v, code);
            s'.dead[c] == DeadCount(docOf, s'.deleted, s'.buckets[c]) + 1
  {
    var u := Tombstone(s, v).(dead := s.dead);
    DeadTombstone(docOf, s, v);
    AppendSound(docOf, u, b, v, code);
    AppendView(docOf, u, b, v, code);
    DeadViewExcept(docOf, s, v);
    var good, s', c := AddOne(docOf, u, b, v, code), Move(docOf, s, b, v, code), s.rev[v].bucket;
    hide Inv, View, ViewExcept, InvExcept, DeadCount;
    assert s' == good.(dead := s'.dead) && |s'.dead| == |good.dead| && s'.dead[c] == good.dead[c] + 1;
    OnlyCounters(docOf, good, s');
  }

  lemma OnlyCounters(docOf: DocOf, s: State, s': State)
    requires Inv(docOf, s) && s' == s.(dead := s'.dead) && |s'.dead| == |s.dead|
    ensures Sound(docOf, s') && View(docOf, s') == View(docOf, s)
    ensures forall b :: 0 <= b < |s.dead| ==> s.dead[b] == DeadCount(docOf, s'.deleted, s'.buckets[b])
  {
    forall v: nat | v < |s'.rev| && s'.rev[v].At? && Live(docOf, s', v) ensures Resolves(s', v) {
      assert Resolves(s, v);
    }
  }

  lemma DeadViewExcept(docOf: DocOf, s: State, v: nat)
    requires Inv(docOf, s) && v < |s.rev| && s.rev[v].At? && Resolves(s, v) && !Live(docOf, s, v)
    requires InvExcept(docOf, Tombstone(s, v).(dead := s.dead), v)
    ensures ViewExcept(docOf, Tombstone(s, v).(dead := s.dead), v) == View(docOf, s)
  {
    forall x: nat | x < |s.rev| && s.rev[x].At? && Live(docOf, s, x) ensures Resolves(s, x) { }
  }

  /** The slot was dead already. */
  lemma DeadTombstone(docOf: DocOf, s: State, v: nat)
    requires Inv(docOf, s) && v < |s.rev| && s.rev[v].At? && Resolves(s, v) && !Live(docOf, s, v)
    ensures InvExcept(docOf, Tombstone(s, v).(dead := s.dead), v) && !CountersExact(docOf, Tombstone(s, v))
  {
    var u := Tombstone(s, v).(dead := s.dead);
    var At(b, p) := s.rev[v];
    DeadCountUpdate(docOf, s.deleted, s.buckets[b], p, s.buckets[b][p].(tomb := true));
    forall x | 0 <= x < |u.rev| && x != v && u.rev[x].At? && Live(docOf, u, x) ensures Resolves(u, x) {
      assert Resolves(s, x);
    }
    assert Tombstone(s, v).dead[b] != DeadCount(docOf, s.deleted, u.buckets[b]);
  }

  /** Two vectors, one to a bucket: once the first one's move is refused no scan finds it. */
  lemma ARefusedMove(docOf: DocOf, x: Code, y: Code)
    ensures var s := State([[Slot(0, false, x)], [Slot(1, false, y)]], [1, 1], [At(0, 0), At(1, 0)], [0, 0], 0, {});
            && Inv(docOf, s) && 0 in View(docOf, s) && !Sound(docOf, Tombstone(s, 0))
            && forall b: nat, p: nat :: !Finds(docOf, Tombstone(s, 0), 0, b, p)
  {
    var s := State([[Slot(0, false, x)], [Slot(1, false, y)]], [1, 1], [At(0, 0), At(1, 0)], [0, 0], 0, {});
    assert s.buckets[0][..0] == [] && s.buckets[1][..0] == [];
    assert DeadCount(docOf, {}, s.buckets[0]) == 0 && DeadCount(docOf, {}, s.buckets[1]) == 0;
    assert Inv(docOf, s);
    RefusedMoveBreaks(docOf, s, 0);
  }

  // ----- Deleting -----

  /** `RealTimeMemData::Delete` over a list of vectors; ids beyond the table are skipped. */
  function CountDeletes(s: State, vids: seq<nat>): (s': State)
    requires AllInRange(s.rev, |s.dead|)
    ensures s' == s.(dead := s'.dead) && |s'.dead| == |s.dead|
    decreases |vids|
  {
    if vids == [] then s
    else
      var n := |vids| - 1;
      var s1 := CountDeletes(s, vids[..n]);
      if vids[n] < |s.rev| then CountDelete(s1, vids[n]) else s1
  }

  function MarkDeleted(s: State, doc: int): State {
    s.(deleted := s.deleted + {doc})
  }

  /** Setting the bitmap and telling the index, taken as one step. */
  function DeleteDoc(s: State, doc: int, vids: seq<nat>): State
    requires AllInRange(s.rev, |s.dead|)
  {
    CountDeletes(MarkDeleted(s, doc), vids)
  }

  /** The vector list passed to the index is the document's vectors, each once. */
  predicate VidsOf(docOf: DocOf, s: State, doc: int, vids: seq<nat>) {
    && Distinct(vids)
    && (forall i :: 0 <= i < |vids| ==> docOf(vids[i]) == doc)
    && (forall v :: 0 <= v < |s.rev| && docOf(v) == doc && s.rev[v].At? ==> v in vids)
  }

  /** Slots of bucket `b` that are dead once the vectors in `vids` are deleted too. */
  function HitCount(s: State, b: nat, vids: seq<nat>): nat
    decreases |vids|
  {
    if vids == [] then 0
    else
      var n := |vids| - 1;
      HitCount(s, b, vids[..n]) +
      (if vids[n] < |s.rev| && s.rev[vids[n]].At? && s.rev[vids[n]].bucket == b then 1 else 0)
  }

  lemma {:induction false} CountDeletesIsHits(s: State, vids: seq<nat>, b: nat)
    requires AllInRange(s.rev, |s.dead|)
    requires b < |s.dead|
    ensures CountDeletes(s, vids).dead[b] == s.dead[b] + HitCount(s, b, vids)
    decreases |vids|
  {
    if vids != [] {
      CountDeletesIsHits(s, vids[..|vids| - 1], b);
    }
  }

  /** The positions below `n` of bucket `b` whose live slot belongs to `doc`. */
  function DocSlots(docOf: DocOf, s: State, b: nat, doc: int, n: nat): set<nat>
    requires b < |s.buckets| && n <= |s.buckets[b]|
  {
    set p: nat | p < n && !s.buckets[b][p].tomb && docOf(s.buckets[b][p].vid) == doc
  }

  lemma {:induction false} DeadCountAfterMark(docOf: DocOf, s: State, b: nat, doc: int, n: nat)
    requires b < |s.buckets| && n <= |s.buckets[b]| && doc !in s.deleted
    ensures DeadCount(docOf, s.deleted + {doc}, s.buckets[b][..n]) ==
            DeadCount(docOf, s.deleted, s.buckets[b][..n]) + |DocSlots(docOf, s, b, doc, n)|
    decreases n
  {
    DocSlotsNext(docOf, s, b, doc, n);
    hide DocSlots;
    if n > 0 {
      DeadCountAfterMark(docOf, s, b, doc, n - 1);
      assert s.buckets[b][..n][..n - 1] == s.buckets[b][..n - 1];
    }
  }

  lemma DocSlotsNext(docOf: DocOf, s: State, b: nat, doc: int, n: nat)
    requires b < |s.buckets| && n <= |s.buckets[b]|
    ensures |DocSlots(docOf, s, b, doc, 0)| == 0
    ensures n > 0 ==>
              var slot := s.buckets[b][n - 1];
              |DocSlots(docOf, s, b, doc, n)| ==
              |DocSlots(docOf, s, b, doc, n - 1)| + if !slot.tomb && docOf(slot.vid) == doc then 1 else 0
  {
    assert DocSlots(docOf, s, b, doc, 0) == {};
    if n > 0 {
      var slot := s.buckets[b][n - 1];
      assert DocSlots(docOf, s, b, doc, n) ==
             DocSlots(docOf, s, b, doc, n - 1) + if !slot.tomb && docOf(slot.vid) == doc then {n - 1} else {};
    }
  }

  /** The positions in bucket `b` that the vectors of `vids` point at. */
  function HitSlots(s: State, b: nat, vids: seq<nat>): set<nat> {
    set i | 0 <= i < |vids| && vids[i] < |s.rev| && s.rev[vids[i]].At? &&
        s.rev[vids[i]].bucket == b :: s.rev[vids[i]].pos
  }

  lemma HitIsNew(docOf: DocOf, s: State, b: nat, vids: seq<nat>, v: nat)
    requires Inv(docOf, s) && v !in vids
    requires forall i :: 0 <= i < |vids| ==> Live(docOf, s, vids[i])
    requires v < |s.rev| && s.rev[v].At? && s.rev[v].bucket == b && Live(docOf, s, v)
    ensures s.rev[v].pos !in HitSlots(s, b, vids)
  {
    forall i | 0 <= i < |vids| && vids[i] < |s.rev| && s.rev[vids[i]].At? && s.rev[vids[i]].bucket == b
      ensures s.rev[vids[i]].pos != s.rev[v].pos
    {
      assert Resolves(s, vids[i]) && Resolves(s, v);
    }
  }

  lemma HitSlotsSnoc(s: State, b: nat, vids: seq<nat>, v: nat)
    ensures HitSlots(s, b, vids + [v]) == HitSlots(s, b, vids) +
              (if v < |s.rev| && s.rev[v].At? && s.rev[v].bucket == b then {s.rev[v].pos} else {})
  {
    var w := vids + [v];
    forall p | p in HitSlots(s, b, vids) ensures p in HitSlots(s, b, w) {
      var i :| 0 <= i < |vids| && vids[i] < |s.rev| && s.rev[vids[i]].At? && s.rev[vids[i]].bucket == b &&
          s.rev[vids[i]].pos == p;
      assert w[i] == vids[i];
    }
    if v < |s.rev| && s.rev[v].At? && s.rev[v].bucket == b {
      assert w[|vids|] == v;
    }
  }

  lemma {:induction false} HitCountIsSlots(docOf: DocOf, s: State, b: nat, vids: seq<nat>)
    requires Inv(docOf, s) && Distinct(vids)
    requires forall i :: 0 <= i < |vids| ==> Live(docOf, s, vids[i])
    ensures HitCount(s, b, vids) == |HitSlots(s, b, vids)|
    decreases |vids|
  {
    if vids != [] {
      var init, v := vids[..|vids| - 1], vids[|vids| - 1];
      HitCountIsSlots(docOf, s, b, init);
      assert vids == init + [v];
      HitSlotsSnoc(s, b, init, v);
      if v < |s.rev| && s.rev[v].At? && s.rev[v].bucket == b {
        HitIsNew(docOf, s, b, init, v);
      }
    }
  }

  lemma DeleteDocCounts(docOf: DocOf, s: State, doc: int, vids: seq<nat>, b: nat)
    requires Inv(docOf, s) && doc !in s.deleted && VidsOf(docOf, s, doc, vids) && b < |s.buckets|
    ensures DeleteDoc(s, doc, vids).dead[b] == DeadCount(docOf, s.deleted + {doc}, s.buckets[b])
  {
    CountDeletesIsHits(MarkDeleted(s, doc), vids, b);
    HitsAfterMark(s, doc, b, vids);
    HitCountIsSlots(docOf, s, b, vids);
    DeadCountAfterMark(docOf, s, b, doc, |s.buckets[b]|);
    assert s.buckets[b][..|s.buckets[b]|] == s.buckets[b];
    HitSlotsAreDocSlots(docOf, s, b, doc, vids);
  }

  lemma DeleteDocSound(docOf: DocOf, s: State, doc: int, vids: seq<nat>)
    requires Inv(docOf, s) && doc !in s.deleted && VidsOf(docOf, s, doc, vids)
    ensures Inv(docOf, DeleteDoc(s, doc, vids))
  {
    var s' := DeleteDoc(s, doc, vids);
    assert s' == s.(dead := s'.dead, deleted := s.deleted + {doc});
    forall b | 0 <= b < |s.buckets| ensures s'.dead[b] == DeadCount(docOf, s'.deleted, s'.buckets[b]) {
      DeleteDocCounts(docOf, s, doc, vids, b);
    }
    forall v | 0 <= v < |s'.rev| && s'.rev[v].At? && Live(docOf, s', v) ensures Resolves(s', v) {
      assert Live(docOf, s, v) && Resolves(s, v);
    }
  }

  /** Deleting a live document removes exactly its vectors and keeps the counters exact. */
  lemma DeleteDocKeeps(docOf: DocOf, s: State, doc: int, vids: seq<nat>)
    requires Inv(docOf, s) && doc !in s.deleted && VidsOf(docOf, s, doc, vids)
    ensures Inv(docOf, DeleteDoc(s, doc, vids))
    ensures View(docOf, DeleteDoc(s, doc, vids)) ==
            map v | v in View(docOf, s) && docOf(v) != doc :: View(docOf, s)[v]
  {
    DeleteDocSound(docOf, s, doc, vids);
    var s' := DeleteDoc(s, doc, vids);
    assert s' == s.(dead := s'.dead, deleted := s.deleted + {doc});
  }

  lemma {:induction false} HitsAfterMark(s: State, doc: int, b: nat, vids: seq<nat>)
    ensures HitCount(MarkDeleted(s, doc), b, vids) == HitCount(s, b, vids)
    decreases |vids|
  {
    if vids != [] {
      HitsAfterMark(s, doc, b, vids[..|vids| - 1]);
    }
  }

  lemma HitSlotsAreDocSlots(docOf: DocOf, s: State, b: nat, doc: int, vids: seq<nat>)
    requires Inv(docOf, s) && b < |s.buckets| && doc !in s.deleted && VidsOf(docOf, s, doc, vids)
    ensures HitSlots(s, b, vids) == DocSlots(docOf, s, b, doc, |s.buckets[b]|)
  {
    var H, D := HitSlots(s, b, vids), DocSlots(docOf, s, b, doc, |s.buckets[b]|);
    forall p | p in H ensures p in D {
      var i :| 0 <= i < |vids| && vids[i] < |s.rev| && s.rev[vids[i]].At? && s.rev[vids[i]].bucket == b &&
          s.rev[vids[i]].pos == p;
      assert Live(docOf, s, vids[i]) && Resolves(s, vids[i]);
    }
    forall p | p in D ensures p in H {
      var v := s.buckets[b][p].vid;
      assert s.rev[v] == At(b, p) && v in vids;
    }
  }

  // ----- Compaction -----

  /** The positions below `n` of the slots that compaction keeps, in order. */
  function LiveIdx(docOf: DocOf, deleted: set<int>, slots: seq<Slot>, n: nat): seq<nat>
    requires n <= |slots|
  {
    if n == 0 then []
    else if SlotLive(docOf, deleted, slots[n - 1]) then LiveIdx(docOf, deleted, slots, n - 1) + [n - 1]
    else LiveIdx(docOf, deleted, slots, n - 1)
  }

  /** Compaction keeps every live slot, nothing else, in the old order; the rest is the dead count. */
  lemma {:induction false} LiveIdxIsOrderedAndExact(docOf: DocOf, deleted: set<int>, slots: seq<Slot>, n: nat)
    requires n <= |slots|
    ensures var idx := LiveIdx(docOf, deleted, slots, n);
            && (forall q :: 0 <= q < |idx| ==> idx[q] < n && SlotLive(docOf, deleted, slots[idx[q]]))
            && (forall q, r :: 0 <= q < r < |idx| ==> idx[q] < idx[r])
            && (forall p :: 0 <= p < n && SlotLive(docOf, deleted, slots[p]) ==> p in idx)
            && |idx| + DeadCount(docOf, deleted, slots[..n]) == n
  {
    if n > 0 {
      LiveIdxIsOrderedAndExact(docOf, deleted, slots, n - 1);
      assert slots[..n][..n - 1] == slots[..n - 1];
    }
  }

  function Select(slots: seq<Slot>, idx: seq<nat>): (r: seq<Slot>)
    requires forall q :: 0 <= q < |idx| ==> idx[q] < |slots|
    ensures |r| == |idx| && forall q :: 0 <= q < |idx| ==> r[q] == slots[idx[q]]
  {
    seq(|idx|, q requires 0 <= q < |idx| => slots[idx[q]])
  }

  function Kept(docOf: DocOf, deleted: set<int>, slots: seq<Slot>, n: nat): seq<Slot>
    requires n <= |slots|
  {
    LiveIdxIsOrderedAndExact(docOf, deleted, slots, n);
    Select(slots, LiveIdx(docOf, deleted, slots, n))
  }

  /** The reverse table after `CompactOne` has run on the first `n` slots of bucket `b`. */
  function Reindex(docOf: DocOf, deleted: set<int>, rev: seq<Loc>, b: nat, slots: seq<Slot>, n: nat): (r: seq<Loc>)
    requires n <= |slots|
    requires forall p :: 0 <= p < |slots| && SlotLive(docOf, deleted, slots[p]) ==> slots[p].vid < |rev|
    ensures |r| == |rev|
  {
    if n == 0 then rev
    else
      var r := Reindex(docOf, deleted, rev, b, slots, n - 1);
      if SlotLive(docOf, deleted, slots[n - 1])
      then r[slots[n - 1].vid := At(b, |LiveIdx(docOf, deleted, slots, n - 1)|)]
      else r
  }

  function Compact(docOf: DocOf, s: State, b: nat): State
    requires b < |s.buckets| == |s.dead| && SlotsPointedAt(s)
  {
    var slots := s.buckets[b];
    var kept := Kept(docOf, s.deleted, slots, |slots|);
    s.(buckets := s.buckets[b := kept],
       rev := Reindex(docOf, s.deleted, s.rev, b, slots, |slots|),
       dead := s.dead[b := 0],
       compacted := s.compacted + |slots| - |kept|)
  }

  lemma {:induction false} ReindexLeavesOthers(docOf: DocOf, s: State, b: nat, n: nat, v: nat)
    requires Inv(docOf, s) && b < |s.buckets| && n <= |s.buckets[b]| && v < |s.rev|
    requires forall p :: 0 <= p < n && SlotLive(docOf, s.deleted, s.buckets[b][p]) ==> s.buckets[b][p].vid != v
    ensures Reindex(docOf, s.deleted, s.rev, b, s.buckets[b], n)[v] == s.rev[v]
  {
    if n > 0 {
      ReindexLeavesOthers(docOf, s, b, n - 1, v);
    }
  }

  lemma {:induction false} ReindexPointsAtKept(docOf: DocOf, s: State, b: nat, n: nat, q: nat)
    requires Inv(docOf, s) && b < |s.buckets| && n <= |s.buckets[b]|
    requires q < |LiveIdx(docOf, s.deleted, s.buckets[b], n)|
    ensures var p := LiveIdx(docOf, s.deleted, s.buckets[b], n)[q];
            && p < n && s.buckets[b][p].vid < |s.rev|
            && Reindex(docOf, s.deleted, s.rev, b, s.buckets[b], n)[s.buckets[b][p].vid] == At(b, q)
  {
    var slots := s.buckets[b];
    var slot := slots[n - 1];
    var idx0 := LiveIdx(docOf, s.deleted, slots, n - 1);
    if q < |idx0| {
      ReindexPointsAtKept(docOf, s, b, n - 1, q);
      LiveIdxIsOrderedAndExact(docOf, s.deleted, slots, n - 1);
      if SlotLive(docOf, s.deleted, slot) {
        assert s.rev[slots[idx0[q]].vid] == At(b, idx0[q]) && s.rev[slot.vid] == At(b, n - 1);
      }
    }
  }

  lemma {:induction false} AllLiveNoDead(docOf: DocOf, deleted: set<int>, slots: seq<Slot>)
    requires forall p :: 0 <= p < |slots| ==> SlotLive(docOf, deleted, slots[p])
    ensures DeadCount(docOf, deleted, slots) == 0
  {
    if slots != [] {
      AllLiveNoDead(docOf, deleted, slots[..|slots| - 1]);
    }
  }

  /** Where a live vector's slot is after compaction of bucket `b`. */
  lemma CompactMoves(docOf: DocOf, s: State, b: nat, v: nat)
    requires Inv(docOf, s) && b < |s.buckets|
    requires v < |s.rev| && s.rev[v].At? && Live(docOf, s, v)
    ensures var s' := Compact(docOf, s, b);
            && s'.rev[v].At? && s'.rev[v].bucket == s.rev[v].bucket && Resolves(s', v) && Resolves(s, v)
            && s'.buckets[s'.rev[v].bucket][s'.rev[v].pos] == s.buckets[s.rev[v].bucket][s.rev[v].pos]
  {
    var slots := s.buckets[b];
    assert Resolves(s, v);
    if s.rev[v].bucket == b {
      LiveIdxIsOrderedAndExact(docOf, s.deleted, slots, |slots|);
      var idx := LiveIdx(docOf, s.deleted, slots, |slots|);
      var q :| 0 <= q < |idx| && idx[q] == s.rev[v].pos;
      ReindexPointsAtKept(docOf, s, b, |slots|, q);
    } else {
      forall p | 0 <= p < |slots| && SlotLive(docOf, s.deleted, slots[p]) ensures slots[p].vid != v {
        assert s.rev[slots[p].vid] == At(b, p);
      }
      ReindexLeavesOthers(docOf, s, b, |slots|, v);
    }
  }

  /** The reverse entry of a vector with an untombstoned slot outside bucket `b` is untouched. */
  lemma CompactLeaves(docOf: DocOf, s: State, b: nat, c: nat, p: nat)
    requires Inv(docOf, s) && b < |s.buckets| && c < |s.buckets| && c != b && p < |s.buckets[c]|
    requires !s.buckets[c][p].tomb
    ensures s.buckets[c][p].vid < |s.rev| && Compact(docOf, s, b).rev[s.buckets[c][p].vid] == At(c, p)
  {
    var slots, v := s.buckets[b], s.buckets[c][p].vid;
    assert s.rev[v] == At(c, p);
    forall q | 0 <= q < |slots| && SlotLive(docOf, s.deleted, slots[q]) ensures slots[q].vid != v {
      assert s.rev[slots[q].vid] == At(b, q);
    }
    ReindexLeavesOthers(docOf, s, b, |slots|, v);
  }

  lemma {:induction false} ReindexInRange(docOf: DocOf, s: State, b: nat, n: nat)
    requires Inv(docOf, s) && b < |s.buckets| && n <= |s.buckets[b]|
    ensures AllInRange(Reindex(docOf, s.deleted, s.rev, b, s.buckets[b], n), |s.buckets|)
  {
    if n > 0 {
      ReindexInRange(docOf, s, b, n - 1);
    }
  }

  lemma CompactSlots(docOf: DocOf, s: State, b: nat)
    requires Inv(docOf, s) && b < |s.buckets|
    ensures Shape(Compact(docOf, s, b)) && SlotsPointedAt(Compact(docOf, s, b))
  {
    var s' := Compact(docOf, s, b);
    var slots := s.buckets[b];
    LiveIdxIsOrderedAndExact(docOf, s.deleted, slots, |slots|);
    ReindexInRange(docOf, s, b, |slots|);
    forall c, p | 0 <= c < |s'.buckets| && 0 <= p < |s'.buckets[c]| && !s'.buckets[c][p].tomb
      ensures s'.buckets[c][p].vid < |s'.rev| && s'.rev[s'.buckets[c][p].vid] == At(c, p)
    {
      if c != b {
        CompactLeaves(docOf, s, b, c, p);
      } else {
        ReindexPointsAtKept(docOf, s, b, |slots|, p);
      }
    }
  }

  /**
    Compaction keeps the invariant and the view; it empties the dead counter of its bucket and
    adds exactly the old value of that counter to `compacted_num_`.
   */
  lemma CompactKeeps(docOf: DocOf, s: State, b: nat)
    requires Inv(docOf, s) && b < |s.buckets|
    ensures Inv(docOf, Compact(docOf, s, b)) && View(docOf, Compact(docOf, s, b)) == View(docOf, s)
    ensures Compact(docOf, s, b).compacted == s.compacted + s.dead[b]
    ensures |Compact(docOf, s, b).buckets[b]| == |s.buckets[b]| - s.dead[b]
  {
    CompactSound(docOf, s, b);
    var s' := Compact(docOf, s, b);
    forall v | v in View(docOf, s) ensures v in View(docOf, s') && View(docOf, s')[v] == View(docOf, s)[v] {
      CompactMoves(docOf, s, b, v);
    }
    forall v | v in View(docOf, s') ensures v in View(docOf, s) {
      CompactReaches(docOf, s, b, v);
    }
  }

  lemma CompactSound(docOf: DocOf, s: State, b: nat)
    requires Inv(docOf, s) && b < |s.buckets|
    ensures Inv(docOf, Compact(docOf, s, b))
    ensures Compact(docOf, s, b).compacted == s.compacted + s.dead[b]
    ensures |Compact(docOf, s, b).buckets[b]| == |s.buckets[b]| - s.dead[b]
  {
    var s' := Compact(docOf, s, b);
    var slots := s.buckets[b];
    LiveIdxIsOrderedAndExact(docOf, s.deleted, slots, |slots|);
    assert slots[..|slots|] == slots;
    CompactSlots(docOf, s, b);
    AllLiveNoDead(docOf, s.deleted, s'.buckets[b]);
    forall v | 0 <= v < |s'.rev| && s'.rev[v].At? && Live(docOf, s', v)
      ensures Resolves(s', v)
    {
      CompactReaches(docOf, s, b, v);
    }
  }

  lemma CompactReaches(docOf: DocOf, s: State, b: nat, v: nat)
    requires Inv(docOf, s) && b < |s.buckets| && v < |s.rev| && Live(docOf, s, v)
    requires Compact(docOf, s, b).rev[v].At?
    ensures s.rev[v].At? && Resolves(Compact(docOf, s, b), v)
  {
    if s.rev[v].At? {
      CompactMoves(docOf, s, b, v);
    } else {
      forall p | 0 <= p < |s.buckets[b]| && SlotLive(docOf, s.deleted, s.buckets[b][p])
          ensures s.buckets[b][p].vid != v {
        assert s.rev[s.buckets[b][p].vid] == At(b, p);
      }
      ReindexLeavesOthers(docOf, s, b, |s.buckets[b]|, v);
    }
  }

  // ----- The two steps of a deletion -----

  /** Compaction leaves the entries of deleted documents' vectors alone. */
  lemma {:induction false} HitsStay(docOf: DocOf, s: State, b: nat, vids: seq<nat>, c: State, x: nat)
    requires Inv(docOf, s) && b < |s.buckets| && c.rev == Compact(docOf, s, b).rev
    requires forall i :: 0 <= i < |vids| ==> !Live(docOf, s, vids[i])
    ensures HitCount(c, x, vids) == HitCount(s, x, vids)
    decreases |vids|
  {
    if vids != [] {
      var n := |vids| - 1;
      HitsStay(docOf, s, b, vids[..n], c, x);
      if vids[n] < |s.rev| {
        ReindexLeavesOthers(docOf, s, b, |s.buckets[b]|, vids[n]);
      }
    }
  }

  /** Setting the bitmap, compacting a bucket, and only then telling the index of the deletion. */
  function CompactAmidDelete(docOf: DocOf, s: State, doc: int, vids: seq<nat>, b: nat): State
    requires Inv(docOf, s) && b < |s.buckets| && AllInRange(Compact(docOf, MarkDeleted(s, doc), b).rev, |s.dead|)
  {
    CountDeletes(Compact(docOf, MarkDeleted(s, doc), b), vids)
  }

  /**
    A compaction between the two steps of a deletion takes the document's slots with it, which are
    counted as dead afterwards all the same.  The map is right; the counter of the compacted bucket
    is too high by the number of vectors that the document had there.
   */
  lemma CompactAmidDeleteMiscounts(docOf: DocOf, s: State, doc: int, vids: seq<nat>, b: nat)
    requires Inv(docOf, s) && doc !in s.deleted && VidsOf(docOf, s, doc, vids) && b < |s.buckets|
    ensures AllInRange(Compact(docOf, MarkDeleted(s, doc), b).rev, |s.dead|)
    ensures var r := CompactAmidDelete(docOf, s, doc, vids, b);
            && Sound(docOf, r)
            && View(docOf, r) == (map v | v in View(docOf, s) && docOf(v) != doc :: View(docOf, s)[v])
            && r.dead[b] == DeadCount(docOf, r.deleted, r.buckets[b]) + HitCount(s, b, vids)
            && (Inv(docOf, r) <==> HitCount(s, b, vids) == 0)
  {
    var d, m := DeleteDoc(s, doc, vids), MarkDeleted(s, doc);
    DeleteDocKeeps(docOf, s, doc, vids);
    CompactKeeps(docOf, d, b);
    var good, c := Compact(docOf, d, b), Compact(docOf, m, b);
    assert c == good.(dead := s.dead[b := 0]);
    var r := CountDeletes(c, vids);
    forall x | 0 <= x < |s.dead|
      ensures r.dead[x] == if x == b then HitCount(s, b, vids) else good.dead[x]
    {
      MiscountAt(docOf, s, doc, vids, b, x);
    }
    hide DeadCount, View, Compact, CountDeletes;
    OnlyCounters(docOf, good, r);
  }

  lemma MiscountAt(docOf: DocOf, s: State, doc: int, vids: seq<nat>, b: nat, x: nat)
    requires Inv(docOf, s) && doc !in s.deleted && VidsOf(docOf, s, doc, vids) && b < |s.buckets| && x < |s.dead|
    requires Inv(docOf, DeleteDoc(s, doc, vids)) && AllInRange(Compact(docOf, MarkDeleted(s, doc), b).rev, |s.dead|)
    ensures CountDeletes(Compact(docOf, MarkDeleted(s, doc), b), vids).dead[x] ==
            if x == b then HitCount(s, b, vids) else DeleteDoc(s, doc, vids).dead[x]
  {
    var d, m := DeleteDoc(s, doc, vids), MarkDeleted(s, doc);
    var c := Compact(docOf, m, b);
    assert c.rev == Compact(docOf, d, b).rev;
    CountDeletesIsHits(c, vids, x);
    CountDeletesIsHits(m, vids, x);
    HitsAfterMark(s, doc, x, vids);
    HitsStay(docOf, d, b, vids, c, x);
    SameHits(s, d, x, vids);
  }

  lemma {:induction false} SameHits(s: State, s': State, x: nat, vids: seq<nat>)
    requires s'.rev == s.rev
    ensures HitCount(s', x, vids) == HitCount(s, x, vids)
    decreases |vids|
  {
    if vids != [] { SameHits(s, s', x, vids[..|vids| - 1]); }
  }

  /** How many of the first vectors are among the second. */
  function Among(vids: seq<nat>, keys: seq<nat>): nat
    decreases |vids|
  {
    if vids == [] then 0
    else Among(vids[..|vids| - 1], keys) + if vids[|vids| - 1] in keys then 1 else 0
  }

  /** Setting the bitmap, adding vectors, and only then telling the index of the deletion. */
  function AddAmidDelete(docOf: DocOf, s: State, doc: int, vids: seq<nat>, b: nat, keys: seq<nat>,
      codes: seq<Code>): State
    requires b < |s.buckets| == |s.dead| && |s.rev| > 0 && |keys| == |codes|
    requires AllInRange(AddAll(docOf, MarkDeleted(s, doc), b, keys, codes).rev, |s.dead|)
  {
    CountDeletes(AddAll(docOf, MarkDeleted(s, doc), b, keys, codes), vids)
  }

  /** The counters do not steer an addition. */
  lemma {:induction false} AddAllCounters(docOf: DocOf, s: State, s': State, b: nat, keys: seq<nat>, codes: seq<Code>)
    requires b < |s.buckets| == |s.dead| == |s'.dead| && |s.rev| > 0 && |keys| == |codes| && s' == s.(dead := s'.dead)
    ensures var a, a' := AddAll(docOf, s, b, keys, codes), AddAll(docOf, s', b, keys, codes);
            && a' == a.(dead := a'.dead)
            && forall x :: 0 <= x < |s.dead| ==> a'.dead[x] - s'.dead[x] == a.dead[x] - s.dead[x]
    decreases |keys|
  {
    if keys != [] {
      var n := |keys| - 1;
      AddAllCounters(docOf, s, s', b, keys[..n], codes[..n]);
    }
  }

  /** Where the entries of added and of other vectors lead. */
  lemma {:induction false} AddAllEntry(docOf: DocOf, s: State, b: nat, keys: seq<nat>, codes: seq<Code>, v: nat)
    requires b < |s.buckets| == |s.dead| && |s.rev| > 0 && |keys| == |codes|
    ensures var rev := AddAll(docOf, s, b, keys, codes).rev;
            && |s.rev| <= |rev|
            && (v in keys ==> v < |rev| && rev[v].At? && rev[v].bucket == b)
            && (v !in keys && v < |rev| ==> rev[v] == if v < |s.rev| then s.rev[v] else Unset)
    decreases |keys|
  {
    if keys != [] {
      var n := |keys| - 1;
      AddAllEntry(docOf, s, b, keys[..n], codes[..n], v);
      assert v in keys <==> v in keys[..n] || v == keys[n];
    }
  }

  /** Vectors that were not indexed before add to the hits in the bucket they went to. */
  lemma {:induction false} HitsAfterAdd(docOf: DocOf, s: State, b: nat, keys: seq<nat>, codes: seq<Code>,
      vids: seq<nat>, x: nat)
    requires b < |s.buckets| == |s.dead| && |s.rev| > 0 && |keys| == |codes|
    requires forall i :: 0 <= i < |keys| ==> Fresh(s, keys[i])
    ensures HitCount(AddAll(docOf, s, b, keys, codes), x, vids) ==
            HitCount(s, x, vids) + if x == b then Among(vids, keys) else 0
    decreases |vids|
  {
    if vids != [] {
      var n := |vids| - 1;
      HitsAfterAdd(docOf, s, b, keys, codes, vids[..n], x);
      AddAllEntry(docOf, s, b, keys, codes, vids[n]);
      hide AddAll;
    }
  }

  /**
    Vectors of the document that are added between the two steps of its deletion are counted as dead
    twice, by the addition, which sees the bit, and by the deletion.  The map is right; the counter of
    their bucket is too high by their number.
   */
  lemma AddAmidDeleteMiscounts(docOf: DocOf, s: State, doc: int, vids: seq<nat>, b: nat, keys: seq<nat>,
      codes: seq<Code>)
    requires Inv(docOf, s) && doc !in s.deleted && VidsOf(docOf, s, doc, vids)
    requires b < |s.buckets| && |keys| == |codes| && |s.buckets[b]| + |keys| <= s.caps[b]
    requires Distinct(keys) && forall i :: 0 <= i < |keys| ==> Fresh(s, keys[i])
    ensures AllInRange(AddAll(docOf, MarkDeleted(s, doc), b, keys, codes).rev, |s.dead|)
    ensures var r := AddAmidDelete(docOf, s, doc, vids, b, keys, codes);
            && Sound(docOf, r)
            && View(docOf, r) ==
               BindAll(docOf, s.deleted + {doc}, map v | v in View(docOf, s) && docOf(v) != doc :: View(docOf, s)[v],
                       b, keys, codes)
            && r.dead[b] == DeadCount(docOf, r.deleted, r.buckets[b]) + Among(vids, keys)
            && (Inv(docOf, r) <==> Among(vids, keys) == 0)
  {
    var d, m := DeleteDoc(s, doc, vids), MarkDeleted(s, doc);
    DeleteDocKeeps(docOf, s, doc, vids);
    AddAllKeeps(docOf, d, b, keys, codes);
    AddAllCounters(docOf, d, m, b, keys, codes);
    var good, a := AddAll(docOf, d, b, keys, codes), AddAll(docOf, m, b, keys, codes);
    var r := CountDeletes(a, vids);
    forall x | 0 <= x < |s.dead|
      ensures r.dead[x] == good.dead[x] + if x == b then Among(vids, keys) else 0
    {
      CountDeletesIsHits(a, vids, x);
      CountDeletesIsHits(m, vids, x);
      HitsAfterAdd(docOf, m, b, keys, codes, vids, x);
    }
    hide DeadCount, View, AddAll, CountDeletes, BindAll, HitCount, Among;
    OnlyCounters(docOf, good, r);
  }

  // ----- Conservation -----

  function Total(buckets: seq<seq<Slot>>): nat {
    if buckets == [] then 0 else Total(buckets[..|buckets| - 1]) + |buckets[|buckets| - 1]|
  }

  lemma {:induction false} TotalUpdate(buckets: seq<seq<Slot>>, b: nat, slots: seq<Slot>)
    requires b < |buckets|
    ensures Total(buckets[b := slots]) == Total(buckets) - |buckets[b]| + |slots|
  {
    var n := |buckets| - 1;
    if b < n {
      TotalUpdate(buckets[..n], b, slots);
      assert buckets[b := slots][..n] == buckets[..n][b := slots];
    } else {
      assert buckets[b := slots][..n] == buckets[..n];
    }
  }

  /** Slots present plus slots removed by compaction. */
  function Ever(s: State): int {
    Total(s.buckets) + s.compacted
  }

  lemma {:induction false} AddAllCounts(docOf: DocOf, s: State, b: nat, keys: seq<nat>, codes: seq<Code>)
    requires b < |s.buckets| == |s.dead| && |s.rev| > 0 && |keys| == |codes|
    ensures Ever(AddAll(docOf, s, b, keys, codes)) == Ever(s) + |keys|
    decreases |keys|
  {
    if keys != [] {
      var n := |keys| - 1;
      AddAllCounts(docOf, s, b, keys[..n], codes[..n]);
      var s1 := AddAll(docOf, s, b, keys[..n], codes[..n]);
      TotalUpdate(s1.buckets, b, s1.buckets[b] + [Slot(keys[n], false, codes[n])]);
    }
  }

  lemma MoveCounts(docOf: DocOf, s: State, b: nat, v: nat, code: Code)
    requires b < |s.buckets| == |s.dead| && v < |s.rev| && s.rev[v].At? && Resolves(s, v)
    ensures Ever(Move(docOf, s, b, v, code)) == Ever(s) + 1
  {
    var At(c, p) := s.rev[v];
    var t := Tombstone(s, v);
    TotalUpdate(s.buckets, c, t.buckets[c]);
    TotalUpdate(t.buckets, b, t.buckets[b] + [Slot(v, false, code)]);
  }

  lemma CompactCounts(docOf: DocOf, s: State, b: nat)
    requires b < |s.buckets| == |s.dead| && SlotsPointedAt(s)
    ensures Ever(Compact(docOf, s, b)) == Ever(s)
  {
    TotalUpdate(s.buckets, b, Kept(docOf, s.deleted, s.buckets[b], |s.buckets[b]|));
  }

  // ----- Whole runs -----

  datatype Op =
    | Add(b: nat, keys: seq<nat>, codes: seq<Code>)
    | Update(b: nat, v: nat, code: Code)
    | Delete(doc: int, vids: seq<nat>)
    | CompactBucket(b: nat)
    | Extend(b: nat, cap: nat)
    | DoubleIds

  /** When an operation may run: the caller's duties, and no refusal at the bucket limit. */
  predicate Enabled(docOf: DocOf, s: State, op: Op)
    requires Inv(docOf, s)
  {
    match op
    case Add(b, keys, codes) =>
      && b < |s.buckets| && |keys| == |codes| && |s.buckets[b]| + |keys| <= s.caps[b]
      && Distinct(keys) && (forall i :: 0 <= i < |keys| ==> Fresh(s, keys[i]))
    case Update(b, v, code) =>
      && b < |s.buckets| && Live(docOf, s, v)
      && (!Unindexed(s, v) && b != s.rev[v].bucket ==> |s.buckets[b]| < s.caps[b])
    case Delete(doc, vids) =>
      doc !in s.deleted && VidsOf(docOf, s, doc, vids)
    case CompactBucket(b) => b < |s.buckets|
    case Extend(b, cap) => b < |s.buckets| && cap >= |s.buckets[b]|
    case DoubleIds => true
  }

  function Apply(docOf: DocOf, s: State, op: Op): State
    requires Inv(docOf, s) && Enabled(docOf, s, op)
  {
    match op
    case Add(b, keys, codes) => AddAll(docOf, s, b, keys, codes)
    case Update(b, v, code) =>
      if Unindexed(s, v) then s
      else
        assert Resolves(s, v);
        if s.rev[v].bucket == b then Overwrite(s, v, code) else Move(docOf, s, b, v, code)
    case Delete(doc, vids) => DeleteDoc(s, doc, vids)
    case CompactBucket(b) => Compact(docOf, s, b)
    case Extend(b, cap) => s.(caps := s.caps[b := cap])
    case DoubleIds => ExtendIds(s)
  }

  /** The same operation on the abstract map. */
  function Meaning(docOf: DocOf, deleted: set<int>, m: ViewMap, op: Op): (ViewMap, set<int>) {
    match op
    case Add(b, keys, codes) => (if |keys| == |codes| then BindAll(docOf, deleted, m, b, keys, codes) else m, deleted)
    case Update(b, v, code) => (if v in m then m[v := (b, code)] else m, deleted)
    case Delete(doc, vids) => (map v | v in m && docOf(v) != doc :: m[v], deleted + {doc})
    case CompactBucket(b) => (m, deleted)
    case Extend(b, cap) => (m, deleted)
    case DoubleIds => (m, deleted)
  }

  /** How many slots an operation writes at the end of a bucket. */
  function Appended(s: State, op: Op): nat {
    match op
    case Add(b, keys, codes) => |keys|
    case Update(b, v, code) => if Unindexed(s, v) || s.rev[v].bucket == b then 0 else 1
    case _ => 0
  }

  /** One step of the index is one step of the map; only Add, Update and Delete change it. */
  lemma StepRefines(docOf: DocOf, s: State, op: Op)
    requires Inv(docOf, s) && Enabled(docOf, s, op)
    ensures Inv(docOf, Apply(docOf, s, op))
    ensures (View(docOf, Apply(docOf, s, op)), Apply(docOf, s, op).deleted) ==
            Meaning(docOf, s.deleted, View(docOf, s), op)
    ensures Ever(Apply(docOf, s, op)) == Ever(s) + Appended(s, op)
  {
    match op
    case Add(b, keys, codes) =>
      AddAllKeeps(docOf, s, b, keys, codes);
      AddAllCounts(docOf, s, b, keys, codes);
    case Update(b, v, code) =>
      if !Unindexed(s, v) {
        assert Resolves(s, v);
        if s.rev[v].bucket == b {
          OverwriteKeeps(docOf, s, v, code);
          TotalUpdate(s.buckets, b, Overwrite(s, v, code).buckets[b]);
        } else {
          MoveKeeps(docOf, s, b, v, code);
          MoveCounts(docOf, s, b, v, code);
        }
      }
    case Delete(doc, vids) => DeleteDocKeeps(docOf, s, doc, vids);
    case CompactBucket(b) =>
      CompactKeeps(docOf, s, b);
      CompactCounts(docOf, s, b);
    case Extend(b, cap) =>
      ExtendBucketKeeps(docOf, s, Apply(docOf, s, op), b, cap);
    case DoubleIds => ExtendIdsKeeps(docOf, s);
  }

  predicate Step(docOf: DocOf, s: State, op: Op, s': State) {
    Inv(docOf, s) ==> Enabled(docOf, s, op) && s' == Apply(docOf, s, op)
  }

  /** `states` is a run of `ops`. */
  predicate IsRun(docOf: DocOf, states: seq<State>, ops: seq<Op>) {
    && |states| == |ops| + 1
    && Inv(docOf, states[0])
    && (forall i :: 0 <= i < |ops| ==> Step(docOf, states[i], ops[i], states[i + 1]))
  }

  function MeaningOfRun(docOf: DocOf, deleted: set<int>, m: ViewMap, ops: seq<Op>): (ViewMap, set<int>) {
    if ops == [] then (m, deleted)
    else
      var (m1, d1) := MeaningOfRun(docOf, deleted, m, ops[..|ops| - 1]);
      Meaning(docOf, d1, m1, ops[|ops| - 1])
  }

  function AppendedInRun(states: seq<State>, ops: seq<Op>): nat
    requires |states| > |ops|
  {
    if ops == [] then 0
    else AppendedInRun(states, ops[..|ops| - 1]) + Appended(states[|ops| - 1], ops[|ops| - 1])
  }

  /**
    Over any run the invariant holds, the view is the abstract map computed from the
    operations alone, and every slot ever appended is in a bucket or was compacted away.
   */
  lemma {:induction false} RunRefines(docOf: DocOf, states: seq<State>, ops: seq<Op>)
    requires IsRun(docOf, states, ops)
    ensures Inv(docOf, states[|ops|])
    ensures (View(docOf, states[|ops|]), states[|ops|].deleted) ==
            MeaningOfRun(docOf, states[0].deleted, View(docOf, states[0]), ops)
    ensures Ever(states[|ops|]) == Ever(states[0]) + AppendedInRun(states, ops)
    decreases |ops|
  {
    if ops != [] {
      var n := |ops| - 1;
      var prefix := states[..n + 1];
      forall i | 0 <= i < n ensures Step(docOf, prefix[i], ops[..n][i], prefix[i + 1]) {
        assert Step(docOf, states[i], ops[i], states[i + 1]);
      }
      RunRefines(docOf, states[..n + 1], ops[..n]);
      AppendedPrefix(states, n + 1, ops[..n]);
      assert Step(docOf, states[n], ops[n], states[n + 1]);
      StepRefines(docOf, states[n], ops[n]);
    }
  }

  lemma {:induction false} AppendedPrefix(states: seq<State>, k: nat, ops: seq<Op>)
    requires |ops| < k <= |states|
    ensures AppendedInRun(states[..k], ops) == AppendedInRun(states, ops)
    decreases |ops|
  {
    if ops != [] {
      AppendedPrefix(states, k, ops[..|ops| - 1]);
    }
  }
}
