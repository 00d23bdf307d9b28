/**
  `RealTimeMemData` on its buffers.  Each bucket owns an array of stored ids and an array of
  codes, both of the bucket's capacity; the reverse table holds packed longs.  Every method
  is proved against the functions of `RealtimeIndex`.

  The source copies the bucket structure before it extends or compacts a bucket and then swaps
  the pointer; the copy shares every array, so one object stands for both here.
 */
module RealtimeMemory {
  import opened RealtimeIndex
  import opened Wrappers

  // ----- Bit layout -----

  const SHIFT_32 := 0x1_0000_0000
  const DEL_BIT := 0x8000_0000_0000_0000

  /** `bucket << 32 | pos` as a number. */
  function Pack(bucket: nat, pos: nat): int {
    bucket * SHIFT_32 + pos
  }

  function Decode(entry: int): Loc
    requires entry >= -1
  {
    if entry == -1 then Unset else At(entry / SHIFT_32, entry % SHIFT_32)
  }

  /** On 64-bit words the shift and the disjunction are the sum that `Pack` computes. */
  lemma PackIsShiftOr(bucket: bv64, pos: bv64)
    requires bucket < 0x8000_0000 && pos < 0x1_0000_0000
    ensures (bucket << 32) | pos == bucket * 0x1_0000_0000 + pos
    ensures ((bucket << 32) | pos) >> 32 == bucket && ((bucket << 32) | pos) & 0xffff_ffff == pos
    ensures (bucket << 32) | pos < 0x8000_0000_0000_0000
  {
  }

  lemma DecodePack(bucket: nat, pos: nat)
    requires pos < SHIFT_32
    ensures Pack(bucket, pos) >= 0 && Decode(Pack(bucket, pos)) == At(bucket, pos)
  {
  }

  /** A stored id is a signed long: setting bit 63 of a non-negative one makes it negative. */
  predicate IsDel(stored: int) {
    stored < 0
  }

  function SetDel(stored: int): int {
    if stored < 0 then stored else stored - DEL_BIT
  }

  function Recover(stored: int): int {
    if stored < 0 then stored + DEL_BIT else stored
  }

  // ----- What the buffers stand for -----

  predicate SlotOk(stored: int, code: Code, slot: Slot) {
    && -DEL_BIT <= stored < DEL_BIT
    && Recover(stored) == slot.vid && IsDel(stored) == slot.tomb && code == slot.code
  }

  predicate BucketOk(ids: array<int>, codes: array<Code>, slots: seq<Slot>, cap: nat)
    reads ids, codes
  {
    && ids.Length == codes.Length == cap
    && |slots| <= cap
    && forall p :: 0 <= p < |slots| ==> SlotOk(ids[p], codes[p], slots[p])
  }

  predicate RevOk(packed: seq<int>, rev: seq<Loc>) {
    && |packed| == |rev|
    && forall v :: 0 <= v < |packed| ==> packed[v] >= -1 && Decode(packed[v]) == rev[v]
  }

  /** What the model assumes of `ExtendCoefficient`, `1.1 + PI / 2 - atan(t)` for an 8-bit `t`. */
  ghost predicate Coefficient(coef: nat -> real) {
    && (forall t: nat :: t < 256 ==> 1.1 <= coef(t) <= 3.0)
    && coef(0) >= 2.0
  }

  function Product(r: real, c: real): real {
    r * c
  }

  /** `(int)(n * c)` for a non-negative product. */
  function Truncated(n: nat, c: real): int {
    Product(n as real, c).Floor
  }

  lemma ProductMono(r: real, c: real, d: real)
    requires 0.0 <= r && c <= d
    ensures Product(r, c) <= Product(r, d)
  {
    assert 0.0 <= r * (d - c);
  }

  lemma ProductBounds(r: real, c: real) returns (y: real)
    requires 0.0 <= r && 1.1 <= c <= 3.0
    ensures y == Product(r, c) && r <= y <= 3.0 * r && (c >= 2.0 ==> 2.0 * r <= y)
  {
    y := Product(r, c);
    ProductMono(r, 1.0, c);
    ProductMono(r, c, 3.0);
    if c >= 2.0 {
      ProductMono(r, 2.0, c);
    }
  }

  lemma FloorBounds(n: nat, r: real, y: real)
    requires r == n as real && r <= y <= 3.0 * r
    ensures n <= y.Floor <= 3 * n
    ensures 2.0 * r <= y ==> 2 * n <= y.Floor
  {
  }

  /** The product of a capacity and a coefficient, truncated, never shrinks the capacity. */
  lemma Scaled(n: nat, c: real)
    requires 1.1 <= c <= 3.0
    ensures n <= Truncated(n, c) <= 3 * n
    ensures c >= 2.0 ==> 2 * n <= Truncated(n, c)
  {
    var y := ProductBounds(n as real, c);
    FloorBounds(n, n as real, y);
  }

  /**
    The growth loop of `ExtendBucketMem`: the coefficient is above one but the product is
    truncated, so a small bucket may stand still until the 8-bit counter wraps and the
    coefficient exceeds two.
   */
  method ExtendSize(coef: nat -> real, cap: nat, time: nat, least: nat) returns (size: nat, t: nat)
    requires Coefficient(coef) && 0 < cap && time < 256
    ensures least <= size && cap <= size && t < 256
    ensures size <= 3 * cap || size <= 3 * least
  {
    t := (time + 1) % 256;
    Scaled(cap, coef(t));
    size := Truncated(cap, coef(t));
    while size < least
      invariant t < 256 && cap <= size
      invariant size <= 3 * cap || size <= 3 * least
      decreases least - size, 255 - t
    {
      t := (t + 1) % 256;
      Scaled(size, coef(t));
      size := Truncated(size, coef(t));
    }
  }

  class RealTimeMemData {
    const docOf: DocOf
    const coef: nat -> real
    const bucketKeysLimit: nat

    var idxArray: seq<array<int>>
    var codesArray: seq<array<Code>>
    var retrieveIdxPos: seq<nat>
    var curBucketKeys: seq<nat>
    var bucketExtendTime: seq<nat>
    var vidBucketNoPos: seq<int>
    var deletedNums: seq<int>
    var compactedNum: int
    var docidsBitmap: set<int>

    ghost var model: State

    ghost predicate Sized()
      reads this
    {
      && |idxArray| == |codesArray| == |retrieveIdxPos| == |curBucketKeys| == |bucketExtendTime|
      && |idxArray| == |model.buckets| == |model.caps| < 0x8000_0000
      && (forall b :: 0 <= b < |idxArray| ==>
            |model.buckets[b]| == retrieveIdxPos[b] && 0 < curBucketKeys[b] == model.caps[b] < 0x8000_0000 &&
                bucketExtendTime[b] < 256)
    }

    ghost predicate Buffers()
      reads this, idxArray, codesArray
    {
      && |idxArray| == |codesArray| == |curBucketKeys| == |model.buckets|
      && (forall i, j :: 0 <= i < j < |idxArray| ==> idxArray[i] != idxArray[j] && codesArray[i] != codesArray[j])
      && (forall b :: 0 <= b < |idxArray| ==> BucketOk(idxArray[b], codesArray[b], model.buckets[b], curBucketKeys[b]))
    }

    ghost predicate Tables()
      reads this
    {
      && |vidBucketNoPos| > 0 && RevOk(vidBucketNoPos, model.rev)
      && deletedNums == model.dead && compactedNum == model.compacted && docidsBitmap == model.deleted
      && Coefficient(coef) && bucketKeysLimit <= 0x4000_0000
    }

    /** The buffers and tables hold exactly the model. */
    ghost predicate Represents()
      reads this, idxArray, codesArray
    {
      Sized() && Buffers() && Tables()
    }

    ghost predicate Valid()
      reads this, idxArray, codesArray
    {
      Represents() && Inv(docOf, model)
    }

    constructor (docOf: DocOf, coef: nat -> real, bucketsNum: nat, bucketKeys: nat, bucketKeysLimit: nat,
        bitmap: set<int>)
      requires Coefficient(coef) && 0 < bucketKeys < 0x8000_0000 && 0 < bucketsNum < 0x8000_0000
      requires bucketKeysLimit <= 0x4000_0000
      ensures Valid() && fresh(idxArray) && fresh(codesArray)
      ensures this.docOf == docOf && this.bucketKeysLimit == bucketKeysLimit
      ensures model == Initial(bucketsNum, bucketKeys, bitmap)
      ensures View(docOf, model) == map[]
    {
      var ids: seq<array<int>>, codes: seq<array<Code>> := [], [];
      for i := 0 to bucketsNum
        invariant |ids| == |codes| == i && fresh(ids) && fresh(codes)
        invariant forall k, j :: 0 <= k < j < i ==> ids[k] != ids[j] && codes[k] != codes[j]
        invariant forall k :: 0 <= k < i ==> ids[k].Length == codes[k].Length == bucketKeys
      {
        var id := new int[bucketKeys](_ => 0);
        var code := new Code[bucketKeys](_ => []);
        ids, codes := ids + [id], codes + [code];
      }
      this.docOf, this.coef, this.bucketKeysLimit := docOf, coef, bucketKeysLimit;
      idxArray, codesArray := ids, codes;
      retrieveIdxPos := seq(bucketsNum, _ => 0);
      curBucketKeys := seq(bucketsNum, _ => bucketKeys);
      bucketExtendTime := seq(bucketsNum, _ => 0);
      deletedNums := seq(bucketsNum, _ => 0);
      vidBucketNoPos := seq(bucketsNum * bucketKeys, _ => -1);
      compactedNum, docidsBitmap := 0, bitmap;
      model := Initial(bucketsNum, bucketKeys, bitmap);
      InitialKeeps(docOf, bucketsNum, bucketKeys, bitmap);
    }

    /** buckets_num_ */
    function BucketsNum(): (n: nat)
      requires Represents() == true
      reads this, idxArray, codesArray
      ensures n == |model.buckets| == |model.caps| == |retrieveIdxPos| == |curBucketKeys| == |codesArray|
    {
      |idxArray|
    }

    // ----- Reverse table -----

    /** The reverse table doubled, the new half unset. */
    method ExtendIDs()
      modifies `vidBucketNoPos
      ensures vidBucketNoPos == old(vidBucketNoPos) + seq(|old(vidBucketNoPos)|, _ => -1)
    {
      vidBucketNoPos := vidBucketNoPos + seq(|vidBucketNoPos|, _ => -1);
    }

    /** Only the dead counter of the bucket that the vector's entry names is touched. */
    method CountDeleted(vid: nat)
      requires vid < |vidBucketNoPos| && vidBucketNoPos[vid] >= -1
      requires Decode(vidBucketNoPos[vid]).At? ==> Decode(vidBucketNoPos[vid]).bucket < |deletedNums|
      modifies `deletedNums
      ensures deletedNums == var loc := Decode(vidBucketNoPos[vid]);
                if loc.Unset? then old(deletedNums)
                    else old(deletedNums)[loc.bucket := old(deletedNums)[loc.bucket] + 1]
    {
      var bucketNoPos := vidBucketNoPos[vid];
      if bucketNoPos == -1 {
        return;
      }
      var bucketNo := bucketNoPos / SHIFT_32;
      deletedNums := deletedNums[bucketNo := deletedNums[bucketNo] + 1];
    }

    // ----- Growing a bucket -----

    /** Puts a new pair of buffers in place of the old pair of one bucket. */
    method Install(bucketNo: nat, ids: array<int>, codes: array<Code>, ghost slots: seq<Slot>, cap: nat)
      requires Buffers() && bucketNo < |idxArray| == |model.caps|
      requires ids !in idxArray && codes !in codesArray && BucketOk(ids, codes, slots, cap)
      modifies `idxArray, `codesArray, `curBucketKeys, `model
      ensures Buffers()
      ensures idxArray == old(idxArray)[bucketNo := ids] && codesArray == old(codesArray)[bucketNo := codes]
      ensures curBucketKeys == old(curBucketKeys)[bucketNo := cap]
      ensures model == old(model).(buckets := old(model).buckets[bucketNo := slots],
              caps := old(model).caps[bucketNo := cap])
    {
      idxArray := idxArray[bucketNo := ids];
      codesArray := codesArray[bucketNo := codes];
      curBucketKeys := curBucketKeys[bucketNo := cap];
      model := model.(buckets := model.buckets[bucketNo := slots], caps := model.caps[bucketNo := cap]);
    }

    /** A larger pair of buffers with the same contents. */
    method ExtendBucketMem(bucketNo: nat, increment: nat)
      requires Represents() && bucketNo < |idxArray|
      requires retrieveIdxPos[bucketNo] + increment <= 0x2000_0000
      requires curBucketKeys[bucketNo] * 2 < bucketKeysLimit
      modifies `idxArray, `codesArray, `curBucketKeys, `bucketExtendTime, `model
      ensures Represents() && |idxArray| == |old(idxArray)|
      ensures fresh(idxArray[bucketNo]) && fresh(codesArray[bucketNo])
      ensures idxArray == old(idxArray)[bucketNo := idxArray[bucketNo]] &&
              codesArray == old(codesArray)[bucketNo := codesArray[bucketNo]]
      ensures Extended(old(model), model, bucketNo, retrieveIdxPos[bucketNo] + increment)
    {
      ghost var slots := model.buckets[bucketNo];
      var least := retrieveIdxPos[bucketNo] + increment;
      var extendSize, time := ExtendSize(coef, curBucketKeys[bucketNo], bucketExtendTime[bucketNo], least);
      var ids, codes := CopyBucket(idxArray[bucketNo], codesArray[bucketNo], slots, retrieveIdxPos[bucketNo],
          extendSize);
      Install(bucketNo, ids, codes, slots, extendSize);
      bucketExtendTime := bucketExtendTime[bucketNo := time];
      assert model.buckets == old(model).buckets;
    }

    /** Zero when the bucket takes `keysSize` more slots; otherwise nothing changes but, at most, a capacity. */
    method ExtendBucketIfNeed(bucketNo: nat, keysSize: nat) returns (ret: int)
      requires Represents() && bucketNo < |idxArray|
      requires retrieveIdxPos[bucketNo] + keysSize <= 0x2000_0000
      modifies `idxArray, `codesArray, `curBucketKeys, `bucketExtendTime, `model
      ensures Represents() && |idxArray| == |old(idxArray)|
      ensures ret != 0 <==> old(Refuses(bucketNo, keysSize))
      ensures ret != 0 ==> idxArray == old(idxArray) && codesArray == old(codesArray) && model == old(model)
      ensures idxArray[bucketNo] == old(idxArray[bucketNo]) || fresh(idxArray[bucketNo])
      ensures codesArray[bucketNo] == old(codesArray[bucketNo]) || fresh(codesArray[bucketNo])
      ensures idxArray == old(idxArray)[bucketNo := idxArray[bucketNo]] &&
              codesArray == old(codesArray)[bucketNo := codesArray[bucketNo]]
      ensures ret == 0 ==> Extended(old(model), model, bucketNo, retrieveIdxPos[bucketNo] + keysSize)
    {
      if retrieveIdxPos[bucketNo] + keysSize <= curBucketKeys[bucketNo] {
        ret := 0;
      } else if curBucketKeys[bucketNo] * 2 >= bucketKeysLimit {
        ret := -1;
      } else {
        ExtendBucketMem(bucketNo, keysSize);
        ret := 0;
      }
    }

    /** The two guards of `ExtendBucketIfNeed` that refuse: no room, and too large to grow. */
    predicate Refuses(bucketNo: nat, keysSize: nat)
      reads this
      requires bucketNo < |retrieveIdxPos| && bucketNo < |curBucketKeys|
    {
      && retrieveIdxPos[bucketNo] + keysSize > curBucketKeys[bucketNo]
      && curBucketKeys[bucketNo] * 2 >= bucketKeysLimit
    }

    // ----- Adding -----

    /** Points each key's entry at its new slot, growing the table and counting keys already deleted. */
    method PointAt(listNo: nat, keys: seq<nat>, ghost codes: seq<Code>, start: nat)
      requires Tables() && |model.buckets| == |model.dead| && listNo < |model.buckets| < 0x8000_0000
      requires |keys| == |codes| && start == |model.buckets[listNo]| && start + |keys| < 0x8000_0000
      modifies `vidBucketNoPos, `deletedNums
      ensures var m := AddAll(docOf, model, listNo, keys, codes);
              |vidBucketNoPos| > 0 && RevOk(vidBucketNoPos, m.rev) && deletedNums == m.dead
    {
      var pos := start;
      for i := 0 to |keys|
        invariant pos == start + i
        invariant var m := AddAll(docOf, model, listNo, keys[..i], codes[..i]);
                  |vidBucketNoPos| > 0 && RevOk(vidBucketNoPos, m.rev) && deletedNums == m.dead
      {
        ghost var m := AddAll(docOf, model, listNo, keys[..i], codes[..i]);
        assert keys[..i + 1][..i] == keys[..i] && codes[..i + 1][..i] == codes[..i];
        PointOne(listNo, keys[i], codes[i], pos, m);
        pos := pos + 1;
      }
      assert keys[..|keys|] == keys && codes[..|keys|] == codes;
    }

    /** One iteration of the loop over the keys. */
    method PointOne(listNo: nat, vid: nat, ghost code: Code, pos: nat, ghost m: State)
      requires |vidBucketNoPos| > 0 && RevOk(vidBucketNoPos, m.rev) && deletedNums == m.dead &&
               docidsBitmap == m.deleted
      requires listNo < |m.buckets| == |m.dead| && pos == |m.buckets[listNo]| < 0x8000_0000
      modifies `vidBucketNoPos, `deletedNums
      ensures |vidBucketNoPos| > 0 && RevOk(vidBucketNoPos, AddOne(docOf, m, listNo, vid, code).rev)
      ensures deletedNums == AddOne(docOf, m, listNo, vid, code).dead
    {
      GrowIDs(vid, m.rev);
      RevOkUpdate(vidBucketNoPos, GrowTo(m.rev, vid), vid, listNo, pos);
      vidBucketNoPos := vidBucketNoPos[vid := Pack(listNo, pos)];
      assert RevOk(vidBucketNoPos, Append(m, listNo, vid, code).rev);
      if docOf(vid) in docidsBitmap {
        CountDeleted(vid);
      }
    }

    /** Doubles the reverse table until it has an entry for `vid`. */
    method GrowIDs(vid: nat, ghost rev: seq<Loc>)
      requires |rev| > 0 && RevOk(vidBucketNoPos, rev)
      modifies `vidBucketNoPos
      ensures RevOk(vidBucketNoPos, GrowTo(rev, vid))
    {
      ghost var r := rev;
      while vid >= |vidBucketNoPos|
        invariant |r| > 0 && RevOk(vidBucketNoPos, r) && GrowTo(r, vid) == GrowTo(rev, vid)
        decreases vid - |vidBucketNoPos|
      {
        ExtendIDs();
        r := r + Unsets(|r|);
      }
    }

    /**
      Appends keys.  Refusal and a length mismatch leave the contents alone; otherwise the new
      model is `AddAll` of the old one.  From a valid index and fresh distinct keys the index
      stays valid and its view gains exactly the undeleted keys.
     */
    method AddKeys(listNo: nat, n: nat, keys: seq<nat>, codes: seq<Code>) returns (ok: bool)
      requires Represents() && listNo < |idxArray| && n >= |keys| && |model.dead| == |model.buckets|
      requires retrieveIdxPos[listNo] + n <= 0x2000_0000 && forall i :: 0 <= i < |keys| ==> keys[i] < DEL_BIT
      modifies this, idxArray[listNo], codesArray[listNo]
      ensures Represents() && |model.caps| == |old(model.caps)|
      ensures ok <==> old(!Refuses(listNo, n)) && |keys| == |codes|
      ensures old(Refuses(listNo, n)) ==> model == old(model)
      ensures old(!Refuses(listNo, n)) ==>
                var grown := old(model).(caps := old(model).caps[listNo := model.caps[listNo]]);
                && Extended(old(model), grown, listNo, |old(model).buckets[listNo]| + n)
                && model == if ok then AddAll(docOf, grown, listNo, keys, codes) else grown
      ensures old(Valid() && Distinct(keys) && forall i :: 0 <= i < |keys| ==> Fresh(model, keys[i])) ==>
                && Valid()
                && View(docOf, model) ==
                   if ok then BindAll(docOf, old(model).deleted, View(docOf, old(model)), listNo, keys, codes)
                       else View(docOf, old(model))
    {
      var refused := ExtendBucketIfNeed(listNo, n);
      if refused != 0 {
        return false;
      }
      ghost var grown := model;
      assert grown == old(model).(caps := old(model).caps[listNo := grown.caps[listNo]]);
      if |keys| == |codes| {
        AppendSlots(listNo, keys, codes);
      }
      ok := |keys| == |codes|;
      if old(Valid() && Distinct(keys) && forall i :: 0 <= i < |keys| ==> Fresh(model, keys[i])) {
        ExtendBucketKeeps(docOf, old(model), grown, listNo, |old(model).buckets[listNo]| + n);
        if ok {
          AddAllKeeps(docOf, grown, listNo, keys, codes);
        }
      }
    }

    /** The part of `AddKeys` after its two checks; also the tail of a moving `Update`. */
    method AppendSlots(listNo: nat, keys: seq<nat>, codes: seq<Code>)
      requires Represents() && listNo < |idxArray| && |model.dead| == |model.buckets| && |keys| == |codes|
      requires retrieveIdxPos[listNo] + |keys| <= curBucketKeys[listNo]
      requires forall i :: 0 <= i < |keys| ==> keys[i] < DEL_BIT
      modifies this, idxArray[listNo], codesArray[listNo]
      ensures Represents() && model == AddAll(docOf, old(model), listNo, keys, codes)
      ensures idxArray == old(idxArray) && codesArray == old(codesArray)
    {
      var pos := retrieveIdxPos[listNo];
      CopyIn(listNo, keys, codes, pos);
      PointAt(listNo, keys, codes, pos);
      AddAllSlots(docOf, model, listNo, keys, codes);
      Publish(listNo, pos + |keys|, AddAll(docOf, model, listNo, keys, codes));
    }

    /** Moves the bucket's length to `n`, after which readers see the model `m`. */
    method Publish(listNo: nat, n: nat, ghost m: State)
      requires Sized() && listNo < |idxArray|
      requires forall i, j :: 0 <= i < j < |idxArray| ==> idxArray[i] != idxArray[j] && codesArray[i] != codesArray[j]
      requires |m.buckets| == |idxArray| && m.caps == model.caps && |m.buckets[listNo]| == n
      requires forall b :: 0 <= b < |idxArray| && b != listNo ==> m.buckets[b] == model.buckets[b]
      requires forall b :: 0 <= b < |idxArray| ==> BucketOk(idxArray[b], codesArray[b], m.buckets[b], curBucketKeys[b])
      requires |vidBucketNoPos| > 0 && RevOk(vidBucketNoPos, m.rev) && deletedNums == m.dead
      requires compactedNum == m.compacted && docidsBitmap == m.deleted && Coefficient(coef) &&
               bucketKeysLimit <= 0x4000_0000
      modifies `retrieveIdxPos, `model
      ensures Represents() && model == m
    {
      retrieveIdxPos := retrieveIdxPos[listNo := n];
      model := m;
    }

    /** The two block copies: stored ids and codes land just past the bucket's last slot. */
    method CopyIn(listNo: nat, keys: seq<nat>, codes: seq<Code>, pos: nat)
      requires Buffers() && listNo < |idxArray| && |keys| == |codes|
      requires pos == |model.buckets[listNo]| && pos + |keys| <= curBucketKeys[listNo]
      requires forall i :: 0 <= i < |keys| ==> keys[i] < DEL_BIT
      modifies idxArray[listNo], codesArray[listNo]
      ensures forall b :: 0 <= b < |idxArray| ==>
                BucketOk(idxArray[b], codesArray[b],
                         if b == listNo then model.buckets[b] + NewSlots(keys, codes)
                             else model.buckets[b], curBucketKeys[b])
    {
      ghost var slots := model.buckets[listNo];
      assert BucketOk(idxArray[listNo], codesArray[listNo], slots, curBucketKeys[listNo]);
      var ids, cs := idxArray[listNo], codesArray[listNo];
      forall i | 0 <= i < |keys| {
        ids[pos + i] := keys[i];
      }
      forall i | 0 <= i < |keys| {
        cs[pos + i] := codes[i];
      }
      forall p | 0 <= p < |slots| + |keys| ensures SlotOk(ids[p], cs[p], (slots + NewSlots(keys, codes))[p]) {
        if p < |slots| {
          assert SlotOk(old(idxArray[listNo][p]), old(codesArray[listNo][p]), slots[p]);
        } else {
          assert ids[pos + (p - pos)] == keys[p - pos] && cs[pos + (p - pos)] == codes[p - pos];
        }
      }
      forall b | 0 <= b < |idxArray| && b != listNo
        ensures BucketOk(idxArray[b], codesArray[b], model.buckets[b], curBucketKeys[b])
      {
        assert old(BucketOk(idxArray[b], codesArray[b], model.buckets[b], curBucketKeys[b]));
        assert idxArray[b] != ids && codesArray[b] != cs;
      }
    }

    // ----- Updating -----

    /** An update has to take the vector to another bucket. */
    predicate Moves(bucketNo: nat, vid: nat)
      reads this
    {
      vid < |vidBucketNoPos| && vidBucketNoPos[vid] != -1 && vidBucketNoPos[vid] / SHIFT_32 != bucketNo
    }

    /**
      Rebinds a live vector, and nothing else, to the given bucket and code.  The index stays valid
      exactly when nothing moves, or the target bucket takes the slot and the document has not been
      deleted.  A refused move has already tombstoned the slot; a move after a deletion only
      counts the slot as dead a second time.
     */
    method Update(bucketNo: nat, vid: nat, code: Code) returns (ret: int)
      requires Valid() && bucketNo < |idxArray| && vid < DEL_BIT
      requires vid < |model.rev| && model.rev[vid].At? ==> Resolves(model, vid)
      requires retrieveIdxPos[bucketNo] + 1 <= 0x2000_0000
      modifies this, idxArray, codesArray
      ensures Represents()
      ensures Valid() <==> old(Moves(bucketNo, vid) ==> !Refuses(bucketNo, 1) && Live(docOf, model, vid))
      ensures Valid() ==>
                View(docOf, model) == (var m := View(docOf, old(model)); if vid in m
                    then m[vid := (bucketNo, code)] else m)
      ensures old(Moves(bucketNo, vid) && Refuses(bucketNo, 1)) ==>
              Resolves(old(model), vid) && model == Tombstone(old(model), vid)
      ensures old(!Refuses(bucketNo, 1)) ==>
                Sound(docOf, model) && (!Valid() ==> View(docOf, model) == View(docOf, old(model)))
      ensures ret == if old(Moves(bucketNo, vid) && !Refuses(bucketNo, 1)) then 1 else 0
    {
      if vid >= |vidBucketNoPos| {
        return 0;
      }
      var bucketNoPos := vidBucketNoPos[vid];
      if bucketNoPos == -1 {
        return 0;
      }
      var oldBucketNo := bucketNoPos / SHIFT_32;
      var oldPos := bucketNoPos % SHIFT_32;
      assert model.rev[vid] == At(oldBucketNo, oldPos) && Resolves(model, vid);
      if oldBucketNo == bucketNo {
        OverwriteCode(vid, oldBucketNo, oldPos, code);
        OverwriteKeeps(docOf, old(model), vid, code);
        return 0;
      }
      var ok := MoveTo(bucketNo, vid, oldBucketNo, oldPos, code);
      ret := if ok then 1 else 0;
    }

    /** Tombstone here, append there: the branch of `Update` that changes the bucket. */
    method MoveTo(bucketNo: nat, vid: nat, oldBucketNo: nat, oldPos: nat, code: Code) returns (ok: bool)
      requires Valid() && bucketNo < |idxArray| && oldBucketNo < |idxArray| && vid < DEL_BIT
      requires vid < |model.rev| && model.rev[vid] == At(oldBucketNo, oldPos) && oldBucketNo != bucketNo &&
               Resolves(model, vid)
      requires retrieveIdxPos[bucketNo] + 1 <= 0x2000_0000
      modifies this, idxArray, codesArray
      ensures Represents() && (ok <==> !old(Refuses(bucketNo, 1)))
      ensures ok ==> Sound(docOf, model) && (Inv(docOf, model) <==> old(Live(docOf, model, vid)))
      ensures ok ==>
              View(docOf, model) == var m := View(docOf, old(model)); if vid in m then m[vid := (bucketNo, code)] else m
      ensures !ok ==> model == Tombstone(old(model), vid) && !Inv(docOf, model)
    {
      MarkDeleted(vid, oldBucketNo, oldPos);
      TombstoneBreaks(docOf, old(model), vid);
      ghost var marked := model;
      ok := AddKeys(bucketNo, 1, [vid], [code]);
      if ok {
        MoveAfterGrowth(docOf, old(model), bucketNo, vid, code, model.caps[bucketNo]);
        assert [vid][..0] == [] && [code][..0] == [];
        ghost var grown := marked.(caps := marked.caps[bucketNo := model.caps[bucketNo]]);
        assert AddAll(docOf, grown, bucketNo, [vid], [code]) == AddOne(docOf, grown, bucketNo, vid, code);
      }
    }

    method OverwriteCode(ghost vid: nat, bucketNo: nat, pos: nat, code: Code)
      requires Represents() && vid < |model.rev| && model.rev[vid] == At(bucketNo, pos) && Resolves(model, vid)
      requires bucketNo < |codesArray| && pos < codesArray[bucketNo].Length
      modifies codesArray[bucketNo], `model
      ensures Represents() && model == Overwrite(old(model), vid, code)
    {
      ghost var m := Overwrite(model, vid, code);
      var codes := codesArray[bucketNo];
      codes[pos] := code;
      forall b | 0 <= b < |idxArray| ensures BucketOk(idxArray[b], codesArray[b], m.buckets[b], curBucketKeys[b]) {
        assert old(BucketOk(idxArray[b], codesArray[b], model.buckets[b], curBucketKeys[b]));
        assert b != bucketNo ==> codesArray[b] != codes;
      }
      model := m;
    }

    /** Sets bit 63 of the stored id and counts the slot as dead. */
    method MarkDeleted(ghost vid: nat, bucketNo: nat, pos: nat)
      requires Represents() && vid < |model.rev| && model.rev[vid] == At(bucketNo, pos) && Resolves(model, vid)
      requires |model.dead| == |model.buckets| && bucketNo < |idxArray| && pos < idxArray[bucketNo].Length
      modifies idxArray[bucketNo], `deletedNums, `model
      ensures Represents() && model == Tombstone(old(model), vid)
    {
      ghost var m := Tombstone(model, vid);
      var ids := idxArray[bucketNo];
      assert BucketOk(ids, codesArray[bucketNo], model.buckets[bucketNo], curBucketKeys[bucketNo]);
      assert SlotOk(ids[pos], codesArray[bucketNo][pos], model.buckets[bucketNo][pos]);
      ids[pos] := SetDel(ids[pos]);
      deletedNums := deletedNums[bucketNo := deletedNums[bucketNo] + 1];
      forall b | 0 <= b < |idxArray| ensures BucketOk(idxArray[b], codesArray[b], m.buckets[b], curBucketKeys[b]) {
        assert old(BucketOk(idxArray[b], codesArray[b], model.buckets[b], curBucketKeys[b]));
        assert b != bucketNo ==> idxArray[b] != ids;
      }
      model := m;
    }

    // ----- Deleting -----

    /** The index side of a deletion: one count per indexed vector. */
    method Delete(vids: seq<nat>)
      requires Represents() && AllInRange(model.rev, |model.dead|)
      modifies `deletedNums, `model
      ensures Represents() && model == CountDeletes(old(model), vids)
    {
      for i := 0 to |vids|
        invariant Represents() && model == CountDeletes(old(model), vids[..i])
      {
        assert vids[..i + 1][..i] == vids[..i];
        if |vidBucketNoPos| > vids[i] {
          DeleteOne(vids[i]);
        }
      }
      assert vids[..|vids|] == vids;
    }

    method DeleteOne(vid: nat)
      requires Represents() && AllInRange(model.rev, |model.dead|) && vid < |model.rev|
      modifies `deletedNums, `model
      ensures Represents() && model == CountDelete(old(model), vid)
    {
      CountDeleted(vid);
      model := CountDelete(model, vid);
      assert Sized() && Buffers();
    }

    /** The engine's deletion of a live document: bitmap bit and index counts in one step. */
    method DeleteDocument(doc: int, vids: seq<nat>)
      requires Valid() && doc !in docidsBitmap && VidsOf(docOf, model, doc, vids)
      modifies `docidsBitmap, `deletedNums, `model
      ensures Valid() && model == DeleteDoc(old(model), doc, vids)
      ensures View(docOf, model) == map v | v in View(docOf, old(model)) &&
              docOf(v) != doc :: View(docOf, old(model))[v]
    {
      docidsBitmap := docidsBitmap + {doc};
      model := RealtimeIndex.MarkDeleted(model, doc);
      Delete(vids);
      DeleteDocKeeps(docOf, old(model), doc, vids);
    }

    // ----- Compaction -----

    /** Copies the live slots of one bucket to new buffers, repointing each vector. */
    method CompactBucket(bucketNo: nat)
      requires Valid() && bucketNo < |idxArray|
      modifies this
      ensures Valid() && model == Compact(docOf, old(model), bucketNo)
      ensures View(docOf, model) == View(docOf, old(model)) && Ever(model) == Ever(old(model))
      ensures |idxArray| == |old(idxArray)| && compactedNum >= old(compactedNum)
      ensures deletedNums == old(deletedNums)[bucketNo := 0]
      ensures retrieveIdxPos == old(retrieveIdxPos)[bucketNo := retrieveIdxPos[bucketNo]]
      ensures idxArray == old(idxArray)[bucketNo := idxArray[bucketNo]]
      ensures codesArray == old(codesArray)[bucketNo := codesArray[bucketNo]]
    {
      CompactCounts(docOf, model, bucketNo);
      CompactKeeps(docOf, model, bucketNo);
      var ids, codes, pos := CompactSlots(bucketNo);
      SwapIn(bucketNo, ids, codes, pos, Compact(docOf, model, bucketNo));
    }

    /** The assignments after the loop. */
    method SwapIn(bucketNo: nat, ids: array<int>, codes: array<Code>, pos: nat, ghost m: State)
      requires Sized() && Buffers() && bucketNo < |idxArray| == |m.buckets| && |model.dead| == |model.buckets|
      requires ids !in idxArray && codes !in codesArray &&
               BucketOk(ids, codes, m.buckets[bucketNo], curBucketKeys[bucketNo])
      requires m.buckets == model.buckets[bucketNo := m.buckets[bucketNo]] && m.caps == model.caps &&
               pos == |m.buckets[bucketNo]|
      requires |vidBucketNoPos| > 0 && RevOk(vidBucketNoPos, m.rev) && deletedNums == model.dead
      requires m.dead == model.dead[bucketNo := 0] && m.compacted == compactedNum + retrieveIdxPos[bucketNo] - pos
      requires docidsBitmap == m.deleted && Coefficient(coef) && bucketKeysLimit <= 0x4000_0000
      modifies `idxArray, `codesArray, `curBucketKeys, `compactedNum, `retrieveIdxPos, `deletedNums, `model
      ensures Represents() && model == m
      ensures idxArray == old(idxArray)[bucketNo := ids] && codesArray == old(codesArray)[bucketNo := codes]
      ensures retrieveIdxPos == old(retrieveIdxPos)[bucketNo := pos]
    {
      Install(bucketNo, ids, codes, m.buckets[bucketNo], curBucketKeys[bucketNo]);
      var n := retrieveIdxPos[bucketNo] - pos;
      compactedNum := compactedNum + n;
      retrieveIdxPos := retrieveIdxPos[bucketNo := pos];
      deletedNums := deletedNums[bucketNo := 0];
      model := m;
    }

    /** The loop over `CompactOne`. */
    method CompactSlots(bucketNo: nat) returns (ids: array<int>, codes: array<Code>, pos: nat)
      requires Valid() && bucketNo < |idxArray|
      modifies `vidBucketNoPos
      ensures fresh(ids) && fresh(codes)
      ensures Compacted(docOf, model, bucketNo, ids, codes, pos, vidBucketNoPos, |model.buckets[bucketNo]|)
    {
      ids := new int[curBucketKeys[bucketNo]](_ => 0);
      codes := new Code[curBucketKeys[bucketNo]](_ => []);
      pos := 0;
      for i := 0 to retrieveIdxPos[bucketNo]
        invariant Compacted(docOf, model, bucketNo, ids, codes, pos, vidBucketNoPos, i)
      {
        assert BucketOk(idxArray[bucketNo], codesArray[bucketNo], model.buckets[bucketNo], curBucketKeys[bucketNo]);
        pos, vidBucketNoPos := CompactOne(docOf, docidsBitmap, bucketNo, idxArray[bucketNo][i], codesArray[bucketNo][i],
                                          ids, codes, pos, vidBucketNoPos, model, i);
      }
    }

    /**
      At least thirty per cent of a non-empty bucket is dead; for an empty bucket the source
      compares a not-a-number, which is false.
     */
    predicate Compactable(bucketNo: nat)
      reads this
      requires bucketNo < |deletedNums| && bucketNo < |retrieveIdxPos|
    {
      retrieveIdxPos[bucketNo] > 0 && 10 * deletedNums[bucketNo] >= 3 * retrieveIdxPos[bucketNo]
    }

    /** What is stored of every bucket. */
    ghost function Stored(): Rows
      reads this
    {
      Rows(model.buckets, idxArray, codesArray, retrieveIdxPos, deletedNums)
    }

    /** One turn of the loop of `CompactIfNeed`. */
    method CompactOneIfNeed(bucketNo: nat)
      requires Valid() && bucketNo < |idxArray|
      modifies this
      ensures Valid() && |idxArray| == |old(idxArray)|
      ensures View(docOf, model) == View(docOf, old(model)) && Ever(model) == Ever(old(model))
      ensures compactedNum >= old(compactedNum) && model.deleted == old(model).deleted
      ensures Settled(docOf, model.deleted, old(Stored()), Stored(), bucketNo) == true
      ensures OthersUntouched(old(Stored()), Stored(), bucketNo) == true
    {
      if Compactable(bucketNo) {
        CompactBucket(bucketNo);
      }
    }

    /**
      Compacts every bucket that wants it: the view stays, afterwards no bucket is thirty per cent dead,
      and one that was not before has its buffers and counters as they were.
     */
    method CompactIfNeed()
      requires Valid()
      modifies this
      ensures Valid() && |idxArray| == |old(idxArray)|
      ensures View(docOf, model) == View(docOf, old(model)) && Ever(model) == Ever(old(model))
      ensures compactedNum >= old(compactedNum)
      ensures forall b :: 0 <= b < |idxArray| && retrieveIdxPos[b] > 0 ==> 10 * deletedNums[b] < 3 * retrieveIdxPos[b]
      ensures forall b :: 0 <= b < |idxArray| ==> Settled(docOf, model.deleted, old(Stored()), Stored(), b)
    {
      ghost var view, ever, was := View(docOf, model), Ever(model), Stored();
      NothingTouched(was);
      hide View, Ever, Inv, Settled, Untouched, OthersUntouched;
      for i := 0 to |idxArray|
        invariant Valid() == true && |idxArray| == |old(idxArray)| && model.deleted == old(model).deleted
        invariant View(docOf, model) == view && Ever(model) == ever && compactedNum >= old(compactedNum)
        invariant forall b :: 0 <= b < i ==> Settled(docOf, model.deleted, was, Stored(), b)
        invariant forall b :: i <= b < |idxArray| ==> Untouched(was, Stored(), b)
      {
        ghost var mid := Stored();
        CompactOneIfNeed(i);
        SettledNext(docOf, model.deleted, was, mid, Stored(), i);
      }
      forall b | 0 <= b < |idxArray| && retrieveIdxPos[b] > 0 ensures 10 * deletedNums[b] < 3 * retrieveIdxPos[b] {
        BelowThirty(docOf, model.deleted, was, Stored(), b);
      }
    }
  }

  datatype Rows = Rows(slots: seq<seq<Slot>>, ids: seq<array<int>>, codes: seq<array<Code>>, pos: seq<nat>,
    dead: seq<int>)

  ghost predicate Untouched(was: Rows, now: Rows, b: nat) {
    && b < |was.slots| && b < |was.ids| && b < |was.codes| && b < |was.pos| && b < |was.dead|
    && b < |now.slots| && b < |now.ids| && b < |now.codes| && b < |now.pos| && b < |now.dead|
    && now.slots[b] == was.slots[b] && now.ids[b] == was.ids[b] && now.codes[b] == was.codes[b]
    && now.pos[b] == was.pos[b] && now.dead[b] == was.dead[b]
  }

  ghost predicate OthersUntouched(was: Rows, now: Rows, bucketNo: nat) {
    forall b :: 0 <= b < |now.ids| && b != bucketNo ==> Untouched(was, now, b)
  }

  /** A bucket thirty per cent dead or more was rebuilt from its live slots, and any other not touched. */
  ghost predicate Settled(docOf: DocOf, deleted: set<int>, was: Rows, now: Rows, b: nat) {
    && b < |was.slots| && b < |was.pos| && b < |was.dead| && b < |now.slots| && b < |now.dead|
    && if was.pos[b] > 0 && 10 * was.dead[b] >= 3 * was.pos[b] then
         now.slots[b] == Kept(docOf, deleted, was.slots[b], |was.slots[b]|) && now.dead[b] == 0
       else
         Untouched(was, now, b)
  }

  lemma NothingTouched(was: Rows)
    requires |was.slots| == |was.ids| == |was.codes| == |was.pos| == |was.dead|
    ensures forall b :: 0 <= b < |was.ids| ==> Untouched(was, was, b)
  {
  }

  lemma SettledNext(docOf: DocOf, deleted: set<int>, was: Rows, mid: Rows, now: Rows, i: nat)
    requires i < |mid.ids| == |now.ids|
    requires forall b :: 0 <= b < i ==> Settled(docOf, deleted, was, mid, b)
    requires forall b :: i <= b < |mid.ids| ==> Untouched(was, mid, b)
    requires Settled(docOf, deleted, mid, now, i) && OthersUntouched(mid, now, i)
    ensures forall b :: 0 <= b < i + 1 ==> Settled(docOf, deleted, was, now, b)
    ensures forall b :: i + 1 <= b < |now.ids| ==> Untouched(was, now, b)
  {
    hide Kept;
    assert Untouched(was, mid, i);
    forall b | 0 <= b < i ensures Settled(docOf, deleted, was, now, b) {
      assert Settled(docOf, deleted, was, mid, b) && Untouched(mid, now, b);
    }
    forall b | i + 1 <= b < |now.ids| ensures Untouched(was, now, b) {
      assert Untouched(was, mid, b) && Untouched(mid, now, b);
    }
  }

  lemma BelowThirty(docOf: DocOf, deleted: set<int>, was: Rows, now: Rows, b: nat)
    requires Settled(docOf, deleted, was, now, b) && b < |now.pos| && now.pos[b] > 0
    ensures 10 * now.dead[b] < 3 * now.pos[b]
  {
    hide Kept;
  }

  lemma {:induction false} KeptFits(docOf: DocOf, deleted: set<int>, slots: seq<Slot>, n: nat)
    requires n <= |slots|
    ensures |Kept(docOf, deleted, slots, n)| <= n
  {
    LiveIdxIsOrderedAndExact(docOf, deleted, slots, n);
  }

  /** The new buffers hold what is kept of the first `i` slots, and the table points there. */
  ghost predicate Compacted(docOf: DocOf, m: State, b: nat, ids: array<int>, codes: array<Code>, pos: nat,
      packed: seq<int>, i: nat)
    reads ids, codes
    requires b < |m.buckets| == |m.caps| && i <= |m.buckets[b]| && SlotsPointedAt(m)
  {
    && pos == |Kept(docOf, m.deleted, m.buckets[b], i)|
    && BucketOk(ids, codes, Kept(docOf, m.deleted, m.buckets[b], i), m.caps[b])
    && |packed| > 0
    && RevOk(packed, Reindex(docOf, m.deleted, m.rev, b, m.buckets[b], i))
  }

  /** One slot: copied and repointed when it is live, skipped otherwise. */
  method CompactOne(docOf: DocOf, bitmap: set<int>, bucketNo: nat, srcId: int, srcCode: Code,
                    ids: array<int>, codes: array<Code>, dst: nat, packed: seq<int>, ghost m: State, ghost i: nat)
    returns (pos: nat, packed': seq<int>)
    requires bucketNo < |m.buckets| == |m.caps| && SlotsPointedAt(m) && bitmap == m.deleted
    requires i < |m.buckets[bucketNo]| <= m.caps[bucketNo] < 0x8000_0000
    requires Compacted(docOf, m, bucketNo, ids, codes, dst, packed, i) && SlotOk(srcId, srcCode, m.buckets[bucketNo][i])
    modifies ids, codes
    ensures Compacted(docOf, m, bucketNo, ids, codes, pos, packed', i + 1)
  {
    hide Kept, Reindex;
    ghost var slots := m.buckets[bucketNo];
    ghost var kept, rev := Kept(docOf, m.deleted, slots, i), Reindex(docOf, m.deleted, m.rev, bucketNo, slots, i);
    KeptStep(docOf, m.deleted, slots, i);
    ReindexStep(docOf, m.deleted, m.rev, bucketNo, slots, i);
    KeptFits(docOf, m.deleted, slots, i);
    if !IsDel(srcId) && docOf(Recover(srcId)) !in bitmap {
      assert SlotLive(docOf, m.deleted, slots[i]) && srcId == slots[i].vid;
      ids[dst] := srcId;
      codes[dst] := srcCode;
      assert BucketOk(ids, codes, kept + [slots[i]], m.caps[bucketNo]);
      RevOkUpdate(packed, rev, srcId, bucketNo, dst);
      pos, packed' := dst + 1, packed[srcId := Pack(bucketNo, dst)];
    } else {
      assert !SlotLive(docOf, m.deleted, slots[i]);
      pos, packed' := dst, packed;
    }
  }

  lemma RevOkUpdate(packed: seq<int>, rev: seq<Loc>, vid: nat, bucket: nat, pos: nat)
    requires RevOk(packed, rev) && vid < |rev| && pos < SHIFT_32
    ensures RevOk(packed[vid := Pack(bucket, pos)], rev[vid := At(bucket, pos)])
  {
    DecodePack(bucket, pos);
  }

  lemma ReindexStep(docOf: DocOf, deleted: set<int>, rev: seq<Loc>, b: nat, slots: seq<Slot>, n: nat)
    requires n < |slots|
    requires forall p :: 0 <= p < |slots| && SlotLive(docOf, deleted, slots[p]) ==> slots[p].vid < |rev|
    ensures Reindex(docOf, deleted, rev, b, slots, n + 1) ==
            var r := Reindex(docOf, deleted, rev, b, slots, n);
            if SlotLive(docOf, deleted, slots[n]) then r[slots[n].vid := At(b, |Kept(docOf, deleted, slots, n)|)] else r
  {
  }

  lemma KeptStep(docOf: DocOf, deleted: set<int>, slots: seq<Slot>, n: nat)
    requires n < |slots|
    ensures Kept(docOf, deleted, slots, n + 1) ==
            if SlotLive(docOf, deleted, slots[n])
                then Kept(docOf, deleted, slots, n) + [slots[n]] else Kept(docOf, deleted, slots, n)
  {
  }

  lemma MoveAfterGrowth(docOf: DocOf, s: State, b: nat, v: nat, code: Code, cap: nat)
    requires Inv(docOf, s) && v < |s.rev| && s.rev[v].At? && Resolves(s, v)
    requires b < |s.buckets| && b != s.rev[v].bucket && |s.buckets[b]| < cap
    ensures var m := AddOne(docOf, Tombstone(s, v).(caps := s.caps[b := cap]), b, v, code);
            && Sound(docOf, m) && (Inv(docOf, m) <==> Live(docOf, s, v))
            && View(docOf, m) == var was := View(docOf, s); if v in was then was[v := (b, code)] else was
  {
    var grown := s.(caps := s.caps[b := cap]);
    ExtendBucketKeeps(docOf, s, grown, b, |s.buckets[b]|);
    assert Tombstone(grown, v) == Tombstone(s, v).(caps := s.caps[b := cap]);
    if Live(docOf, s, v) {
      MoveKeeps(docOf, grown, b, v, code);
    } else {
      DeadMoveMiscounts(docOf, grown, b, v, code);
    }
  }

  /** A tombstoned vector that is not moved breaks the index, live or not. */
  lemma TombstoneBreaks(docOf: DocOf, s: State, v: nat)
    requires Inv(docOf, s) && v < |s.rev| && s.rev[v].At? && Resolves(s, v)
    ensures !Inv(docOf, Tombstone(s, v))
  {
    if Live(docOf, s, v) {
      RefusedMoveBreaks(docOf, s, v);
    } else {
      DeadTombstone(docOf, s, v);
    }
  }

  function NewSlots(keys: seq<nat>, codes: seq<Code>): (r: seq<Slot>)
    requires |keys| == |codes|
    ensures |r| == |keys| && forall i :: 0 <= i < |keys| ==> r[i] == Slot(keys[i], false, codes[i])
  {
    seq(|keys|, i requires 0 <= i < |keys| => Slot(keys[i], false, codes[i]))
  }

  lemma {:induction false} AddAllSlots(docOf: DocOf, s: State, b: nat, keys: seq<nat>, codes: seq<Code>)
    requires b < |s.buckets| == |s.dead| && |s.rev| > 0 && |keys| == |codes|
    ensures AddAll(docOf, s, b, keys, codes).buckets == s.buckets[b := s.buckets[b] + NewSlots(keys, codes)]
    decreases |keys|
  {
    if keys == [] {
      assert s.buckets[b] + NewSlots(keys, codes) == s.buckets[b];
    } else {
      var n := |keys| - 1;
      AddAllSlots(docOf, s, b, keys[..n], codes[..n]);
      assert s.buckets[b] + NewSlots(keys, codes) ==
             s.buckets[b] + NewSlots(keys[..n], codes[..n]) + [Slot(keys[n], false, codes[n])];
    }
  }

  method CopyBucket(ids: array<int>, codes: array<Code>, ghost slots: seq<Slot>, n: nat, size: nat)
    returns (newIds: array<int>, newCodes: array<Code>)
    requires BucketOk(ids, codes, slots, ids.Length) && n == |slots| <= size
    ensures fresh(newIds) && fresh(newCodes) && BucketOk(newIds, newCodes, slots, size)
  {
    newCodes := new Code[size](_ => []);
    forall p | 0 <= p < n {
      newCodes[p] := codes[p];
    }
    newIds := new int[size](_ => 0);
    forall p | 0 <= p < n {
      newIds[p] := ids[p];
    }
  }

  function Initial(bucketsNum: nat, bucketKeys: nat, bitmap: set<int>): State {
    State(seq(bucketsNum, _ => []), seq(bucketsNum, _ => bucketKeys), Unsets(bucketsNum * bucketKeys),
          seq(bucketsNum, _ => 0), 0, bitmap)
  }

  lemma InitialKeeps(docOf: DocOf, bucketsNum: nat, bucketKeys: nat, bitmap: set<int>)
    requires 0 < bucketsNum && 0 < bucketKeys
    ensures Inv(docOf, Initial(bucketsNum, bucketKeys, bitmap)) &&
            View(docOf, Initial(bucketsNum, bucketKeys, bitmap)) == map[]
  {
  }
}
