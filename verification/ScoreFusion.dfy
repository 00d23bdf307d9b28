/**
  Fusing the results of several vector fields (common_query_data.h, vector_manager.cc): running
  sums over hash maps that must come to one plain sum per document, whichever field found it first.
  Scores are reals.
 */
module ScoreFusion {

  /** One field's hits for one request; docid -1 marks an empty place. */
  datatype Field = Field(base: nat, docids: seq<int>, dists: seq<real>, boost: real, limit: real)

  datatype Mode = Mode(isAnd: bool, isL2: bool)

  datatype Fusion = Fusion(
    scores: map<int, real>,          // doc2vec_scores
    counts: map<int, nat>,           // doc2vec_count
    idx: map<int, map<int, int>>,    // doc2vec_idx
    accu: real)                      // accu_score

  function Prod(a: real, b: real): real {
    a * b
  }

  /** As long as each list, and no document twice in one list. */
  predicate Wf(f: Field) {
    && |f.docids| == |f.dists|
    && forall i, j :: 0 <= i < j < |f.docids| && f.docids[i] != -1 ==> f.docids[i] != f.docids[j]
  }

  // ----- The plain sum -----

  predicate Has(f: Field, id: int) {
    id != -1 && id in f.docids
  }

  function Place(docids: seq<int>, id: int): (i: nat)
    requires id in docids
    ensures i < |docids| && docids[i] == id
  {
    if docids[0] == id then 0 else Place(docids[1..], id) + 1
  }

  /** A document the field did not return is charged the limit, for OR over L2 distances. */
  function Missing(f: Field, mode: Mode): real {
    if !mode.isAnd && mode.isL2 then Prod(f.boost, f.limit) else 0.0
  }

  function Part(f: Field, mode: Mode, id: int): real
    requires Wf(f)
  {
    if Has(f, id) then Prod(f.dists[Place(f.docids, id)], f.boost) else Missing(f, mode)
  }

  predicate AllWf(fields: seq<Field>) {
    forall j :: 0 <= j < |fields| ==> Wf(fields[j])
  }

  function Score(fields: seq<Field>, mode: Mode, id: int): real
    requires AllWf(fields)
  {
    if fields == [] then 0.0
    else Score(fields[..|fields| - 1], mode, id) + Part(fields[|fields| - 1], mode, id)
  }

  function Limits(fields: seq<Field>, mode: Mode): real {
    if fields == [] then 0.0 else Limits(fields[..|fields| - 1], mode) + Missing(fields[|fields| - 1], mode)
  }

  /** How many fields have the document. */
  function Count(fields: seq<Field>, id: int): nat {
    if fields == [] then 0 else Count(fields[..|fields| - 1], id) + (if Has(fields[|fields| - 1], id) then 1 else 0)
  }

  lemma {:induction false} NoneCounts(fields: seq<Field>, mode: Mode, id: int)
    requires AllWf(fields) && Count(fields, id) == 0
    ensures Score(fields, mode, id) == Limits(fields, mode)
  {
    if fields != [] { NoneCounts(fields[..|fields| - 1], mode, id); }
  }

  lemma {:induction false} AllCount(fields: seq<Field>, id: int)
    ensures Count(fields, id) <= |fields|
    ensures Count(fields, id) == |fields| <==> forall j :: 0 <= j < |fields| ==> Has(fields[j], id)
    ensures Count(fields, id) > 0 <==> exists j :: 0 <= j < |fields| && Has(fields[j], id)
  {
    if fields != [] {
      var prev := fields[..|fields| - 1];
      AllCount(prev, id);
      assert forall j :: 0 <= j < |prev| ==> prev[j] == fields[j];
    }
  }

  // ----- What the maps hold -----

  /** The maps hold the plain sums of exactly the documents found. */
  ghost predicate ScoresOk(fields: seq<Field>, mode: Mode, s: Fusion)
    requires AllWf(fields)
  {
    forall id: int :: (id in s.scores <==> Count(fields, id) > 0) &&
        (id in s.scores ==> s.scores[id] == Score(fields, mode, id))
  }

  ghost predicate CountsOk(fields: seq<Field>, mode: Mode, s: Fusion) {
    mode.isAnd ==>
      forall id: int :: (id in s.counts <==> Count(fields, id) > 0) &&
          (id in s.counts ==> s.counts[id] == Count(fields, id))
  }

  /** A document's places: one for each field that has it, where that field has it. */
  predicate PlacesOk(fields: seq<Field>, id: int, places: map<int, int>) {
    && (forall j :: 0 <= j < |fields| && Has(fields[j], id) ==> j in places)
    && (forall j :: j in places ==>
       0 <= j < |fields| && Has(fields[j], id) && places[j] == fields[j].base + Place(fields[j].docids, id))
  }

  predicate IdxOk(fields: seq<Field>, s: Fusion) {
    s.idx.Keys == s.scores.Keys && forall id :: id in s.idx ==> PlacesOk(fields, id, s.idx[id])
  }

  ghost predicate Fused(fields: seq<Field>, mode: Mode, s: Fusion) {
    && AllWf(fields) && ScoresOk(fields, mode, s) && CountsOk(fields, mode, s) && IdxOk(fields, s)
    && s.accu == Limits(fields, mode)
  }

  // ----- One field: the loop over its hits -----

  /** The first `k` hits of a field. */
  function Cut(f: Field, k: nat): Field
    requires k <= |f.docids| == |f.dists|
  {
    f.(docids := f.docids[..k], dists := f.dists[..k])
  }

  /** The same documents, each with `m` more. */
  predicate Charged(a: map<int, real>, b: map<int, real>, m: real) {
    b.Keys == a.Keys && forall id :: id in a ==> b[id] == a[id] + m
  }

  /** What `logic_op` does before its loop. */
  predicate Begun(s: Fusion, s': Fusion, f: Field, mode: Mode) {
    && Charged(s.scores, s'.scores, Missing(f, mode)) && s'.accu == s.accu + Missing(f, mode)
    && s'.counts == s.counts && s'.idx == s.idx
  }

  /** One turn of its loop. */
  function Hit(s: Fusion, vecNo: nat, place: nat, id: int, dist: real, f: Field, mode: Mode): Fusion {
    if id == -1 then s
    else
      var score := if id in s.scores then s.scores[id] else s.accu;
      var places := if id in s.idx then s.idx[id] else map[];
      s.(scores := s.scores[id := score - Missing(f, mode) + Prod(dist, f.boost)],
         idx := s.idx[id := places[vecNo := place]],
         counts := if mode.isAnd then s.counts[id := if id in s.counts then s.counts[id] + 1 else 1] else s.counts)
  }

  lemma Snoc(prev: seq<Field>, f: Field, mode: Mode, id: int)
    requires AllWf(prev) && Wf(f)
    ensures AllWf(prev + [f])
    ensures Score(prev + [f], mode, id) == Score(prev, mode, id) + Part(f, mode, id)
    ensures Limits(prev + [f], mode) == Limits(prev, mode) + Missing(f, mode)
    ensures Count(prev + [f], id) == Count(prev, id) + (if Has(f, id) then 1 else 0)
  {
    assert (prev + [f])[..|prev|] == prev;
  }

  lemma BeginPlaces(prev: seq<Field>, c: Field, s: Fusion, s': Fusion)
    requires IdxOk(prev, s) && s'.idx == s.idx && s'.scores.Keys == s.scores.Keys && c.docids == []
    ensures IdxOk(prev + [c], s')
  {
    forall id | id in s'.idx ensures PlacesOk(prev + [c], id, s'.idx[id]) {
      assert PlacesOk(prev, id, s.idx[id]);
    }
  }

  lemma BeginOne(prev: seq<Field>, f: Field, mode: Mode, id: int)
    requires AllWf(prev) && Wf(f)
    ensures AllWf(prev + [Cut(f, 0)])
    ensures Count(prev + [Cut(f, 0)], id) == Count(prev, id)
    ensures Score(prev + [Cut(f, 0)], mode, id) == Score(prev, mode, id) + Missing(f, mode)
    ensures Limits(prev + [Cut(f, 0)], mode) == Limits(prev, mode) + Missing(f, mode)
  {
    Snoc(prev, Cut(f, 0), mode, id);
    hide Prod, Score, Limits, Count;
  }

  /** A field of which nothing has been read yet has no document. */
  lemma BeginKeeps(prev: seq<Field>, f: Field, mode: Mode, s: Fusion, s': Fusion)
    requires Fused(prev, mode, s) && Wf(f) && Begun(s, s', f, mode)
    ensures Fused(prev + [Cut(f, 0)], mode, s')
  {
    var fields, m := prev + [Cut(f, 0)], Missing(f, mode);
    BeginPlaces(prev, Cut(f, 0), s, s');
    hide IdxOk, Score, Count, Limits, Missing, Prod, Cut;
    BeginOne(prev, f, mode, 0);
    forall id: int
      ensures (id in s'.scores <==> Count(fields, id) > 0) &&
              (id in s'.scores ==> s'.scores[id] == Score(fields, mode, id))
      ensures Count(fields, id) == Count(prev, id)
    {
      BeginOne(prev, f, mode, id);
    }
  }

  lemma {:induction false} PlaceInPrefix(docids: seq<int>, k: nat, id: int)
    requires k <= |docids| && id in docids[..k]
    ensures id in docids && Place(docids[..k], id) == Place(docids, id)
  {
    if docids[0] != id {
      assert docids[..k][1..] == docids[1..][..k - 1];
      PlaceInPrefix(docids[1..], k - 1, id);
    }
  }

  lemma {:induction false} PlaceOfLast(docids: seq<int>, id: int)
    requires id !in docids
    ensures Place(docids + [id], id) == |docids|
  {
    if docids != [] {
      assert (docids + [id])[1..] == docids[1..] + [id];
      PlaceOfLast(docids[1..], id);
    }
  }

  /** One more hit changes a field only for that document. */
  lemma CutNext(f: Field, k: nat, mode: Mode, id: int)
    requires Wf(f) && k < |f.docids|
    ensures Wf(Cut(f, k)) && Wf(Cut(f, k + 1))
    ensures id != f.docids[k] ==>
              && Has(Cut(f, k + 1), id) == Has(Cut(f, k), id) &&
                 Part(Cut(f, k + 1), mode, id) == Part(Cut(f, k), mode, id)
              && (Has(Cut(f, k), id) ==> Place(Cut(f, k + 1).docids, id) == Place(Cut(f, k).docids, id))
    ensures id == f.docids[k] && id != -1 ==>
              && !Has(Cut(f, k), id) && Has(Cut(f, k + 1), id) &&
                 Part(Cut(f, k + 1), mode, id) == Prod(f.dists[k], f.boost)
              && Place(Cut(f, k + 1).docids, id) == k
  {
    var a, b := Cut(f, k), Cut(f, k + 1);
    assert b.docids == a.docids + [f.docids[k]] && b.docids[..k] == a.docids;
    if id == f.docids[k] {
      if id != -1 { PlaceOfLast(a.docids, id); }
    } else if id in a.docids {
      PlaceInPrefix(b.docids, k, id);
    }
  }

  /** What one more hit means for one document. */
  lemma HitMeans(prev: seq<Field>, f: Field, k: nat, mode: Mode, id: int)
    requires AllWf(prev) && Wf(f) && k < |f.docids|
    ensures AllWf(prev + [Cut(f, k)]) && AllWf(prev + [Cut(f, k + 1)])
    ensures Limits(prev + [Cut(f, k + 1)], mode) == Limits(prev + [Cut(f, k)], mode)
    ensures id != f.docids[k] || id == -1 ==>
              && Count(prev + [Cut(f, k + 1)], id) == Count(prev + [Cut(f, k)], id)
              && Score(prev + [Cut(f, k + 1)], mode, id) == Score(prev + [Cut(f, k)], mode, id)
    ensures id == f.docids[k] && id != -1 ==>
              && Count(prev + [Cut(f, k + 1)], id) == Count(prev + [Cut(f, k)], id) + 1
              && Score(prev + [Cut(f, k + 1)], mode, id) ==
                 Score(prev + [Cut(f, k)], mode, id) - Missing(f, mode) + Prod(f.dists[k], f.boost)
  {
    CutNext(f, k, mode, id);
    Snoc(prev, Cut(f, k), mode, id);
    Snoc(prev, Cut(f, k + 1), mode, id);
    hide Score, Count, Limits;
  }

  lemma HitScores(prev: seq<Field>, f: Field, k: nat, mode: Mode, s: Fusion, place: nat)
    requires AllWf(prev) && Wf(f) && k < |f.docids| && AllWf(prev + [Cut(f, k)]) &&
             ScoresOk(prev + [Cut(f, k)], mode, s)
    requires s.accu == Limits(prev + [Cut(f, k)], mode)
    ensures AllWf(prev + [Cut(f, k + 1)])
    ensures ScoresOk(prev + [Cut(f, k + 1)], mode, Hit(s, |prev|, place, f.docids[k], f.dists[k], f, mode))
    ensures s.accu == Limits(prev + [Cut(f, k + 1)], mode)
  {
    var s' := Hit(s, |prev|, place, f.docids[k], f.dists[k], f, mode);
    var a, b := prev + [Cut(f, k)], prev + [Cut(f, k + 1)];
    HitMeans(prev, f, k, mode, 0);
    forall id: int
      ensures (id in s'.scores <==> Count(b, id) > 0) && (id in s'.scores ==> s'.scores[id] == Score(b, mode, id))
    {
      HitMeans(prev, f, k, mode, id);
      if id !in s.scores { NoneCounts(a, mode, id); }
      hide Score, Count, Limits;
    }
  }

  lemma HitCounts(prev: seq<Field>, f: Field, k: nat, mode: Mode, s: Fusion, place: nat)
    requires AllWf(prev) && Wf(f) && k < |f.docids| && CountsOk(prev + [Cut(f, k)], mode, s)
    ensures CountsOk(prev + [Cut(f, k + 1)], mode, Hit(s, |prev|, place, f.docids[k], f.dists[k], f, mode))
  {
    var s' := Hit(s, |prev|, place, f.docids[k], f.dists[k], f, mode);
    if mode.isAnd {
      forall id: int
        ensures (id in s'.counts <==> Count(prev + [Cut(f, k + 1)], id) > 0) &&
                (id in s'.counts ==> s'.counts[id] == Count(prev + [Cut(f, k + 1)], id))
      {
        HitMeans(prev, f, k, mode, id);
        hide Count, Score, Limits;
      }
    }
  }

  lemma PlacesSame(prev: seq<Field>, c: Field, c': Field, id: int, places: map<int, int>)
    requires PlacesOk(prev + [c], id, places) && c'.base == c.base && Has(c', id) == Has(c, id)
    requires Has(c, id) ==> Place(c'.docids, id) == Place(c.docids, id)
    ensures PlacesOk(prev + [c'], id, places)
  {
    var a, b := prev + [c], prev + [c'];
    assert forall j :: 0 <= j < |prev| ==> a[j] == prev[j] && b[j] == prev[j];
    assert a[|prev|] == c && b[|prev|] == c';
    hide Has, Place;
  }

  lemma PlacesMore(prev: seq<Field>, c: Field, c': Field, id: int, places: map<int, int>)
    requires PlacesOk(prev + [c], id, places) && !Has(c, id) && Has(c', id)
    ensures PlacesOk(prev + [c'], id, places[|prev| := c'.base + Place(c'.docids, id)])
  {
    var a, b := prev + [c], prev + [c'];
    assert forall j :: 0 <= j < |prev| ==> a[j] == prev[j] && b[j] == prev[j];
    assert a[|prev|] == c && b[|prev|] == c';
    hide Has, Place;
  }

  lemma NoPlaces(fields: seq<Field>, id: int)
    requires Count(fields, id) == 0
    ensures PlacesOk(fields, id, map[])
  {
    AllCount(fields, id);
  }

  function MorePlaces(places: map<int, int>, n: nat, place: nat, more: bool): map<int, int> {
    if more then places[n := place] else places
  }

  lemma HitPlacesOne(prev: seq<Field>, f: Field, k: nat, mode: Mode, id: int, places: map<int, int>)
    requires Wf(f) && k < |f.docids| && PlacesOk(prev + [Cut(f, k)], id, places)
    ensures PlacesOk(prev + [Cut(f, k + 1)], id, MorePlaces(places, |prev|, f.base + k, id == f.docids[k] && id != -1))
  {
    CutNext(f, k, mode, id);
    if id == f.docids[k] && id != -1 {
      PlacesMore(prev, Cut(f, k), Cut(f, k + 1), id, places);
    } else {
      PlacesSame(prev, Cut(f, k), Cut(f, k + 1), id, places);
    }
  }

  function PlacesIn(s: Fusion, id: int): map<int, int> {
    if id in s.idx then s.idx[id] else map[]
  }

  lemma HitIdx(s: Fusion, n: nat, place: nat, hit: int, dist: real, f: Field, mode: Mode, id: int)
    requires s.idx.Keys == s.scores.Keys
    ensures var s' := Hit(s, n, place, hit, dist, f, mode);
            && s'.idx.Keys == s'.scores.Keys
            && (id in s'.idx ==> s'.idx[id] == MorePlaces(PlacesIn(s, id), n, place, id == hit && id != -1))
  {
    hide Missing, Prod;
  }

  lemma HitPlaces(prev: seq<Field>, f: Field, k: nat, mode: Mode, s: Fusion, s': Fusion, a: seq<Field>, b: seq<Field>)
    requires Wf(f) && k < |f.docids| && a == prev + [Cut(f, k)] && b == prev + [Cut(f, k + 1)]
    requires s' == Hit(s, |prev|, f.base + k, f.docids[k], f.dists[k], f, mode)
    requires IdxOk(a, s) && forall id :: id in s.scores <==> Count(a, id) > 0
    ensures IdxOk(b, s')
  {
    HitIdx(s, |prev|, f.base + k, f.docids[k], f.dists[k], f, mode, 0);
    hide Hit, Cut, Count, MorePlaces;
    forall id | id in s'.idx ensures PlacesOk(b, id, s'.idx[id]) == true {
      HitIdx(s, |prev|, f.base + k, f.docids[k], f.dists[k], f, mode, id);
      if id in s.idx { assert PlacesOk(a, id, s.idx[id]); } else { NoPlaces(a, id); }
      HitPlacesOne(prev, f, k, mode, id, PlacesIn(s, id));
    }
    hide PlacesOk;
  }

  /** What a field without the document adds. */
  predicate IsMissing(f: Field, mode: Mode, m: real) {
    (!mode.isAnd && mode.isL2 ==> m == f.boost * f.limit) && (mode.isAnd || !mode.isL2 ==> m == 0.0)
  }

  lemma MissingIs(f: Field, mode: Mode)
    ensures IsMissing(f, mode, Missing(f, mode))
  {
  }

  lemma ProdIs(a: real, b: real)
    ensures Prod(a, b) == a * b
  {
  }

  /** The document's sum, or the charges so far, with this field's charge `m` traded for `more`. */
  predicate Trades(s: Fusion, s': Fusion, id: int, m: real, more: real) {
    s'.scores == s.scores[id := (if id in s.scores then s.scores[id] else s.accu) - m + more]
  }

  /** A hit trades what its document was charged in this field for its distance times the boost. */
  ghost predicate HitScored(s: Fusion, s': Fusion, id: int, dist: real, f: Field, mode: Mode) {
    if id == -1 then s' == s
    else exists m, more :: IsMissing(f, mode, m) && more == dist * f.boost && Trades(s, s', id, m, more)
  }

  lemma HitScore(s: Fusion, vecNo: nat, place: nat, id: int, dist: real, f: Field, mode: Mode)
    ensures HitScored(s, Hit(s, vecNo, place, id, dist, f, mode), id, dist, f, mode)
  {
    MissingIs(f, mode);
    ProdIs(dist, f.boost);
    hide Missing, Prod;
    if id != -1 {
      assert IsMissing(f, mode, Missing(f, mode));
      assert Trades(s, Hit(s, vecNo, place, id, dist, f, mode), id, Missing(f, mode), Prod(dist, f.boost));
    }
  }

  lemma HitKeeps(prev: seq<Field>, f: Field, k: nat, mode: Mode, s: Fusion)
    requires Wf(f) && k < |f.docids| && AllWf(prev) && Fused(prev + [Cut(f, k)], mode, s)
    ensures var s' := Hit(s, |prev|, f.base + k, f.docids[k], f.dists[k], f, mode);
            Fused(prev + [Cut(f, k + 1)], mode, s') && HitScored(s, s', f.docids[k], f.dists[k], f, mode)
  {
    HitScore(s, |prev|, f.base + k, f.docids[k], f.dists[k], f, mode);
    hide HitScored;
    HitScores(prev, f, k, mode, s, f.base + k);
    HitCounts(prev, f, k, mode, s, f.base + k);
    HitPlaces(prev, f, k, mode, s, Hit(s, |prev|, f.base + k, f.docids[k], f.dists[k], f, mode), prev + [Cut(f, k)],
        prev + [Cut(f, k + 1)]);
    hide ScoresOk, CountsOk, IdxOk, AllWf;
  }

  // ----- The sums written out -----

  function Sum(parts: seq<real>): real {
    if parts == [] then 0.0 else Sum(parts[..|parts| - 1]) + parts[|parts| - 1]
  }

  /** What one field adds to a document's score: distance times boost, or its charge. */
  ghost predicate Adds(f: Field, mode: Mode, id: int, p: real) {
    && (forall i :: 0 <= i < |f.docids| && i < |f.dists| && id != -1 && f.docids[i] == id ==> p == f.dists[i] * f.boost)
    && (id == -1 || id !in f.docids ==> IsMissing(f, mode, p))
  }

  lemma PartAdds(f: Field, mode: Mode, id: int)
    requires Wf(f)
    ensures Adds(f, mode, id, Part(f, mode, id))
  {
    MissingIs(f, mode);
    hide IsMissing, Missing;
    if id != -1 && id in f.docids {
      var k := Place(f.docids, id);
      assert forall i :: 0 <= i < |f.docids| && f.docids[i] == id ==> i == k;
      assert Prod(f.dists[k], f.boost) == f.dists[k] * f.boost;
      hide *;
    }
  }

  lemma {:induction false} ScoreIsSum(fields: seq<Field>, mode: Mode, id: int) returns (parts: seq<real>)
    requires AllWf(fields)
    ensures |parts| == |fields| && Score(fields, mode, id) == Sum(parts)
    ensures forall j :: 0 <= j < |fields| ==> Adds(fields[j], mode, id, parts[j])
  {
    if fields == [] {
      parts := [];
    } else {
      hide Adds, Part;
      var n := |fields| - 1;
      var before := ScoreIsSum(fields[..n], mode, id);
      PartAdds(fields[n], mode, id);
      parts := before + [Part(fields[n], mode, id)];
      assert parts[..n] == before;
      forall j | 0 <= j < |fields| ensures Adds(fields[j], mode, id, parts[j]) {
        if j < n { assert fields[..n][j] == fields[j]; }
      }
    }
  }

  /** Documents 7 and 8, each found by one of two fields, with and without the charge. */
  lemma TwoFields()
    ensures var a, b := Field(0, [7], [2.0], 3.0, 9.0), Field(0, [-1, 8], [0.0, 1.0], 2.0, 5.0);
            && AllWf([a, b])
            && Score([a], Mode(false, false), 7) == 6.0
            && Score([a, b], Mode(false, true), 7) == 16.0 && Score([a, b], Mode(false, true), 8) == 29.0
            && Score([a, b], Mode(false, false), 7) == 6.0 && Score([a, b], Mode(true, true), 8) == 2.0
  {
    var a, b := Field(0, [7], [2.0], 3.0, 9.0), Field(0, [-1, 8], [0.0, 1.0], 2.0, 5.0);
    assert [a, b][..1] == [a];
    forall mode: Mode, id | id == 7 || id == 8
      ensures Score([a], mode, id) == Part(a, mode, id)
      ensures Score([a, b], mode, id) == Part(a, mode, id) + Part(b, mode, id)
    {
      assert Score([a], mode, id) == Score([], mode, id) + Part(a, mode, id);
    }
    assert Place(a.docids, 7) == 0 && Place(b.docids, 8) == 1;
  }

  lemma ScoreGrows(prev: seq<Field>, f: Field, mode: Mode, s0: Fusion, s: Fusion, id: int)
    requires Fused(prev, mode, s0) && Fused(prev + [f], mode, s) && Wf(f) && id in s.scores
    ensures s.scores[id] == (if id in s0.scores then s0.scores[id] else s0.accu) + Part(f, mode, id)
  {
    hide IdxOk, CountsOk, Part, Wf;
    Snoc(prev, f, mode, id);
    if id !in s0.scores { NoneCounts(prev, mode, id); }
  }

  // ----- The results of one search -----

  class VectorResult {
    const topn: nat
    const dists: array<real>
    const docids: array<int>
    const limitValue: array<real>

    constructor (n: nat, topn: nat)
      ensures this.topn == topn && docids.Length == dists.Length == n * topn && limitValue.Length == n
      ensures fresh(docids) && fresh(dists) && fresh(limitValue)
      ensures forall i :: 0 <= i < docids.Length ==> docids[i] == -1 && dists[i] == 0.0
    {
      this.topn := topn;
      dists := new real[n * topn](_ => 0.0);
      docids := new int[n * topn](_ => -1);
      limitValue := new real[n](_ => 0.0);
    }

    /** The hits for one request as a field. */
    function FieldOf(reqNo: nat, boost: real): (f: Field)
      requires reqNo < limitValue.Length && reqNo * topn + topn <= docids.Length == dists.Length
      reads dists, docids, limitValue
      ensures |f.docids| == |f.dists| == topn
    {
      var base := reqNo * topn;
      Field(base, docids[base..base + topn], dists[base..base + topn], boost, limitValue[reqNo])
    }

    predicate FoundAt(reqNo: nat, id: int, i: int)
      requires reqNo * topn + topn <= docids.Length
      reads docids
    {
      id != -1 && reqNo * topn <= i < reqNo * topn + topn && docids[i] == id
    }

    predicate Found(reqNo: nat, id: int)
      requires reqNo * topn + topn <= docids.Length
      reads docids
    {
      id != -1 && exists i :: reqNo * topn <= i < reqNo * topn + topn && docids[i] == id
    }

    lemma FoundIs(reqNo: nat, boost: real, id: int)
      requires reqNo < limitValue.Length && reqNo * topn + topn <= docids.Length == dists.Length
      ensures Has(FieldOf(reqNo, boost), id) <==> Found(reqNo, id)
    {
      var f, base := FieldOf(reqNo, boost), reqNo * topn;
      if i :| base <= i < base + topn && docids[i] == id { assert f.docids[i - base] == id; }
      if k :| 0 <= k < |f.docids| && f.docids[k] == id { assert docids[base + k] == id; }
    }

    lemma PlaceIs(reqNo: nat, boost: real, id: int)
      requires reqNo < limitValue.Length && reqNo * topn + topn <= docids.Length == dists.Length
      requires Has(FieldOf(reqNo, boost), id)
      ensures FoundAt(reqNo, id, FieldOf(reqNo, boost).base + Place(FieldOf(reqNo, boost).docids, id))
    {
      var f := FieldOf(reqNo, boost);
      assert f.docids[Place(f.docids, id)] == id;
    }

    /** What this field adds to a document's score, read off the arrays. */
    ghost predicate AddsHere(reqNo: nat, boost: real, mode: Mode, id: int, p: real)
      requires reqNo < limitValue.Length && reqNo * topn + topn <= docids.Length == dists.Length
      reads dists, docids, limitValue
    {
      var base, end := reqNo * topn, reqNo * topn + topn;
      && (forall i :: base <= i < end && id != -1 && docids[i] == id ==> p == dists[i] * boost)
      && (!Found(reqNo, id) ==>
            p == if !mode.isAnd && mode.isL2 then boost * limitValue[reqNo] else 0.0)
    }

    lemma AddsHereIs(reqNo: nat, boost: real, mode: Mode, id: int, p: real)
      requires reqNo < limitValue.Length && reqNo * topn + topn <= docids.Length == dists.Length
      requires Adds(FieldOf(reqNo, boost), mode, id, p)
      ensures AddsHere(reqNo, boost, mode, id, p)
    {
      FoundIs(reqNo, boost, id);
      forall i | reqNo * topn <= i < reqNo * topn + topn && id != -1 && docids[i] == id ensures p == dists[i] * boost {
        AddsAt(reqNo, boost, mode, id, p, i);
      }
      hide Found;
    }

    lemma AddsAt(reqNo: nat, boost: real, mode: Mode, id: int, p: real, i: int)
      requires reqNo < limitValue.Length && reqNo * topn + topn <= docids.Length == dists.Length
      requires Adds(FieldOf(reqNo, boost), mode, id, p) && FoundAt(reqNo, id, i)
      ensures p == dists[i] * boost
    {
      var f, k := FieldOf(reqNo, boost), i - reqNo * topn;
      hide IsMissing;
      assert f.docids[k] == id && f.dists[k] == dists[i];
    }

    /** Adds this field to the running sums of one request. */
    method LogicOp(reqNo: nat, vecNo: nat, mode: Mode, fieldBoost: real, s0: Fusion,
        ghost prev: seq<Field>) returns (s: Fusion)
      requires reqNo < limitValue.Length && reqNo * topn + topn <= docids.Length == dists.Length
      requires Wf(FieldOf(reqNo, fieldBoost)) && vecNo == |prev| && Fused(prev, mode, s0)
      ensures Fused(prev + [FieldOf(reqNo, fieldBoost)], mode, s)
      ensures forall id: int :: id in s.scores ==>
                exists p: real :: AddsHere(reqNo, fieldBoost, mode, id, p) &&
                  s.scores[id] == (if id in s0.scores then s0.scores[id] else s0.accu) + p
    {
      ghost var f := FieldOf(reqNo, fieldBoost);
      var baseIdx := reqNo * topn;
      s := s0;
      var maxScore := 0.0;
      if !mode.isAnd && mode.isL2 {
        maxScore := Prod(fieldBoost, limitValue[reqNo]);
        var scores := ChargeAll(s.scores, maxScore);
        s := s.(scores := scores, accu := s.accu + maxScore);
      }
      BeginKeeps(prev, f, mode, s0, s);
      assert Cut(f, topn) == f;
      s := AddHits(baseIdx, vecNo, mode, maxScore, fieldBoost, s, prev, f);
      hide *;
      forall id: int | id in s.scores
        ensures exists p: real :: AddsHere(reqNo, fieldBoost, mode, id, p) &&
                  s.scores[id] == (if id in s0.scores then s0.scores[id] else s0.accu) + p
      {
        ScoreGrows(prev, f, mode, s0, s, id);
        PartAdds(f, mode, id);
        AddsHereIs(reqNo, fieldBoost, mode, id, Part(f, mode, id));
      }
    }

    /** The loop of `logic_op`. */
    method AddHits(baseIdx: nat, vecNo: nat, mode: Mode, maxScore: real, fieldBoost: real, s0: Fusion,
        ghost prev: seq<Field>, ghost f: Field)
      returns (s: Fusion)
      requires baseIdx + topn <= docids.Length == dists.Length && f.base == baseIdx && |f.docids| == |f.dists| == topn
      requires forall i :: 0 <= i < topn ==> f.docids[i] == docids[baseIdx + i] && f.dists[i] == dists[baseIdx + i]
      requires Wf(f) == true && vecNo == |prev| && AllWf(prev) == true
      requires maxScore == Missing(f, mode) && fieldBoost == f.boost && Fused(prev + [Cut(f, 0)], mode, s0) == true
      ensures Fused(prev + [Cut(f, topn)], mode, s) == true
    {
      s := s0;
      hide Missing, Prod, Hit, Wf, AllWf, Cut;
      for i := 0 to topn
        invariant Fused(prev + [Cut(f, i)], mode, s) == true
      {
        HitKeeps(prev, f, i, mode, s);
        assert s.idx.Keys == s.scores.Keys;
        s := AddHit(vecNo, baseIdx + i, docids[baseIdx + i], dists[baseIdx + i], f, mode, maxScore, fieldBoost,
            s);
      }
    }
  }

  /** The body of the loop of `logic_op`. */
  method AddHit(vecNo: nat, place: nat, id: int, dist: real, ghost f: Field, mode: Mode, maxScore: real,
      fieldBoost: real, s0: Fusion)
    returns (s: Fusion)
    requires maxScore == Missing(f, mode) && fieldBoost == f.boost && s0.idx.Keys == s0.scores.Keys
    ensures s == Hit(s0, vecNo, place, id, dist, f, mode)
  {
    hide Missing, Prod;
    s := s0;
    if id != -1 {
      if id !in s.scores {
        s := s.(scores := s.scores[id := s.accu], idx := s.idx[id := map[vecNo := place]]);
      } else {
        s := s.(idx := s.idx[id := s.idx[id][vecNo := place]]);
      }
      s := s.(scores := s.scores[id := s.scores[id] - maxScore]);
      s := s.(scores := s.scores[id := s.scores[id] + Prod(dist, fieldBoost)]);
      if mode.isAnd {
        s := s.(counts := s.counts[id := if id !in s.counts then 1 else s.counts[id] + 1]);
      }
      assert s.scores == Hit(s0, vecNo, place, id, dist, f, mode).scores;
    }
  }

  /** The loop that charges every document found so far with the new field's limit. */
  method ChargeAll(scores0: map<int, real>, m: real) returns (scores: map<int, real>)
    ensures Charged(scores0, scores, m)
  {
    var todo: set<int> := scores0.Keys;
    scores := scores0;
    while exists id: int :: id in todo
      invariant todo <= scores0.Keys && scores.Keys == scores0.Keys
      invariant forall id :: id in todo ==> scores[id] == scores0[id]
      invariant forall id :: id in scores0 && id !in todo ==> scores[id] == scores0[id] + m
      decreases |todo|
    {
      var id: int :| id in todo;
      scores := scores[id := scores[id] + m];
      todo := todo - {id};
    }
  }

  // ----- One request over all its fields -----

  lemma NothingFused(mode: Mode)
    ensures Fused([], mode, Fusion(map[], map[], map[], 0.0))
  {
  }

  /** What one field adds to the score of every document, all summed up. */
  ghost predicate Explained(results: seq<VectorResult>, boosts: seq<real>, reqNo: nat, mode: Mode, id: int, score: real)
    requires |results| == |boosts| && Searched(results, reqNo)
    reads set j | 0 <= j < |results| :: results[j].docids, set j | 0 <= j < |results| :: results[j].dists,
          set j | 0 <= j < |results| :: results[j].limitValue
  {
    exists parts: seq<real> :: |parts| == |results| && score == Sum(parts) &&
      forall j :: 0 <= j < |results| ==> results[j].AddsHere(reqNo, boosts[j], mode, id, parts[j])
  }

  /** Every field was searched for this request. */
  predicate Searched(results: seq<VectorResult>, reqNo: nat) {
    forall j :: 0 <= j < |results| ==>
      && reqNo < results[j].limitValue.Length
      && reqNo * results[j].topn + results[j].topn <= results[j].docids.Length == results[j].dists.Length
  }

  lemma ScoreOf(fields: seq<Field>, mode: Mode, s: Fusion, id: int)
    requires Fused(fields, mode, s) && id in s.scores
    ensures AllWf(fields) && s.scores[id] == Score(fields, mode, id)
  {
  }

  /** For every field that found the document, where. */
  predicate PlacesHere(results: seq<VectorResult>, reqNo: nat, id: int, places: map<int, int>)
    requires Searched(results, reqNo)
    reads set j | 0 <= j < |results| :: results[j].docids
  {
    && (forall j :: 0 <= j < |results| && results[j].Found(reqNo, id) ==> j in places)
    && (forall j :: j in places ==> 0 <= j < |results| && results[j].FoundAt(reqNo, id, places[j]))
  }

  /** Who was found, and where. */
  lemma FoundHere(results: seq<VectorResult>, boosts: seq<real>, reqNo: nat, mode: Mode, fields: seq<Field>, s: Fusion,
      id: int)
    requires |results| == |boosts| == |fields| && AllWf(fields) && Searched(results, reqNo)
    requires forall j :: 0 <= j < |results| ==> fields[j] == results[j].FieldOf(reqNo, boosts[j])
    requires Fused(fields, mode, s)
    ensures id in s.scores <==> exists j :: 0 <= j < |results| && results[j].Found(reqNo, id)
    ensures id in s.idx <==> id in s.scores
    ensures id in s.idx ==> PlacesHere(results, reqNo, id, s.idx[id])
  {
    FusedAt(fields, mode, s, id);
    AllCount(fields, id);
    hide *;
    forall j | 0 <= j < |results| ensures Has(fields[j], id) <==> results[j].Found(reqNo, id) {
      results[j].FoundIs(reqNo, boosts[j], id);
    }
    if id in s.idx { PlacesAre(results, boosts, reqNo, fields, id, s.idx[id]); }
  }

  lemma FusedAt(fields: seq<Field>, mode: Mode, s: Fusion, id: int)
    requires Fused(fields, mode, s)
    ensures id in s.scores <==> Count(fields, id) > 0
    ensures id in s.idx <==> id in s.scores
    ensures id in s.idx ==> PlacesOk(fields, id, s.idx[id])
  {
    hide PlacesOk, Count, Score, CountsOk, AllWf;
  }

  lemma PlacesAre(results: seq<VectorResult>, boosts: seq<real>, reqNo: nat, fields: seq<Field>, id: int,
      places: map<int, int>)
    requires |results| == |boosts| == |fields| && Searched(results, reqNo)
    requires forall j :: 0 <= j < |results| ==> fields[j] == results[j].FieldOf(reqNo, boosts[j])
    requires forall j :: 0 <= j < |results| ==> (Has(fields[j], id) <==> results[j].Found(reqNo, id))
    requires PlacesOk(fields, id, places)
    ensures PlacesHere(results, reqNo, id, places)
  {
    hide Has, VectorResult.Found, VectorResult.FoundAt;
    forall j | j in places ensures 0 <= j < |results| && results[j].FoundAt(reqNo, id, places[j]) {
      results[j].PlaceIs(reqNo, boosts[j], id);
    }
  }

  lemma IsExplained(results: seq<VectorResult>, boosts: seq<real>, reqNo: nat, mode: Mode, fields: seq<Field>, id: int)
    requires |results| == |boosts| == |fields| && AllWf(fields) && Searched(results, reqNo)
    requires forall j :: 0 <= j < |results| ==> fields[j] == results[j].FieldOf(reqNo, boosts[j])
    ensures Explained(results, boosts, reqNo, mode, id, Score(fields, mode, id))
  {
    hide Adds;
    var parts := ScoreIsSum(fields, mode, id);
    forall j | 0 <= j < |results| ensures results[j].AddsHere(reqNo, boosts[j], mode, id, parts[j]) {
      results[j].AddsHereIs(reqNo, boosts[j], mode, id, parts[j]);
    }
  }

  /** The loop over the fields of a query: every document ends with its plain sum. */
  method FuseRequest(results: seq<VectorResult>, boosts: seq<real>, reqNo: nat, mode: Mode,
      ghost fields: seq<Field>) returns (s: Fusion)
    requires |results| == |boosts| == |fields| && AllWf(fields)
    requires Searched(results, reqNo)
    requires forall j :: 0 <= j < |results| ==> fields[j] == results[j].FieldOf(reqNo, boosts[j])
    ensures Fused(fields, mode, s)
    ensures forall id: int :: id in s.scores ==> Explained(results, boosts, reqNo, mode, id, s.scores[id])
    ensures forall id: int :: id in s.scores <==> exists j :: 0 <= j < |results| && results[j].Found(reqNo, id)
    ensures forall id: int :: id in s.idx <==> id in s.scores
    ensures forall id: int :: id in s.idx ==> PlacesHere(results, reqNo, id, s.idx[id])
  {
    s := Fusion(map[], map[], map[], 0.0);
    NothingFused(mode);
    for j := 0 to |results|
      invariant Fused(fields[..j], mode, s) == true
    {
      assert Wf(fields[j]) && fields[..j + 1] == fields[..j] + [fields[j]];
      s := results[j].LogicOp(reqNo, j, mode, boosts[j], s, fields[..j]);
    }
    assert fields[..|results|] == fields;
    hide *;
    forall id: int | id in s.scores ensures Explained(results, boosts, reqNo, mode, id, s.scores[id]) {
      IsExplained(results, boosts, reqNo, mode, fields, id);
      ScoreOf(fields, mode, s, id);
    }
    forall id: int
      ensures id in s.scores <==> exists j :: 0 <= j < |results| && results[j].Found(reqNo, id)
      ensures id in s.idx <==> id in s.scores
      ensures id in s.idx ==> PlacesHere(results, reqNo, id, s.idx[id])
    {
      FoundHere(results, boosts, reqNo, mode, fields, s, id);
    }
  }

  /** Under AND the documents counted once per field are exactly those in every field. */
  lemma AndIsEveryField(fields: seq<Field>, mode: Mode, s: Fusion, id: int)
    requires Fused(fields, mode, s) && mode.isAnd && fields != []
    ensures id in s.counts && s.counts[id] == |fields| <==> forall j :: 0 <= j < |fields| ==> Has(fields[j], id)
    ensures id in s.scores <==> exists j :: 0 <= j < |fields| && Has(fields[j], id)
  {
    AllCount(fields, id);
  }

  function Without(fields: seq<Field>, i: nat): seq<Field>
    requires i < |fields|
  {
    fields[..i] + fields[i + 1..]
  }

  /** A field can be taken out of the sums from anywhere. */
  lemma {:induction false} TakenOut(fields: seq<Field>, i: nat, mode: Mode, id: int)
    requires AllWf(fields) && i < |fields|
    ensures AllWf(Without(fields, i))
    ensures Score(fields, mode, id) == Score(Without(fields, i), mode, id) + Part(fields[i], mode, id)
    ensures Count(fields, id) == Count(Without(fields, i), id) + if Has(fields[i], id) then 1 else 0
    decreases |fields|
  {
    var n, rest := |fields| - 1, Without(fields, i);
    hide Part, Has;
    if i < n {
      TakenOut(fields[..n], i, mode, id);
      assert rest[..n - 1] == Without(fields[..n], i);
    } else {
      assert rest == fields[..n];
    }
  }

  lemma OthersWf(fields: seq<Field>, others: seq<Field>)
    requires AllWf(fields) && multiset(others) == multiset(fields)
    ensures AllWf(others)
  {
    hide Wf;
    forall j | 0 <= j < |others| ensures Wf(others[j]) {
      assert others[j] in multiset(others);
      assert others[j] in fields;
    }
  }

  /** The last field, found in another order of the fields. */
  lemma LastElsewhere(fields: seq<Field>, others: seq<Field>) returns (i: nat)
    requires fields != [] && multiset(others) == multiset(fields)
    ensures i < |others| && others[i] == fields[|fields| - 1]
    ensures multiset(Without(others, i)) == multiset(fields[..|fields| - 1])
  {
    var n := |fields| - 1;
    assert fields == fields[..n] + [fields[n]];
    assert fields[n] in multiset(others);
    i :| 0 <= i < |others| && others[i] == fields[n];
    BagWithout(others, i);
  }

  lemma BagWithout(fields: seq<Field>, i: nat)
    requires i < |fields|
    ensures multiset(Without(fields, i)) == multiset(fields) - multiset{fields[i]}
  {
    assert fields == fields[..i] + ([fields[i]] + fields[i + 1..]);
    assert multiset(fields) == multiset(fields[..i]) + (multiset{fields[i]} + multiset(fields[i + 1..]));
  }

  /** The sums and counts do not depend on the order in which the fields are taken. */
  lemma {:induction false} ScorePermutes(fields: seq<Field>, others: seq<Field>, mode: Mode, id: int)
    requires AllWf(fields) && multiset(others) == multiset(fields)
    ensures AllWf(others)
    ensures Score(others, mode, id) == Score(fields, mode, id) && Count(others, id) == Count(fields, id)
    decreases |fields|
  {
    hide Part, Has, Wf, Without;
    OthersWf(fields, others);
    if fields == [] {
      assert |multiset(others)| == 0;
    } else {
      var n := |fields| - 1;
      var i := LastElsewhere(fields, others);
      TakenOut(others, i, mode, id);
      ScorePermutes(fields[..n], Without(others, i), mode, id);
    }
  }
}
