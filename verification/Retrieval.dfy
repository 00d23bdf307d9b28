/**
  Keyword retrieval (awadb_retrieval.cc): posting lists that grow by fixed steps, and a leapfrog
  intersection that always seeks the largest docid seen so far in the other lists.
 */
module Retrieval {

  const LIST_SIZE := 128        // kDefaultListSize
  const MAX_DOCID := 0x8000_0000 // a docid above this would read as a negative int

  type Postings = seq<nat>

  predicate Ascending(ids: Postings) {
    forall i, j :: 0 <= i < j < |ids| ==> ids[i] < ids[j]
  }

  // ----- What the intersection is -----

  /** `x` is in every list. */
  predicate Common(lists: seq<Postings>, x: nat) {
    forall i :: 0 <= i < |lists| ==> x in lists[i]
  }

  /** `out` is exactly the common docids below `limit`, in order. */
  ghost predicate Exactly(lists: seq<Postings>, limit: nat, out: Postings) {
    Ascending(out) && forall x: nat :: x in out <==> x < limit && Common(lists, x)
  }

  /** `out` is exactly the common docids, in order. */
  ghost predicate Answer(lists: seq<Postings>, out: Postings) {
    Ascending(out) && forall x: nat :: x in out <==> Common(lists, x)
  }

  // ----- Where the cursors stand -----

  /** The cursor is just past `s`. */
  predicate Passed(ids: Postings, p: nat, s: nat) {
    0 < p <= |ids| && ids[p - 1] == s
  }

  /** The cursor has passed only smaller ids. */
  predicate Behind(ids: Postings, p: nat, s: nat) {
    p <= |ids| && forall k :: 0 <= k < p ==> ids[k] < s
  }

  /** At the start the base list's cursor has not moved past the candidate it supplied. */
  predicate Untouched(ids: Postings, p: nat, s: nat) {
    p == 0 && |ids| > 0 && ids[0] == s
  }

  predicate Base(lists: seq<Postings>, pos: seq<nat>, s: nat, base: nat) {
    && base < |lists| == |pos|
    && (Passed(lists[base], pos[base], s) || Untouched(lists[base], pos[base], s))
  }

  predicate Lists(lists: seq<Postings>) {
    |lists| > 0 && forall i :: 0 <= i < |lists| ==> |lists[i]| > 0 && Ascending(lists[i])
  }

  /** Looking for `s`: found in the base list and in the lists below `count`, not yet sought in the others. */
  ghost predicate Seeking(lists: seq<Postings>, pos: seq<nat>, s: nat, base: nat, count: nat, out: Postings) {
    && Lists(lists) && Base(lists, pos, s, base) && count <= |lists|
    && (forall i :: 0 <= i < count && i != base ==> Passed(lists[i], pos[i], s))
    && (forall i :: count <= i < |lists| && i != base ==> Behind(lists[i], pos[i], s))
    && Exactly(lists, s, out)
  }

  /** The base list has returned the same `s` a second time, after it was put out. */
  ghost predicate Repeating(lists: seq<Postings>, pos: seq<nat>, s: nat, base: nat, count: nat, out: Postings) {
    && Lists(lists) && base < |lists| == |pos| && |lists| >= 2
    && (count == 0 || (count == 1 && base == 0))
    && (forall i :: 0 <= i < |lists| ==> Passed(lists[i], pos[i], s))
    && Exactly(lists, s + 1, out)
  }

  /** What a successful `Seek` in list `i` does. */
  predicate Sought(ids: Postings, p: nat, s: nat, p': nat, found: nat) {
    && p < p' <= |ids| && ids[p' - 1] == found >= s
    && (forall k :: p <= k < p' - 1 ==> ids[k] < s)
  }

  predicate Exhausted(ids: Postings, p: nat, s: nat) {
    p <= |ids| && forall k :: p <= k < |ids| ==> ids[k] < s
  }

  // ----- One seek -----

  /** No common docid lies strictly between two neighbours of one list. */
  lemma NoneBetween(lists: seq<Postings>, i: nat, q: nat, s: nat, s': nat, out: Postings)
    requires Lists(lists) && i < |lists| && q < |lists[i]| && lists[i][q] == s' && s <= s'
    requires forall k :: 0 <= k < q ==> lists[i][k] < s
    requires Exactly(lists, s, out)
    ensures Exactly(lists, s', out)
  {
    forall x: nat | s <= x < s' ensures !Common(lists, x) {
    }
  }

  lemma NoneLeft(lists: seq<Postings>, i: nat, s: nat, out: Postings)
    requires Lists(lists) && i < |lists| && Exactly(lists, s, out)
    requires forall k :: 0 <= k < |lists[i]| ==> lists[i][k] < s
    ensures Answer(lists, out)
  {
    forall x: nat | x >= s ensures !Common(lists, x) {
      assert x !in lists[i];
    }
  }

  lemma BehindLater(ids: Postings, p: nat, s: nat, s': nat)
    requires Ascending(ids) && s < s' && (Passed(ids, p, s) || Behind(ids, p, s))
    ensures Behind(ids, p, s')
  {
  }

  /** Every list has passed at most `s`, so it is behind a larger candidate. */
  lemma NewCandidate(lists: seq<Postings>, pos: seq<nat>, s: nat, i: nat, p': nat, s': nat, out: Postings)
    requires Lists(lists) && |pos| == |lists| && i < |lists| && s < s'
    requires forall j :: 0 <= j < |lists| && j != i ==>
             Passed(lists[j], pos[j], s) || Behind(lists[j], pos[j], s) || Untouched(lists[j], pos[j], s)
    requires 0 < p' <= |lists[i]| && lists[i][p' - 1] == s' && Exactly(lists, s', out)
    ensures Seeking(lists, pos[i := p'], s', i, 0, out)
  {
    forall j | 0 <= j < |lists| && j != i ensures Behind(lists[j], pos[i := p'][j], s') {
      if Untouched(lists[j], pos[j], s) {
      } else {
        BehindLater(lists[j], pos[j], s, s');
      }
    }
  }

  /** A list other than the base either has the candidate or supplies a larger one. */
  lemma SeekOther(lists: seq<Postings>, pos: seq<nat>, s: nat, base: nat, count: nat, out: Postings, p': nat,
      found: nat)
    requires Seeking(lists, pos, s, base, count, out) && count < |lists| && count != base
    requires Sought(lists[count], pos[count], s, p', found)
    ensures found == s ==> Seeking(lists, pos[count := p'], s, base, count + 1, out)
    ensures found != s ==> Seeking(lists, pos[count := p'], found, count, 0, out)
  {
    if found == s {
      assert Passed(lists[count], p', s);
    } else {
      assert forall k :: 0 <= k < p' - 1 ==> lists[count][k] < s;
      NoneBetween(lists, count, p' - 1, s, found, out);
      NewCandidate(lists, pos, s, count, p', found, out);
    }
  }

  /** A list that runs out ends the search with the whole answer. */
  lemma SeekOtherEnds(lists: seq<Postings>, pos: seq<nat>, s: nat, base: nat, count: nat, out: Postings)
    requires Seeking(lists, pos, s, base, count, out) && count < |lists| && count != base
    requires Exhausted(lists[count], pos[count], s)
    ensures Answer(lists, out)
  {
    NoneLeft(lists, count, s, out);
  }

  lemma InList(ids: Postings, p: nat, s: nat)
    requires Passed(ids, p, s) || Untouched(ids, p, s)
    ensures s in ids
  {
    if p == 0 { assert ids[0] == s; }
  }

  /** All lists have the candidate: it joins the answer. */
  lemma Emitted(lists: seq<Postings>, pos: seq<nat>, s: nat, base: nat, out: Postings)
    requires Seeking(lists, pos, s, base, |lists|, out)
    ensures Exactly(lists, s + 1, out + [s])
  {
    forall i | 0 <= i < |lists| ensures s in lists[i] {
      InList(lists[i], pos[i], s);
    }
    assert Common(lists, s);
    forall x: nat ensures x in out + [s] <==> x < s + 1 && Common(lists, x) {
      assert x in out <==> x < s && Common(lists, x);
    }
    assert forall k :: 0 <= k < |out| ==> out[k] in out;
  }

  /** The base list moves on from a candidate that was put out. */
  lemma SeekBase(lists: seq<Postings>, pos: seq<nat>, s: nat, base: nat, out: Postings, p': nat, found: nat)
    requires Seeking(lists, pos, s, base, |lists|, out) && |lists| >= 2
    requires Sought(lists[base], pos[base], s, p', found)
    ensures found == s ==> Repeating(lists, pos[base := p'], s, base, 0, out + [s])
    ensures found != s ==> Seeking(lists, pos[base := p'], found, base, 0, out + [s])
  {
    Emitted(lists, pos, s, base, out);
    if found == s {
      assert forall i :: 0 <= i < |lists| ==> Passed(lists[i], pos[base := p'][i], s);
    } else {
      assert Passed(lists[base], pos[base], s);
      assert forall k :: 0 <= k < p' - 1 ==> lists[base][k] < s + 1;
      NoneBetween(lists, base, p' - 1, s + 1, found, out + [s]);
      NewCandidate(lists, pos, s, base, p', found, out + [s]);
    }
  }

  lemma SeekBaseEnds(lists: seq<Postings>, pos: seq<nat>, s: nat, base: nat, out: Postings)
    requires Seeking(lists, pos, s, base, |lists|, out) && Exhausted(lists[base], pos[base], s)
    ensures Answer(lists, out + [s])
  {
    Emitted(lists, pos, s, base, out);
    assert Passed(lists[base], pos[base], s);
    assert forall k :: 0 <= k < |lists[base]| ==> lists[base][k] < s + 1;
    NoneLeft(lists, base, s + 1, out + [s]);
  }

  /** Seeking a repeated candidate finds a larger one, so it is not put out twice. */
  lemma SeekRepeated(lists: seq<Postings>, pos: seq<nat>, s: nat, base: nat, count: nat, out: Postings, p': nat,
      found: nat)
    requires Repeating(lists, pos, s, base, count, out) && count < |lists| && count != base
    requires Sought(lists[count], pos[count], s, p', found)
    ensures found != s && Seeking(lists, pos[count := p'], found, count, 0, out)
  {
    assert lists[count][pos[count] - 1] == s;
    assert found > s;
    assert forall k :: 0 <= k < p' - 1 ==> lists[count][k] < s + 1;
    NoneBetween(lists, count, p' - 1, s + 1, found, out);
    NewCandidate(lists, pos, s, count, p', found, out);
  }

  lemma SeekRepeatedEnds(lists: seq<Postings>, pos: seq<nat>, s: nat, base: nat, count: nat, out: Postings)
    requires Repeating(lists, pos, s, base, count, out) && count < |lists| && count != base
    requires Exhausted(lists[count], pos[count], s)
    ensures Answer(lists, out)
  {
    assert forall k :: 0 <= k < |lists[count]| ==> lists[count][k] < s + 1;
    NoneLeft(lists, count, s + 1, out);
  }

  // ----- The whole search, one query word or several -----

  /** With a single list the cursor starts before the first candidate, which is put out twice. */
  predicate Single(lists: seq<Postings>, pos: seq<nat>, s: nat, base: nat, count: nat, out: Postings) {
    && Lists(lists) && |lists| == |pos| == 1 && base == 0 && count <= 1 && pos[0] <= |lists[0]|
    && s == (if pos[0] == 0 then lists[0][0] else lists[0][pos[0] - 1])
    && out == (if pos[0] == 0 then [] else [lists[0][0]] + lists[0][..pos[0] - 1])
  }

  ghost predicate Going(lists: seq<Postings>, pos: seq<nat>, s: nat, base: nat, count: nat, out: Postings) {
    if |lists| == 1 then Single(lists, pos, s, base, count, out)
    else Seeking(lists, pos, s, base, count, out) || Repeating(lists, pos, s, base, count, out)
  }

  /** The answer of `Retrieve`. */
  ghost predicate Done(lists: seq<Postings>, out: Postings)
    requires Lists(lists)
  {
    if |lists| == 1 then out == [lists[0][0]] + lists[0] else Answer(lists, out)
  }

  /** The list whose first docid is largest, the first of several. */
  predicate Largest(lists: seq<Postings>, s: nat, base: nat)
    requires Lists(lists)
  {
    base < |lists| && lists[base][0] == s && forall i :: 0 <= i < |lists| ==> lists[i][0] <= s
  }

  lemma Start(lists: seq<Postings>, pos: seq<nat>, s: nat, base: nat)
    requires Lists(lists) && Largest(lists, s, base)
    requires |pos| == |lists| && forall i :: 0 <= i < |pos| ==> pos[i] == 0
    ensures Going(lists, pos, s, base, 0, [])
  {
    forall x: nat | x < s ensures !Common(lists, x) {
      assert x !in lists[base];
    }
    assert Base(lists, pos, s, base);
  }

  lemma GoingFits(lists: seq<Postings>, pos: seq<nat>, s: nat, base: nat, count: nat, out: Postings)
    requires Going(lists, pos, s, base, count, out)
    ensures |pos| == |lists| && forall i :: 0 <= i < |pos| ==> pos[i] <= |lists[i]|
    ensures Unread(lists, pos) >= 0
  {
    UnreadNatural(lists, pos);
  }

  lemma SkipBase(lists: seq<Postings>, pos: seq<nat>, s: nat, base: nat, out: Postings)
    requires Going(lists, pos, s, base, base, out) && base < |lists|
    ensures Going(lists, pos, s, base, base + 1, out)
  {
  }

  lemma SeekStep(lists: seq<Postings>, pos: seq<nat>, s: nat, base: nat, count: nat, out: Postings, p': nat, found: nat)
    requires Going(lists, pos, s, base, count, out) && count < |lists| == |pos| && count != base
    requires Sought(lists[count], pos[count], s, p', found)
    ensures if found == s then Going(lists, pos[count := p'], s, base, count + 1, out)
            else Going(lists, pos[count := p'], found, count, 0, out)
  {
    if Seeking(lists, pos, s, base, count, out) {
      SeekOther(lists, pos, s, base, count, out, p', found);
    } else {
      SeekRepeated(lists, pos, s, base, count, out, p', found);
    }
  }

  lemma SeekStepEnds(lists: seq<Postings>, pos: seq<nat>, s: nat, base: nat, count: nat, out: Postings)
    requires Going(lists, pos, s, base, count, out) && count < |lists| == |pos| && count != base
    requires Exhausted(lists[count], pos[count], s)
    ensures Done(lists, out)
  {
    if Seeking(lists, pos, s, base, count, out) {
      SeekOtherEnds(lists, pos, s, base, count, out);
    } else {
      SeekRepeatedEnds(lists, pos, s, base, count, out);
    }
  }

  lemma EmitStep(lists: seq<Postings>, pos: seq<nat>, s: nat, base: nat, out: Postings, p': nat, found: nat)
    requires Going(lists, pos, s, base, |lists|, out) && base < |lists| == |pos|
    requires Sought(lists[base], pos[base], s, p', found)
    ensures Going(lists, pos[base := p'], found, base, 0, out + [s])
  {
    if |lists| == 1 {
      var ids := lists[0];
      var next := ids[pos[0]];
      assert next >= s;
      assert p' == pos[0] + 1;
    } else {
      SeekBase(lists, pos, s, base, out, p', found);
    }
  }

  lemma EmitStepEnds(lists: seq<Postings>, pos: seq<nat>, s: nat, base: nat, out: Postings)
    requires Going(lists, pos, s, base, |lists|, out) && base < |lists| == |pos|
    requires Exhausted(lists[base], pos[base], s)
    ensures Done(lists, out + [s])
  {
    if |lists| == 1 {
      var ids, p := lists[0], pos[0];
      var next := if p < |ids| then ids[p] else s;
      assert next >= s;
      assert p == |ids|;
      assert ids == ids[..p - 1] + [s];
    } else {
      SeekBaseEnds(lists, pos, s, base, out);
    }
  }

  /** Posting entries not read yet. */
  function Unread(lists: seq<Postings>, pos: seq<nat>): int
    requires |lists| == |pos|
  {
    if lists == [] then 0 else |lists[0]| - pos[0] + Unread(lists[1..], pos[1..])
  }

  lemma {:induction false} UnreadDrops(lists: seq<Postings>, pos: seq<nat>, i: nat, p': nat)
    requires |lists| == |pos| && i < |pos| && pos[i] < p'
    ensures Unread(lists, pos[i := p']) < Unread(lists, pos)
  {
    if i > 0 {
      UnreadDrops(lists[1..], pos[1..], i - 1, p');
      assert pos[i := p'][1..] == pos[1..][i - 1 := p'];
    } else {
      assert pos[i := p'][1..] == pos[1..];
    }
  }

  lemma {:induction false} UnreadNatural(lists: seq<Postings>, pos: seq<nat>)
    requires |lists| == |pos| && forall i :: 0 <= i < |pos| ==> pos[i] <= |lists[i]|
    ensures Unread(lists, pos) >= 0
  {
    if lists != [] { UnreadNatural(lists[1..], pos[1..]); }
  }

  // ----- One posting list -----

  class DocDetail {
    var idsList: array<nat>
    var freqsList: array<nat>
    var idsLen: nat
    var listCapacity: nat

    ghost predicate Valid()
      reads this
    {
      idsLen <= listCapacity == idsList.Length == freqsList.Length && idsList != freqsList
    }

    ghost function Ids(): Postings
      reads this, idsList
      requires Valid()
    {
      idsList[..idsLen]
    }

    ghost function Freqs(): seq<nat>
      reads this, freqsList
      requires Valid()
    {
      freqsList[..idsLen]
    }

    constructor Init()
      ensures Valid() && fresh(idsList) && fresh(freqsList) && Ids() == []
    {
      idsList := new nat[LIST_SIZE](_ => 0);
      freqsList := new nat[LIST_SIZE](_ => 0);
      listCapacity := LIST_SIZE;
      idsLen := 0;
    }

    /** Appends one entry, moving both arrays when they are full; the count is cut to eight bits. */
    method Add(id: nat, count: nat)
      requires Valid()
      modifies this, idsList, freqsList
      ensures Valid()
      ensures (idsList == old(idsList) && freqsList == old(freqsList)) || (fresh(idsList) && fresh(freqsList))
      ensures Ids() == old(Ids()) + [id] && Freqs() == old(Freqs()) + [count % 256]
    {
      ghost var ids, freqs := Ids(), Freqs();
      if idsLen >= listCapacity {
        listCapacity := listCapacity + LIST_SIZE;
        var tmpIds := new nat[listCapacity](_ => 0);
        var tmpFreqs := new nat[listCapacity](_ => 0);
        forall i | 0 <= i < idsLen {
          tmpIds[i] := idsList[i];
        }
        forall i | 0 <= i < idsLen {
          tmpFreqs[i] := freqsList[i];
        }
        idsList, freqsList := tmpIds, tmpFreqs;
      }
      assert Ids() == ids && Freqs() == freqs;
      idsList[idsLen] := id;
      freqsList[idsLen] := count % 256;
      idsLen := idsLen + 1;
      assert Ids()[..idsLen - 1] == ids && Freqs()[..idsLen - 1] == freqs;
    }

    /** The first id from the cursor on that is not below `docid`; the cursor ends just past it. */
    method Seek(docid: nat, pos: nat) returns (expectDocid: int, next: nat)
      requires Valid() && pos <= idsLen
      ensures pos <= next <= idsLen
      ensures expectDocid == -1 ==> Exhausted(Ids(), pos, docid)
      ensures expectDocid != -1 ==> expectDocid >= 0 && Sought(Ids(), pos, docid, next, expectDocid)
    {
      expectDocid, next := -1, pos;
      while true
        invariant pos <= next <= idsLen
        invariant forall k :: pos <= k < next ==> idsList[k] < docid
        decreases idsLen - next
      {
        if next >= idsLen {
          return;
        }
        if idsList[next] >= docid {
          expectDocid := idsList[next];
          next := next + 1;
          break;
        }
        next := next + 1;
      }
    }
  }

  // ----- The index -----

  datatype Word = Word(text: string)

  datatype WordCount = WordCount(word: Word, count: nat)

  datatype Doc = Doc(id: nat, words: seq<WordCount>)

  predicate Contains(words: seq<WordCount>, w: Word) {
    exists i :: 0 <= i < |words| && words[i].word == w
  }

  predicate DistinctWords(words: seq<WordCount>) {
    forall i, j :: 0 <= i < j < |words| ==> words[i].word != words[j].word
  }

  /** The docids of the documents with a word, in the order they were added. */
  function Posting(docs: seq<Doc>, w: Word): Postings {
    if docs == [] then []
    else
      var last := docs[|docs| - 1];
      Posting(docs[..|docs| - 1], w) + (if Contains(last.words, w) then [last.id] else [])
  }

  predicate Increasing(docs: seq<Doc>) {
    forall i, j :: 0 <= i < j < |docs| ==> docs[i].id < docs[j].id
  }

  lemma {:induction false} PostingIsExact(docs: seq<Doc>, w: Word)
    requires Increasing(docs)
    ensures Ascending(Posting(docs, w))
    ensures forall x: nat :: x in Posting(docs, w) <==>
            exists i :: 0 <= i < |docs| && docs[i].id == x && Contains(docs[i].words, w)
  {
    if docs != [] {
      var n := |docs| - 1;
      PostingIsExact(docs[..n], w);
      var init := Posting(docs[..n], w);
      forall k | 0 <= k < |init| ensures init[k] < docs[n].id {
        assert init[k] in init;
      }
      forall x: nat
        ensures x in Posting(docs, w) <==> exists i :: 0 <= i < |docs| && docs[i].id == x && Contains(docs[i].words, w)
      {
        if i :| 0 <= i < n && docs[i].id == x && Contains(docs[i].words, w) {
          assert docs[..n][i] == docs[i];
        }
      }
    }
  }

  ghost function Assign(owner: map<object, Word>, objects: set<object>, w: Word): (r: map<object, Word>)
    ensures r.Keys == owner.Keys + objects
    ensures forall o :: o in r ==> r[o] == if o in objects then w else owner[o]
  {
    map o | o in owner.Keys + objects :: if o in objects then w else owner[o]
  }

  class AwadbRetrieval {
    var invertedList: map<Word, DocDetail>
    ghost var view: map<Word, Postings>     // what the lists hold
    ghost var counts: map<Word, seq<nat>>   // and the counts beside the docids
    ghost var docs: seq<Doc>                // added so far
    ghost var owner: map<object, Word>      // the word that each object of a list belongs to
    ghost var Repr: set<object>

    /** The list of a word is well formed, holds its postings and shares no object with another list. */
    ghost predicate Holds(w: Word, list: DocDetail, ids: Postings, freqs: seq<nat>)
      reads this`owner, this`Repr, Repr
    {
      && list in Repr && list in owner && owner[list] == w && list.Valid()
      && list.idsList in Repr && list.idsList in owner && owner[list.idsList] == w
      && list.freqsList in Repr && list.freqsList in owner && owner[list.freqsList] == w
      && list.Ids() == ids && list.Freqs() == freqs
    }

    ghost predicate Represents()
      reads this`invertedList, this`view, this`counts, this`owner, this`Repr, Repr
    {
      && this !in Repr && owner.Keys <= Repr && invertedList.Keys == view.Keys == counts.Keys
      && forall w :: w in invertedList ==> Holds(w, invertedList[w], view[w], counts[w])
    }

    /** The lists are exactly the postings of the documents added. */
    ghost predicate Valid()
      reads this, Repr
    {
      Represents() && Describes(view, counts, docs)
    }

    constructor ()
      ensures Valid() && docs == [] && Repr == {}
    {
      invertedList := map[];
      docs := [];
      owner, Repr := map[], {};
      view, counts := map[], map[];
    }

    method NewList(word: Word)
      requires Represents() && word !in invertedList
      modifies this`invertedList, this`owner, this`Repr, this`view, this`counts
      ensures Represents() == true && view == old(view)[word := []] && counts == old(counts)[word := []]
      ensures old(Repr) <= Repr && fresh(Repr - old(Repr))
    {
      var item := new DocDetail.Init();
      invertedList := invertedList[word := item];
      assert item.Freqs() == [];
      forall w | w in invertedList && w != word ensures Holds(w, invertedList[w], view[w], counts[w]) {
        assert old(Holds(w, invertedList[w], view[w], counts[w]));
      }
      Claim(word, item, [], []);
    }

    /** Creates the list when it is missing. */
    method FindList(word: Word)
      requires Represents() == true
      modifies this`invertedList, this`owner, this`Repr, this`view, this`counts
      ensures Represents() == true && view == if word in old(view) then old(view) else old(view)[word := []]
      ensures counts == if word in old(view) then old(counts) else old(counts)[word := []]
      ensures old(Repr) <= Repr && fresh(Repr - old(Repr))
      ensures word in invertedList && word in counts && Holds(word, invertedList[word], view[word], counts[word])
    {
      if word !in invertedList {
        NewList(word);
      }
      assert Holds(word, invertedList[word], view[word], counts[word]);
    }

    method AddToList(word: Word, docid: nat, count: nat)
      requires Represents() == true && word in invertedList
      modifies this`owner, this`Repr, this`view, this`counts, invertedList[word], invertedList[word].idsList,
               invertedList[word].freqsList
      ensures Represents() == true && view == old(view)[word := old(view[word]) + [docid]]
      ensures counts == old(counts)[word := old(counts[word]) + [count % 256]]
      ensures old(Repr) <= Repr && fresh(Repr - old(Repr))
    {
      hide Holds;
      AddOwn(word, docid, count);
      Claim(word, invertedList[word], view[word] + [docid], counts[word] + [count % 256]);
    }

    /** One list gains the entry; no other word's is touched. */
    method AddOwn(word: Word, docid: nat, count: nat)
      requires Represents() == true && word in invertedList
      modifies invertedList[word], invertedList[word].idsList, invertedList[word].freqsList
      ensures invertedList[word].Valid() && invertedList[word].Ids() == view[word] + [docid]
      ensures word in counts && invertedList[word].Freqs() == counts[word] + [count % 256]
      ensures this !in Repr && owner.Keys <= Repr && invertedList.Keys == view.Keys == counts.Keys
      ensures forall w :: w in invertedList && w != word ==> Holds(w, invertedList[w], view[w], counts[w])
      ensures invertedList[word] in owner && owner[invertedList[word]] == word
      ensures invertedList[word].idsList in owner ==> owner[invertedList[word].idsList] == word
      ensures invertedList[word].freqsList in owner ==> owner[invertedList[word].freqsList] == word
      ensures fresh({invertedList[word], invertedList[word].idsList, invertedList[word].freqsList} - Repr)
    {
      var list := invertedList[word];
      assert Holds(word, list, view[word], counts[word]);
      list.Add(docid, count);
      forall w | w in invertedList && w != word ensures Holds(w, invertedList[w], view[w], counts[w]) {
        assert old(Holds(w, invertedList[w], view[w], counts[w]));
      }
    }

    /** A list of another word shares nothing with this one. */
    lemma NotOf(w: Word, word: Word, list: DocDetail)
      requires w in invertedList && w in view && w in counts && w != word
      requires Holds(w, invertedList[w], view[w], counts[w])
      requires list in owner ==> owner[list] == word
      requires list.idsList in owner ==> owner[list.idsList] == word
      requires list.freqsList in owner ==> owner[list.freqsList] == word
      ensures var mine: set<object> := {list, list.idsList, list.freqsList};
              invertedList[w] !in mine && invertedList[w].idsList !in mine && invertedList[w].freqsList !in mine
    {
    }

    /** Records that the arrays of a list belong to its word. */
    ghost method Claim(word: Word, list: DocDetail, ids: Postings, freqs: seq<nat>)
      requires this !in Repr && owner.Keys <= Repr && word in invertedList && invertedList[word] == list
      requires invertedList.Keys == view.Keys + {word} && counts.Keys == view.Keys
      requires forall w :: w in invertedList && w != word ==> Holds(w, invertedList[w], view[w], counts[w])
      requires list.Valid() && list.Ids() == ids && list.Freqs() == freqs
      requires list in owner ==> owner[list] == word
      requires list.idsList in owner ==> owner[list.idsList] == word
      requires list.freqsList in owner ==> owner[list.freqsList] == word
      modifies this`owner, this`Repr, this`view, this`counts
      ensures Represents() == true && view == old(view)[word := ids] && counts == old(counts)[word := freqs]
      ensures Repr == old(Repr) + {list, list.idsList, list.freqsList}
    {
      hide Holds;
      Own(word, list, ids, freqs);
      view, counts := view[word := ids], counts[word := freqs];
    }

    /** The objects of a list become its word's; the other lists stay as they are. */
    ghost method Own(word: Word, list: DocDetail, ids: Postings, freqs: seq<nat>)
      requires this !in Repr && owner.Keys <= Repr
      requires invertedList.Keys == view.Keys + {word} && counts.Keys == view.Keys
      requires forall w :: w in invertedList && w != word ==> Holds(w, invertedList[w], view[w], counts[w])
      requires list.Valid() && list.Ids() == ids && list.Freqs() == freqs
      requires list in owner ==> owner[list] == word
      requires list.idsList in owner ==> owner[list.idsList] == word
      requires list.freqsList in owner ==> owner[list.freqsList] == word
      modifies this`owner, this`Repr
      ensures this !in Repr && owner.Keys <= Repr && Repr == old(Repr) + {list, list.idsList, list.freqsList}
      ensures Holds(word, list, ids, freqs)
      ensures forall w :: w in invertedList && w != word ==> Holds(w, invertedList[w], view[w], counts[w])
    {
      var mine: set<object> := {list, list.idsList, list.freqsList};
      forall w | w in invertedList && w != word
        ensures invertedList[w] !in mine && invertedList[w].idsList !in mine && invertedList[w].freqsList !in mine
      {
        NotOf(w, word, list);
      }
      owner := Assign(owner, mine, word);
      Repr := Repr + mine;
      forall w | w in invertedList && w != word ensures Holds(w, invertedList[w], view[w], counts[w]) {
        assert old(Holds(w, invertedList[w], view[w], counts[w]));
      }
    }

    /** The list of one word, created when missing, gains one entry. */
    method AddWord(word: Word, docid: nat, count: nat)
      requires Represents() == true
      modifies this`invertedList, this`owner, this`Repr, this`view, this`counts, Repr
      ensures Represents() == true && view == WithEntry(old(view), word, docid)
      ensures counts == WithEntry(old(counts), word, count % 256)
      ensures old(Repr) <= Repr && fresh(Repr - old(Repr))
    {
      FindList(word);
      AddToList(word, docid, count);
    }

    method AddWords(docid: nat, words: seq<WordCount>)
      requires Represents() == true
      modifies this`invertedList, this`owner, this`Repr, this`view, this`counts, Repr
      ensures Represents() == true && view == WithEntries(old(view), words, docid)
      ensures counts == WithCounts(old(counts), words)
      ensures old(Repr) <= Repr && fresh(Repr - old(Repr))
    {
      for i := 0 to |words|
        invariant Represents() == true && view == WithEntries(old(view), words[..i], docid)
        invariant counts == WithCounts(old(counts), words[..i])
        invariant old(Repr) <= Repr && fresh(Repr - old(Repr))
      {
        assert words[..i + 1][..i] == words[..i];
        AddWord(words[i].word, docid, words[i].count);
      }
      assert words[..|words|] == words;
    }

    /** A document's words are entered; docids must increase and a document's words be distinct. */
    method AddDoc(docid: nat, words: seq<WordCount>)
      requires Valid() && docid < MAX_DOCID && DistinctWords(words)
      requires docs != [] ==> docs[|docs| - 1].id < docid
      modifies this, Repr
      ensures Valid() && docs == old(docs) + [Doc(docid, words)]
      ensures old(Repr) <= Repr && fresh(Repr - old(Repr))
    {
      hide Describes, WithCounts, WithEntries, DistinctWords;
      EntryDescribed(view, counts, docs, docid, words);
      AddWords(docid, words);
      hide Represents;
      docs := docs + [Doc(docid, words)];
    }

    ghost predicate AllKnown(query: seq<Word>)
      reads this
    {
      forall i :: 0 <= i < |query| ==> query[i] in view
    }

    ghost function ListsOf(query: seq<Word>): (r: seq<Postings>)
      requires AllKnown(query)
      reads this
      ensures Reads(query, r)
    {
      seq(|query|, i requires 0 <= i < |query| requires query[i] in view reads this => view[query[i]])
    }

    ghost predicate Reads(query: seq<Word>, lists: seq<Postings>)
      reads this
    {
      |lists| == |query| && forall i :: 0 <= i < |query| ==> query[i] in view && view[query[i]] == lists[i]
    }

    method First(word: Word) returns (docid: nat)
      requires Represents() == true && word in view && |view[word]| > 0
      ensures docid == view[word][0]
    {
      assert Holds(word, invertedList[word], view[word], counts[word]);
      docid := invertedList[word].idsList[0];
    }

    method SeekIn(word: Word, docid: nat, pos: nat) returns (expectDocid: int, next: nat)
      requires Represents() == true && word in view && pos <= |view[word]|
      ensures expectDocid == -1 ==> Exhausted(view[word], pos, docid)
      ensures expectDocid != -1 ==> expectDocid >= 0 && Sought(view[word], pos, docid, next, expectDocid)
    {
      assert Holds(word, invertedList[word], view[word], counts[word]);
      expectDocid, next := invertedList[word].Seek(docid, pos);
    }

    /** The first part of `Retrieve`: -1 for an unknown word, else the largest of the first docids. */
    method LargestFirst(query: seq<Word>) returns (ret: int, startDocid: nat, baseNo: nat)
      requires Represents() == true && |query| > 0
      requires forall w :: w in view ==> |view[w]| > 0 && Ascending(view[w])
      ensures ret == (if AllKnown(query) then 0 else -1)
      ensures ret == 0 ==> Lists(ListsOf(query)) && Largest(ListsOf(query), startDocid, baseNo)
    {
      assert invertedList.Keys == view.Keys;
      hide Represents;
      ret, startDocid, baseNo := 0, 0, 0;
      for i := 0 to |query|
        invariant Represents() == true && ret == 0 && baseNo < |query|
        invariant forall k :: 0 <= k < i ==> query[k] in view && view[query[k]][0] <= startDocid
        invariant (startDocid == 0 && baseNo == 0) || (baseNo < i && view[query[baseNo]][0] == startDocid)
      {
        if query[i] !in invertedList {
          ret := -1;
          return;
        }
        var tmpDocid := First(query[i]);
        if tmpDocid > startDocid {
          startDocid := tmpDocid;
          baseNo := i;
        }
      }
    }

    lemma KnownLists()
      requires Valid()
      ensures forall w :: w in view ==> |view[w]| > 0 && Ascending(view[w])
    {
      forall w | w in view ensures |view[w]| > 0 && Ascending(view[w]) {
        PostingIsExact(docs, w);
      }
    }

    /** The leapfrog join; `docids` is appended to. */
    method Retrieve(query: seq<Word>, docids: seq<nat>) returns (ret: int, found: seq<nat>)
      requires Valid() && |query| > 0
      ensures !AllKnown(query) ==> ret == -1 && found == docids
      ensures AllKnown(query) ==> Lists(ListsOf(query)) && ret == |found| >= |docids|
      ensures AllKnown(query) ==> found[..|docids|] == docids && Done(ListsOf(query), found[|docids|..])
    {
      KnownLists();
      var startDocid: nat, baseNo: nat;
      ret, startDocid, baseNo := LargestFirst(query);
      if ret == -1 {
        return ret, docids;
      }
      found := Leapfrog(query, docids, startDocid, baseNo, ListsOf(query));
      ret := |found|;
    }

    /** The two nested loops: aligns all lists on a candidate, puts it out, moves the base list on. */
    method Leapfrog(query: seq<Word>, docids: seq<nat>, start: nat, base: nat, ghost lists: seq<Postings>)
      returns (found: seq<nat>)
      requires Represents() == true && Reads(query, lists) && Lists(lists) && Largest(lists, start, base)
      ensures |docids| <= |found| && found[..|docids|] == docids && Done(lists, found[|docids|..])
    {
      hide Done, Unread, Sought, Exhausted, Lists, Represents;
      var startDocid: nat, baseNo: nat, queryCount := start, base, |query|;
      var posArray := new nat[queryCount](_ => 0);
      found := docids;
      ghost var out: Postings := [];
      Start(lists, posArray[..], startDocid, baseNo);
      hide Going;
      while true
        invariant Represents() == true && found == docids + out && baseNo < queryCount
        invariant Going(lists, posArray[..], startDocid, baseNo, 0, out)
        decreases Unread(lists, posArray[..])
      {
        var ended;
        ended, startDocid, baseNo := Align(query, startDocid, baseNo, posArray, lists, out);
        if ended {
          assert found[|docids|..] == out;
          return;
        }
        GoingFits(lists, posArray[..], startDocid, baseNo, queryCount, out);
        found := found + [startDocid];
        var nextDocid, next := SeekIn(query[baseNo], startDocid, posArray[baseNo]);
        if nextDocid == -1 {
          EmitStepEnds(lists, posArray[..], startDocid, baseNo, out);
          out := out + [startDocid];
          assert found[|docids|..] == out;
          return;
        }
        EmitStep(lists, posArray[..], startDocid, baseNo, out, next, nextDocid);
        UnreadDrops(lists, posArray[..], baseNo, next);
        posArray[baseNo] := next;
        out := out + [startDocid];
        startDocid := nextDocid;
      }
    }

    /** The inner loop: moves to the next docid that every list has, or ends when a list runs out. */
    method Align(query: seq<Word>, start: nat, base: nat, posArray: array<nat>, ghost lists: seq<Postings>,
        ghost out: Postings)
      returns (ended: bool, startDocid: nat, baseNo: nat)
      requires Represents() == true && posArray !in Repr && Reads(query, lists) && base < |query| == posArray.Length
      requires Going(lists, posArray[..], start, base, 0, out)
      modifies posArray
      ensures ended ==> Done(lists, out)
      ensures !ended ==> baseNo < |query| && Going(lists, posArray[..], startDocid, baseNo, |query|, out)
      ensures Unread(lists, posArray[..]) <= old(Unread(lists, posArray[..]))
    {
      hide Going, Done, Unread, Sought, Exhausted, Represents;
      var queryCount, count := |query|, 0;
      ended, startDocid, baseNo := false, start, base;
      while count < queryCount
        invariant Represents() == true && baseNo < queryCount && count <= queryCount && !ended
        invariant Going(lists, posArray[..], startDocid, baseNo, count, out)
        invariant Unread(lists, posArray[..]) <= old(Unread(lists, posArray[..]))
        decreases Unread(lists, posArray[..]), queryCount - count
      {
        if baseNo == count {
          SkipBase(lists, posArray[..], startDocid, baseNo, out);
          count := count + 1;
          continue;
        }
        GoingFits(lists, posArray[..], startDocid, baseNo, count, out);
        var nextDocid, next := SeekIn(query[count], startDocid, posArray[count]);
        if nextDocid == -1 {
          SeekStepEnds(lists, posArray[..], startDocid, baseNo, count, out);
          ended := true;
          return;
        }
        SeekStep(lists, posArray[..], startDocid, baseNo, count, out, next, nextDocid);
        UnreadDrops(lists, posArray[..], count, next);
        posArray[count] := next;
        if nextDocid == startDocid {
          count := count + 1;
        } else {
          startDocid := nextDocid;
          baseNo := count;
          count := 0;
        }
      }
    }
  }

  /**
    Over the documents added: with several query words the answer is, in order and without
    repetition, exactly the documents that contain them all.
   */
  lemma AnswerIsDocuments(docs: seq<Doc>, query: seq<Word>, lists: seq<Postings>, out: Postings)
    requires Increasing(docs) && |query| >= 2 && |lists| == |query| && Lists(lists) && Done(lists, out)
    requires forall i :: 0 <= i < |query| ==> lists[i] == Posting(docs, query[i])
    ensures Ascending(out)
    ensures forall x: nat :: x in out <==>
              exists d :: 0 <= d < |docs| && docs[d].id == x && forall i :: 0 <= i < |query| ==>
                  Contains(docs[d].words, query[i])
  {
    forall x: nat
      ensures x in out <==>
              exists d :: 0 <= d < |docs| && docs[d].id == x && forall i :: 0 <= i < |query| ==>
                  Contains(docs[d].words, query[i])
    {
      assert x in out <==> Common(lists, x);
      if Common(lists, x) {
        CommonIsDocument(docs, query, lists, x);
      }
      if d :| 0 <= d < |docs| && docs[d].id == x && forall i :: 0 <= i < |query| ==> Contains(docs[d].words, query[i]) {
        forall i | 0 <= i < |lists| ensures x in lists[i] {
          PostingIsExact(docs, query[i]);
        }
      }
    }
  }

  lemma CommonIsDocument(docs: seq<Doc>, query: seq<Word>, lists: seq<Postings>, x: nat)
    requires Increasing(docs) && |query| > 0 && |lists| == |query| && Common(lists, x)
    requires forall i :: 0 <= i < |query| ==> lists[i] == Posting(docs, query[i])
    ensures exists d :: 0 <= d < |docs| && docs[d].id == x && forall i :: 0 <= i < |query| ==>
            Contains(docs[d].words, query[i])
  {
    PostingIsExact(docs, query[0]);
    var d :| 0 <= d < |docs| && docs[d].id == x && Contains(docs[d].words, query[0]);
    forall i | 0 <= i < |query| ensures Contains(docs[d].words, query[i]) {
      PostingIsExact(docs, query[i]);
      var e :| 0 <= e < |docs| && docs[e].id == x && Contains(docs[e].words, query[i]);
      assert e == d;
    }
  }

  // ----- The counts beside the docids -----

  /** How often the word is said to occur. */
  function CountOf(words: seq<WordCount>, w: Word): nat
    requires Contains(words, w)
  {
    if words[|words| - 1].word == w then words[|words| - 1].count
    else
      assert Contains(words[..|words| - 1], w) by {
        var i :| 0 <= i < |words| && words[i].word == w;
        assert words[..|words| - 1][i].word == w;
      }
      CountOf(words[..|words| - 1], w)
  }

  /** What stands beside the docids of a word: its counts in those documents, cut to eight bits. */
  function Frequencies(docs: seq<Doc>, w: Word): seq<nat> {
    if docs == [] then []
    else
      var last := docs[|docs| - 1];
      Frequencies(docs[..|docs| - 1], w) + (if Contains(last.words, w) then [CountOf(last.words, w) % 256] else [])
  }

  /** Entry by entry the counts belong to the docids. */
  lemma {:induction false} FrequenciesMatch(docs: seq<Doc>, w: Word, i: nat)
    requires i < |Posting(docs, w)|
    ensures |Frequencies(docs, w)| == |Posting(docs, w)|
    ensures exists d :: 0 <= d < |docs| && docs[d].id == Posting(docs, w)[i] && Contains(docs[d].words, w) &&
              Frequencies(docs, w)[i] == CountOf(docs[d].words, w) % 256
    decreases |docs|
  {
    var n := |docs| - 1;
    SameLength(docs[..n], w);
    if i < |Posting(docs[..n], w)| {
      FrequenciesMatch(docs[..n], w, i);
      var d :| 0 <= d < n && docs[..n][d].id == Posting(docs[..n], w)[i] && Contains(docs[..n][d].words, w) &&
        Frequencies(docs[..n], w)[i] == CountOf(docs[..n][d].words, w) % 256;
      assert docs[..n][d] == docs[d];
    }
  }

  lemma {:induction false} SameLength(docs: seq<Doc>, w: Word)
    ensures |Frequencies(docs, w)| == |Posting(docs, w)|
  {
    if docs != [] { SameLength(docs[..|docs| - 1], w); }
  }

  /** With distinct words the count is the one that stands beside the word. */
  lemma {:induction false} CountIs(words: seq<WordCount>, i: nat)
    requires DistinctWords(words) && i < |words|
    ensures Contains(words, words[i].word) && CountOf(words, words[i].word) == words[i].count
    decreases |words|
  {
    if i < |words| - 1 { CountIs(words[..|words| - 1], i); }
  }

  ghost predicate Counts(counts: map<Word, seq<nat>>, docs: seq<Doc>) {
    forall w :: w in counts ==> counts[w] == Frequencies(docs, w)
  }

  /** The two maps are what the documents, in order of their docids, say. */
  ghost predicate Describes(view: map<Word, Postings>, counts: map<Word, seq<nat>>, docs: seq<Doc>) {
    && Indexes(view, docs) && Counts(counts, docs) && Increasing(docs)
    && forall i :: 0 <= i < |docs| ==> docs[i].id < MAX_DOCID
  }

  lemma EntryDescribed(view: map<Word, Postings>, counts: map<Word, seq<nat>>, docs: seq<Doc>, docid: nat,
      words: seq<WordCount>)
    requires Describes(view, counts, docs) && counts.Keys == view.Keys && DistinctWords(words) && docid < MAX_DOCID
    requires docs != [] ==> docs[|docs| - 1].id < docid
    ensures Describes(WithEntries(view, words, docid), WithCounts(counts, words), docs + [Doc(docid, words)])
  {
    hide Indexes, Counts, DistinctWords;
    EntriesIndex(view, docs, docid, words);
    EntriesCount(view, counts, docs, docid, words);
  }

  function WithCounts(counts: map<Word, seq<nat>>, words: seq<WordCount>): map<Word, seq<nat>> {
    if words == [] then counts
    else
      var n := |words| - 1;
      WithEntry(WithCounts(counts, words[..n]), words[n].word, words[n].count % 256)
  }

  lemma {:induction false} WithCountsAt(counts: map<Word, seq<nat>>, words: seq<WordCount>, w: Word)
    requires DistinctWords(words)
    ensures w in WithCounts(counts, words) <==> w in counts || Contains(words, w)
    ensures w in WithCounts(counts, words) ==>
              WithCounts(counts, words)[w] ==
                (if w in counts then counts[w] else []) + (if Contains(words, w) then [CountOf(words, w) % 256] else [])
  {
    if words != [] {
      var n := |words| - 1;
      WithCountsAt(counts, words[..n], w);
      assert words[n].word == w ==> !Contains(words[..n], w) && Contains(words, w);
      if i :| 0 <= i < n && words[i].word == w { assert words[..n][i].word == w; }
    }
  }

  lemma EntriesCount(view: map<Word, Postings>, counts: map<Word, seq<nat>>, docs: seq<Doc>, docid: nat,
      words: seq<WordCount>)
    requires Indexes(view, docs) && Counts(counts, docs) && counts.Keys == view.Keys && DistinctWords(words)
    ensures Counts(WithCounts(counts, words), docs + [Doc(docid, words)])
  {
    var docs' := docs + [Doc(docid, words)];
    assert docs'[..|docs|] == docs;
    forall w | w in WithCounts(counts, words) ensures WithCounts(counts, words)[w] == Frequencies(docs', w) {
      WithCountsAt(counts, words, w);
      SameLength(docs, w);
    }
  }

  function WithEntry(view: map<Word, Postings>, word: Word, docid: nat): map<Word, Postings> {
    var found := if word in view then view else view[word := []];
    found[word := found[word] + [docid]]
  }

  function WithEntries(view: map<Word, Postings>, words: seq<WordCount>, docid: nat): map<Word, Postings> {
    if words == [] then view
    else WithEntry(WithEntries(view, words[..|words| - 1], docid), words[|words| - 1].word, docid)
  }

  lemma {:induction false} WithEntriesAt(view: map<Word, Postings>, words: seq<WordCount>, docid: nat, w: Word)
    requires DistinctWords(words)
    ensures w in WithEntries(view, words, docid) <==> w in view || Contains(words, w)
    ensures w in WithEntries(view, words, docid) ==>
              WithEntries(view, words, docid)[w] ==
                (if w in view then view[w] else []) + (if Contains(words, w) then [docid] else [])
  {
    if words != [] {
      var n := |words| - 1;
      WithEntriesAt(view, words[..n], docid, w);
      assert words[n].word == w ==> !Contains(words[..n], w) && Contains(words, w);
      if i :| 0 <= i < n && words[i].word == w { assert words[..n][i].word == w; }
    }
  }

  lemma EntriesIndex(view: map<Word, Postings>, docs: seq<Doc>, docid: nat, words: seq<WordCount>)
    requires Indexes(view, docs) && DistinctWords(words)
    ensures Indexes(WithEntries(view, words, docid), docs + [Doc(docid, words)])
  {
    var docs' := docs + [Doc(docid, words)];
    assert docs'[..|docs|] == docs;
    forall w
      ensures w in WithEntries(view, words, docid) <==> Posting(docs', w) != []
      ensures w in WithEntries(view, words, docid) ==> WithEntries(view, words, docid)[w] == Posting(docs', w)
    {
      WithEntriesAt(view, words, docid, w);
    }
  }

  /** A map from words to postings that is exactly what the documents say. */
  ghost predicate Indexes(view: map<Word, Postings>, docs: seq<Doc>) {
    && (forall w :: w in view <==> Posting(docs, w) != [])
    && (forall w :: w in view ==> view[w] == Posting(docs, w))
  }
}
