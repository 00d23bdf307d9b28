/**
  What adding documents one by one comes to, told of the result alone: which docid every key has, what
  the document there holds, and who was notified.
 */
module BatchFold {
  import opened BatchIngest

  /** No earlier document has the same number. */
  predicate First<C>(docs: seq<Doc<C>>, i: nat, hash: Key -> int)
    requires i < |docs|
  {
    forall j :: 0 <= j < i ==> hash(docs[j].key) != hash(docs[i].key)
  }

  /** The document brings a number that the table does not have. */
  predicate IsNew<C>(known: set<int>, docs: seq<Doc<C>>, i: nat, hash: Key -> int)
    requires i < |docs|
  {
    hash(docs[i].key) !in known && First(docs, i, hash)
  }

  /** How many of the first `n` documents bring a new number. */
  function NewOnes<C>(known: set<int>, docs: seq<Doc<C>>, n: nat, hash: Key -> int): nat
    requires n <= |docs|
  {
    if n == 0 then 0 else NewOnes(known, docs, n - 1, hash) + if IsNew(known, docs, n - 1, hash) then 1 else 0
  }

  /** What the documents with this number hold, in order. */
  function Contents<C>(docs: seq<Doc<C>>, h: int, hash: Key -> int): seq<C> {
    if docs == [] then []
    else
      var n := |docs| - 1;
      Contents(docs[..n], h, hash) + if hash(docs[n].key) == h then [docs[n].content] else []
  }

  /** Everything in order merged into `c`. */
  function Merged<C>(c: C, xs: seq<C>, merge: (C, C) -> C): C {
    if xs == [] then c else merge(Merged(c, xs[..|xs| - 1], merge), xs[|xs| - 1])
  }

  /** Old keys keep their docids, and new ones get the next, in the order in which they come up. */
  ghost predicate Numbered<C>(s: State<C>, docs: seq<Doc<C>>, s': State<C>, hash: Key -> int) {
    && |s'.docs| == |s.docs| + NewOnes(s.table.Keys, docs, |docs|, hash)
    && (forall h :: h in s'.table <==> h in s.table || exists i :: 0 <= i < |docs| && hash(docs[i].key) == h)
    && (forall h :: h in s.table ==> s'.table[h] == s.table[h])
    && (forall i :: 0 <= i < |docs| && IsNew(s.table.Keys, docs, i, hash) ==>
          s'.table[hash(docs[i].key)] == |s.docs| + NewOnes(s.table.Keys, docs, i, hash))
  }

  /** A known key's document has all its new contents merged in, in order. */
  ghost predicate KnownAt<C>(s: State<C>, docs: seq<Doc<C>>, s': State<C>, hash: Key -> int, merge: (C, C) -> C, h: int)
    requires h in s.table
  {
    s.table[h] < |s.docs| && s.table[h] < |s'.docs| &&
    s'.docs[s.table[h]] == Merged(s.docs[s.table[h]], Contents(docs, h, hash), merge)
  }

  /** A new key's document starts with the first of its contents. */
  ghost predicate NewAt<C>(s: State<C>, docs: seq<Doc<C>>, s': State<C>, hash: Key -> int, merge: (C, C) -> C, i: nat)
    requires i < |docs|
  {
    var xs, d := Contents(docs, hash(docs[i].key), hash), |s.docs| + NewOnes(s.table.Keys, docs, i, hash);
    |xs| > 0 && d < |s'.docs| && s'.docs[d] == Merged(xs[0], xs[1..], merge)
  }

  ghost predicate Filled<C>(s: State<C>, docs: seq<Doc<C>>, s': State<C>, hash: Key -> int, merge: (C, C) -> C) {
    && (forall h :: h in s.table ==> KnownAt(s, docs, s', hash, merge, h))
    && (forall i :: 0 <= i < |docs| && IsNew(s.table.Keys, docs, i, hash) ==> NewAt(s, docs, s', hash, merge, i))
    && (forall d :: 0 <= d < |s.docs| && d < |s'.docs| && (forall h :: h in s.table ==> s.table[h] != d) ==>
          s'.docs[d] == s.docs[d])
  }

  /** One notice for each document, of the docid its key has. */
  ghost predicate Notified<C>(s: State<C>, docs: seq<Doc<C>>, s': State<C>, hash: Key -> int) {
    && |s'.notices| == |s.notices| + |docs| && s.notices <= s'.notices
    && forall i :: 0 <= i < |docs| ==>
         hash(docs[i].key) in s'.table && s'.notices[|s.notices| + i] == s'.table[hash(docs[i].key)]
  }

  ghost predicate Folded<C>(s: State<C>, docs: seq<Doc<C>>, s': State<C>, hash: Key -> int, merge: (C, C) -> C) {
    Numbered(s, docs, s', hash) && Filled(s, docs, s', hash, merge) && Notified(s, docs, s', hash)
  }

  // ----- Proof -----

  lemma {:induction false} NewOnesPrefix<C>(known: set<int>, docs: seq<Doc<C>>, n: nat, m: nat, hash: Key -> int)
    requires n <= m <= |docs|
    ensures NewOnes(known, docs[..m], n, hash) == NewOnes(known, docs, n, hash)
  {
    if n > 0 {
      NewOnesPrefix(known, docs, n - 1, m, hash);
      assert forall j :: 0 <= j < m ==> docs[..m][j] == docs[j];
    }
  }

  /** A later new number counts the earlier ones. */
  lemma {:induction false} NewOnesGrow<C>(known: set<int>, docs: seq<Doc<C>>, i: nat, n: nat, hash: Key -> int)
    requires i < n <= |docs|
    ensures NewOnes(known, docs, i, hash) + (if IsNew(known, docs, i, hash) then 1 else 0) <=
            NewOnes(known, docs, n, hash)
    decreases n
  {
    if i < n - 1 { NewOnesGrow(known, docs, i, n - 1, hash); }
  }

  lemma {:induction false} NoContents<C>(docs: seq<Doc<C>>, h: int, hash: Key -> int)
    requires forall i :: 0 <= i < |docs| ==> hash(docs[i].key) != h
    ensures Contents(docs, h, hash) == []
    decreases |docs|
  {
    if docs != [] { NoContents(docs[..|docs| - 1], h, hash); }
  }

  /** The first document with a number. */
  lemma {:induction false} FirstOf<C>(docs: seq<Doc<C>>, n: nat, h: int, hash: Key -> int) returns (i: nat)
    requires n <= |docs| && exists j :: 0 <= j < n && hash(docs[j].key) == h
    ensures i < n && hash(docs[i].key) == h && First(docs, i, hash)
    decreases n
  {
    if j :| 0 <= j < n - 1 && hash(docs[j].key) == h {
      i := FirstOf(docs, n - 1, h, hash);
    } else {
      i := n - 1;
    }
  }

  lemma {:induction false} IngestFolds<C>(s: State<C>, docs: seq<Doc<C>>, hash: Key -> int, merge: (C, C) -> C)
    requires Ok(s)
    ensures Folded(s, docs, IngestAll(s, docs, hash, merge), hash, merge)
    decreases |docs|
  {
    if docs != [] {
      var n := |docs| - 1;
      IngestFolds(s, docs[..n], hash, merge);
      hide IngestAll;
      FoldNext(s, docs, IngestAll(s, docs[..n], hash, merge), hash, merge);
      IngestLast(s, docs, hash, merge);
    }
  }

  lemma IngestLast<C>(s: State<C>, docs: seq<Doc<C>>, hash: Key -> int, merge: (C, C) -> C)
    requires Ok(s) && docs != []
    ensures IngestAll(s, docs, hash, merge) ==
            Ingest(IngestAll(s, docs[..|docs| - 1], hash, merge), docs[|docs| - 1], hash, merge)
  {
  }

  lemma FoldNext<C>(s: State<C>, docs: seq<Doc<C>>, p: State<C>, hash: Key -> int, merge: (C, C) -> C)
    requires Ok(s) && docs != [] && Ok(p)
    requires Folded(s, docs[..|docs| - 1], p, hash, merge)
    ensures Folded(s, docs, Ingest(p, docs[|docs| - 1], hash, merge), hash, merge)
  {
    hide Filled, Notified, Numbered;
    NumberNext(s, docs, p, hash, merge);
    FillNext(s, docs, p, hash, merge);
    NotifyNext(s, docs, p, hash, merge);
  }

  lemma SameFirsts<C>(known: set<int>, docs: seq<Doc<C>>, n: nat, hash: Key -> int)
    requires n <= |docs|
    ensures forall i :: 0 <= i < n ==>
              docs[..n][i] == docs[i] && (IsNew(known, docs[..n], i, hash) <==> IsNew(known, docs, i, hash))
    ensures forall i :: 0 <= i <= n ==> NewOnes(known, docs[..n], i, hash) == NewOnes(known, docs, i, hash)
  {
    forall i | 0 <= i <= n ensures NewOnes(known, docs[..n], i, hash) == NewOnes(known, docs, i, hash) {
      NewOnesPrefix(known, docs, i, n, hash);
    }
  }

  lemma NumberNext<C>(s: State<C>, docs: seq<Doc<C>>, p: State<C>, hash: Key -> int, merge: (C, C) -> C)
    requires Ok(s) && docs != [] && Ok(p) && Numbered(s, docs[..|docs| - 1], p, hash)
    ensures Numbered(s, docs, Ingest(p, docs[|docs| - 1], hash, merge), hash)
  {
    hide Numbered, Ok;
    var known := s.table.Keys;
    IngestTable(p, docs[|docs| - 1], hash, merge);
    NewKnown(s, docs, p, hash);
    RowsSoFar(s, docs, p, hash);
    NumberNextKeys(s, docs, p, hash);
    hide Ingest, IsNew;
    var s' := Ingest(p, docs[|docs| - 1], hash, merge);
    forall i | 0 <= i < |docs| && IsNew(known, docs, i, hash)
      ensures hash(docs[i].key) in s'.table && s'.table[hash(docs[i].key)] == |s.docs| + NewOnes(known, docs, i, hash)
    {
      NumberNextNew(s, docs, p, hash, i);
    }
    NumberedAll(s, docs, s', hash);
  }

  lemma NumberedAll<C>(s: State<C>, docs: seq<Doc<C>>, s': State<C>, hash: Key -> int)
    requires |s'.docs| == |s.docs| + NewOnes(s.table.Keys, docs, |docs|, hash)
    requires forall h :: h in s'.table <==> h in s.table || exists i :: 0 <= i < |docs| && hash(docs[i].key) == h
    requires forall h :: h in s.table ==> s'.table[h] == s.table[h]
    requires forall i :: 0 <= i < |docs| && IsNew(s.table.Keys, docs, i, hash) ==>
          hash(docs[i].key) in s'.table &&
          s'.table[hash(docs[i].key)] == |s.docs| + NewOnes(s.table.Keys, docs, i, hash)
    ensures Numbered(s, docs, s', hash)
  {
  }

  lemma IngestTable<C>(p: State<C>, doc: Doc<C>, hash: Key -> int, merge: (C, C) -> C)
    requires Ok(p)
    ensures var s' := Ingest(p, doc, hash, merge);
            && s'.table == (if hash(doc.key) in p.table then p.table else p.table[hash(doc.key) := |p.docs|])
            && |s'.docs| == |p.docs| + if hash(doc.key) in p.table then 0 else 1
  {
  }

  lemma NewKnown<C>(s: State<C>, docs: seq<Doc<C>>, p: State<C>, hash: Key -> int)
    requires docs != [] && Numbered(s, docs[..|docs| - 1], p, hash)
    ensures hash(docs[|docs| - 1].key) in p.table <==> !IsNew(s.table.Keys, docs, |docs| - 1, hash)
  {
    hide NewOnes;
    var n, h := |docs| - 1, hash(docs[|docs| - 1].key);
    assert forall j :: 0 <= j < n ==> docs[..n][j] == docs[j];
    if i :| 0 <= i < n && hash(docs[i].key) == h { assert hash(docs[..n][i].key) == h; }
  }

  lemma NumberNextKeys<C>(s: State<C>, docs: seq<Doc<C>>, p: State<C>, hash: Key -> int)
    requires docs != [] && Numbered(s, docs[..|docs| - 1], p, hash)
    ensures forall g :: g in p.table || g == hash(docs[|docs| - 1].key) <==>
              g in s.table || exists i :: 0 <= i < |docs| && hash(docs[i].key) == g
    ensures forall g :: g in s.table ==> g in p.table && p.table[g] == s.table[g]
  {
    hide NewOnes, IsNew;
    var n := |docs| - 1;
    assert hash(docs[n].key) == hash(docs[|docs| - 1].key);
    assert forall i :: 0 <= i < n ==> docs[..n][i] == docs[i];
    forall g | g in p.table && g !in s.table ensures exists i :: 0 <= i < |docs| && hash(docs[i].key) == g {
      var i :| 0 <= i < n && hash(docs[..n][i].key) == g;
      assert hash(docs[i].key) == g;
    }
    forall i | 0 <= i < n ensures hash(docs[i].key) in p.table {
      assert hash(docs[..n][i].key) == hash(docs[i].key);
    }
  }

  lemma NumberNextNew<C>(s: State<C>, docs: seq<Doc<C>>, p: State<C>, hash: Key -> int, i: nat)
    requires docs != [] && Numbered(s, docs[..|docs| - 1], p, hash)
    requires i < |docs| && IsNew(s.table.Keys, docs, i, hash)
    ensures i < |docs| - 1 ==>
      && hash(docs[i].key) in p.table
      && p.table[hash(docs[i].key)] == |s.docs| + NewOnes(s.table.Keys, docs, i, hash)
  {
    SameFirsts(s.table.Keys, docs, |docs| - 1, hash);
    hide NewOnes;
    if i < |docs| - 1 {
      assert IsNew(s.table.Keys, docs[..|docs| - 1], i, hash);
      assert hash(docs[..|docs| - 1][i].key) == hash(docs[i].key);
    }
  }

  lemma NotifyNext<C>(s: State<C>, docs: seq<Doc<C>>, p: State<C>, hash: Key -> int, merge: (C, C) -> C)
    requires Ok(s) && docs != [] && Ok(p) && Notified(s, docs[..|docs| - 1], p, hash)
    ensures Notified(s, docs, Ingest(p, docs[|docs| - 1], hash, merge), hash)
  {
    var n, s' := |docs| - 1, Ingest(p, docs[|docs| - 1], hash, merge);
    forall i | 0 <= i < |docs|
      ensures hash(docs[i].key) in s'.table && s'.notices[|s.notices| + i] == s'.table[hash(docs[i].key)]
    {
      if i < n { assert docs[..n][i] == docs[i] && hash(docs[..n][i].key) in p.table; }
    }
  }

  lemma MergedSnoc<C>(c: C, xs: seq<C>, x: C, merge: (C, C) -> C)
    ensures Merged(c, xs + [x], merge) == merge(Merged(c, xs, merge), x)
  {
    assert (xs + [x])[..|xs|] == xs;
  }

  /** Where the last document goes: to its key's docid, or behind all others. */
  function Target<C>(p: State<C>, h: int): nat {
    if h in p.table then p.table[h] else |p.docs|
  }

  lemma IngestAt<C>(p: State<C>, doc: Doc<C>, hash: Key -> int, merge: (C, C) -> C, d: nat)
    requires Ok(p)
    ensures var s', t := Ingest(p, doc, hash, merge), Target(p, hash(doc.key));
            && t <= |p.docs| && |s'.docs| == (if t == |p.docs| then |p.docs| + 1 else |p.docs|)
            && (t == |p.docs| <==> hash(doc.key) !in p.table)
            && s'.docs[t] == (if t < |p.docs| then merge(p.docs[t], doc.content) else doc.content)
            && (d < |p.docs| && d != t ==> s'.docs[d] == p.docs[d])
  {
  }

  /** The key of row `m` is the last document's, if any row's is. */
  lemma TargetRow<C>(s: State<C>, docs: seq<Doc<C>>, p: State<C>, hash: Key -> int) returns (m: nat)
    requires docs != [] && Ok(p) && Numbered(s, docs[..|docs| - 1], p, hash)
    requires hash(docs[|docs| - 1].key) !in s.table
    ensures m < |docs| && IsNew(s.table.Keys, docs, m, hash) && hash(docs[m].key) == hash(docs[|docs| - 1].key)
    ensures Target(p, hash(docs[m].key)) == |s.docs| + NewOnes(s.table.Keys, docs, m, hash)
    ensures m == |docs| - 1 <==> hash(docs[|docs| - 1].key) !in p.table
  {
    var n, h, known := |docs| - 1, hash(docs[|docs| - 1].key), s.table.Keys;
    SameFirsts(known, docs, n, hash);
    m := FirstOf(docs, n + 1, h, hash);
    if m < n {
      assert IsNew(known, docs[..n], m, hash);
      assert hash(docs[..n][m].key) == h;
    }
  }

  lemma TargetKnown<C>(s: State<C>, docs: seq<Doc<C>>, p: State<C>, hash: Key -> int, h: int)
    requires Numbered(s, docs, p, hash) && h in s.table
    ensures Target(p, h) == s.table[h] && |p.docs| == |s.docs| + NewOnes(s.table.Keys, docs, |docs|, hash)
  {
    assert h in p.table;
  }

  lemma RowsSoFar<C>(s: State<C>, docs: seq<Doc<C>>, p: State<C>, hash: Key -> int)
    requires docs != [] && Numbered(s, docs[..|docs| - 1], p, hash)
    ensures |p.docs| == |s.docs| + NewOnes(s.table.Keys, docs, |docs| - 1, hash)
  {
    SameFirsts(s.table.Keys, docs, |docs| - 1, hash);
  }

  lemma ContentsNext<C>(docs: seq<Doc<C>>, h: int, hash: Key -> int)
    requires docs != []
    ensures var n := |docs| - 1;
            Contents(docs, h, hash) ==
            if hash(docs[n].key) == h then Contents(docs[..n], h, hash) + [docs[n].content]
            else Contents(docs[..n], h, hash)
  {
    assert Contents(docs[..|docs| - 1], h, hash) + [] == Contents(docs[..|docs| - 1], h, hash);
  }

  lemma KnownNext<C>(s: State<C>, docs: seq<Doc<C>>, p: State<C>, hash: Key -> int, merge: (C, C) -> C, g: int)
    requires Ok(s) && docs != [] && Ok(p) && g in s.table
    requires Numbered(s, docs[..|docs| - 1], p, hash) && KnownAt(s, docs[..|docs| - 1], p, hash, merge, g)
    ensures KnownAt(s, docs, Ingest(p, docs[|docs| - 1], hash, merge), hash, merge, g)
  {
    hide Numbered, Ingest, Merged, Contents;
    var n, h := |docs| - 1, hash(docs[|docs| - 1].key);
    IngestAt(p, docs[n], hash, merge, s.table[g]);
    ContentsNext(docs, g, hash);
    RowsSoFar(s, docs, p, hash);
    if g == h {
      TargetKnown(s, docs[..n], p, hash, g);
      MergedSnoc(s.docs[s.table[g]], Contents(docs[..n], g, hash), docs[n].content, merge);
    } else if h in s.table {
      TargetKnown(s, docs[..n], p, hash, h);
    } else {
      var m := TargetRow(s, docs, p, hash);
    }
  }

  lemma NewNext<C>(s: State<C>, docs: seq<Doc<C>>, p: State<C>, hash: Key -> int, merge: (C, C) -> C, i: nat)
    requires Ok(s) && docs != [] && Ok(p) && i < |docs| && IsNew(s.table.Keys, docs, i, hash)
    requires Numbered(s, docs[..|docs| - 1], p, hash)
    requires i < |docs| - 1 ==> NewAt(s, docs[..|docs| - 1], p, hash, merge, i)
    ensures NewAt(s, docs, Ingest(p, docs[|docs| - 1], hash, merge), hash, merge, i)
  {
    hide Numbered, Ingest, NewAt;
    if hash(docs[i].key) != hash(docs[|docs| - 1].key) {
      NewStays(s, docs, p, hash, merge, i);
    } else {
      var m := TargetRow(s, docs, p, hash);
      SameRow(s.table.Keys, docs, m, i, hash);
      if i == |docs| - 1 {
        NewStarts(s, docs, p, hash, merge);
      } else {
        NewGrows(s, docs, p, hash, merge, i);
      }
    }
  }

  lemma SameRow<C>(known: set<int>, docs: seq<Doc<C>>, m: nat, i: nat, hash: Key -> int)
    requires m < |docs| && i < |docs| && IsNew(known, docs, m, hash) && IsNew(known, docs, i, hash)
    requires hash(docs[m].key) == hash(docs[i].key)
    ensures m == i
  {
  }

  lemma NewStays<C>(s: State<C>, docs: seq<Doc<C>>, p: State<C>, hash: Key -> int, merge: (C, C) -> C, i: nat)
    requires Ok(s) && docs != [] && Ok(p) && i < |docs| - 1 && IsNew(s.table.Keys, docs, i, hash)
    requires Numbered(s, docs[..|docs| - 1], p, hash) && hash(docs[i].key) != hash(docs[|docs| - 1].key)
    requires NewAt(s, docs[..|docs| - 1], p, hash, merge, i)
    ensures NewAt(s, docs, Ingest(p, docs[|docs| - 1], hash, merge), hash, merge, i)
  {
    hide Numbered, Ingest, IsNew, Merged, Contents;
    var n := |docs| - 1;
    SameFirsts(s.table.Keys, docs, n, hash);
    IngestAt(p, docs[n], hash, merge, |s.docs| + NewOnes(s.table.Keys, docs, i, hash));
    ContentsNext(docs, hash(docs[i].key), hash);
    ElsewhereNew(s, docs, p, hash, i);
  }

  lemma NewStarts<C>(s: State<C>, docs: seq<Doc<C>>, p: State<C>, hash: Key -> int, merge: (C, C) -> C)
    requires Ok(s) && docs != [] && Ok(p) && IsNew(s.table.Keys, docs, |docs| - 1, hash)
    requires Numbered(s, docs[..|docs| - 1], p, hash)
    requires Target(p, hash(docs[|docs| - 1].key)) == |s.docs| + NewOnes(s.table.Keys, docs, |docs| - 1, hash)
    ensures NewAt(s, docs, Ingest(p, docs[|docs| - 1], hash, merge), hash, merge, |docs| - 1)
  {
    hide Numbered, Ingest, IsNew, Merged, Contents, NewOnes;
    var n, g := |docs| - 1, hash(docs[|docs| - 1].key);
    NothingBefore(s.table.Keys, docs, hash);
    IngestAt(p, docs[n], hash, merge, 0);
    ContentsNext(docs, g, hash);
    RowsSoFar(s, docs, p, hash);
    MergedNone(docs[n].content, merge);
    assert Contents(docs, g, hash) == [docs[n].content] && [docs[n].content][1..] == [];
  }

  lemma NothingBefore<C>(known: set<int>, docs: seq<Doc<C>>, hash: Key -> int)
    requires docs != [] && IsNew(known, docs, |docs| - 1, hash)
    ensures Contents(docs[..|docs| - 1], hash(docs[|docs| - 1].key), hash) == []
  {
    NoContents(docs[..|docs| - 1], hash(docs[|docs| - 1].key), hash);
  }

  lemma NewGrows<C>(s: State<C>, docs: seq<Doc<C>>, p: State<C>, hash: Key -> int, merge: (C, C) -> C, i: nat)
    requires Ok(s) && docs != [] && Ok(p) && i < |docs| - 1 && hash(docs[i].key) == hash(docs[|docs| - 1].key)
    requires NewAt(s, docs[..|docs| - 1], p, hash, merge, i)
    requires Target(p, hash(docs[|docs| - 1].key)) == |s.docs| + NewOnes(s.table.Keys, docs, i, hash)
    ensures NewAt(s, docs, Ingest(p, docs[|docs| - 1], hash, merge), hash, merge, i)
  {
    hide Ingest, Merged, Contents, NewOnes, IsNew;
    var n, g := |docs| - 1, hash(docs[i].key);
    SameFirsts(s.table.Keys, docs, n, hash);
    IngestAt(p, docs[n], hash, merge, 0);
    ContentsNext(docs, g, hash);
    var before := Contents(docs[..n], g, hash);
    assert (before + [docs[n].content])[1..] == before[1..] + [docs[n].content];
    MergedSnoc(before[0], before[1..], docs[n].content, merge);
  }

  lemma MergedNone<C>(c: C, merge: (C, C) -> C)
    ensures Merged(c, [], merge) == c
  {
  }

  /** Rows of different keys are different. */
  lemma ElsewhereNew<C>(s: State<C>, docs: seq<Doc<C>>, p: State<C>, hash: Key -> int, i: nat)
    requires Ok(s) && docs != [] && Ok(p) && i < |docs| - 1 && IsNew(s.table.Keys, docs, i, hash)
    requires Numbered(s, docs[..|docs| - 1], p, hash) && hash(docs[i].key) != hash(docs[|docs| - 1].key)
    ensures var d := |s.docs| + NewOnes(s.table.Keys, docs, i, hash);
            d < |p.docs| && Target(p, hash(docs[|docs| - 1].key)) != d
  {
    hide Numbered, IsNew, NewOnes;
    var n, known := |docs| - 1, s.table.Keys;
    RowsSoFar(s, docs, p, hash);
    NewOnesGrow(known, docs, i, n, hash);
    if hash(docs[n].key) in s.table {
      TargetKnown(s, docs[..n], p, hash, hash(docs[n].key));
    } else {
      var m := TargetRow(s, docs, p, hash);
      if i < m { NewOnesGrow(known, docs, i, m, hash); } else { NewOnesGrow(known, docs, m, i, hash); }
    }
  }

  lemma OtherNext<C>(s: State<C>, docs: seq<Doc<C>>, p: State<C>, hash: Key -> int, merge: (C, C) -> C, d: nat)
    requires Ok(s) && docs != [] && Ok(p) && Numbered(s, docs[..|docs| - 1], p, hash)
    requires d < |s.docs| && forall h :: h in s.table ==> s.table[h] != d
    ensures d < |p.docs| && Ingest(p, docs[|docs| - 1], hash, merge).docs[d] == p.docs[d]
  {
    hide Ingest, Numbered;
    IngestAt(p, docs[|docs| - 1], hash, merge, d);
    RowsSoFar(s, docs, p, hash);
    if hash(docs[|docs| - 1].key) in s.table {
      TargetKnown(s, docs[..|docs| - 1], p, hash, hash(docs[|docs| - 1].key));
    } else {
      var m := TargetRow(s, docs, p, hash);
    }
  }

  /** The docid that the last document goes to is where its key's contents are. */
  lemma FillNext<C>(s: State<C>, docs: seq<Doc<C>>, p: State<C>, hash: Key -> int, merge: (C, C) -> C)
    requires Ok(s) && docs != [] && Ok(p)
    requires Numbered(s, docs[..|docs| - 1], p, hash) && Filled(s, docs[..|docs| - 1], p, hash, merge)
    ensures Filled(s, docs, Ingest(p, docs[|docs| - 1], hash, merge), hash, merge)
  {
    hide Numbered, Ingest, KnownAt, NewAt;
    var n, s' := |docs| - 1, Ingest(p, docs[|docs| - 1], hash, merge);
    SameFirsts(s.table.Keys, docs, n, hash);
    forall h | h in s.table ensures KnownAt(s, docs, s', hash, merge, h) {
      KnownNext(s, docs, p, hash, merge, h);
    }
    forall i | 0 <= i < |docs| && IsNew(s.table.Keys, docs, i, hash) ensures NewAt(s, docs, s', hash, merge, i) {
      if i < n { assert IsNew(s.table.Keys, docs[..n], i, hash); }
      NewNext(s, docs, p, hash, merge, i);
    }
    forall d | 0 <= d < |s.docs| && d < |s'.docs| && (forall h :: h in s.table ==> s.table[h] != d)
      ensures s'.docs[d] == s.docs[d]
    {
      OtherNext(s, docs, p, hash, merge, d);
    }
  }
}
