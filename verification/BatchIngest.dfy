/**
  Adding documents in batches (gamma_engine.cc): `AddOrUpdateDocs` holds new documents back and
  adds them together, and is meant to do what `AddOrUpdate` does for each in turn.  The table
  knows a key only by a 64-bit number; documents are abstract and an update merges into them.
 */
module BatchIngest {

  type Key = string

  datatype Doc<C> = Doc(key: Key, content: C)

  /** `docs` is indexed by docid; `notices` are the docids reported to a migration. */
  datatype State<C> = State(table: map<int, nat>, docs: seq<C>, notices: seq<nat>, deleted: set<nat>)

  /** Different keys have different docids. */
  predicate Injective(table: map<int, nat>) {
    forall h, g :: h in table && g in table && h != g ==> table[h] != table[g]
  }

  /** A key in the table leads to a stored document of its own. */
  predicate Ok<C>(s: State<C>) {
    (forall h :: h in s.table ==> s.table[h] < |s.docs|) && Injective(s.table)
  }

  /** ... an undeleted one: so it stays as long as documents are deleted by key. */
  predicate Live<C>(s: State<C>) {
    && (forall h :: h in s.table ==> s.table[h] < |s.docs| && s.table[h] !in s.deleted)
    && Injective(s.table)
    && (forall d :: d in s.deleted ==> d < |s.docs|)
  }

  // ----- One document at a time -----

  function Stored<C>(s: State<C>, h: int, content: C): State<C> {
    s.(table := if h in s.table then s.table else s.table[h := |s.docs|],
       docs := s.docs + [content],
       notices := s.notices + [|s.docs|])
  }

  function Updated<C>(s: State<C>, d: nat, content: C, merge: (C, C) -> C): State<C>
    requires d < |s.docs|
  {
    s.(docs := s.docs[d := merge(s.docs[d], content)], notices := s.notices + [d])
  }

  /** An update inside a batch also clears the bitmap bit; `AddOrUpdate` does not. */
  function Revived<C>(s: State<C>, d: nat, content: C, merge: (C, C) -> C): State<C>
    requires d < |s.docs|
  {
    var s' := Updated(s, d, content, merge);
    s'.(deleted := s'.deleted - {d})
  }

  /** Everything but the bitmap. */
  ghost predicate Same<C>(a: State<C>, b: State<C>) {
    a.table == b.table && a.docs == b.docs && a.notices == b.notices
  }

  /** `AddOrUpdate`. */
  function Ingest<C>(s: State<C>, doc: Doc<C>, hash: Key -> int, merge: (C, C) -> C): State<C>
    requires Ok(s)
  {
    var h := hash(doc.key);
    if h in s.table then Updated(s, s.table[h], doc.content, merge) else Stored(s, h, doc.content)
  }

  lemma KeyLeads<C>(s: State<C>, h: int)
    requires Ok(s) && h in s.table
    ensures s.table[h] < |s.docs|
  {
  }

  lemma IngestOk<C>(s: State<C>, doc: Doc<C>, hash: Key -> int, merge: (C, C) -> C)
    requires Ok(s)
    ensures Ok(Ingest(s, doc, hash, merge)) && |Ingest(s, doc, hash, merge).docs| >= |s.docs|
  {
  }

  function IngestAll<C>(s: State<C>, docs: seq<Doc<C>>, hash: Key -> int, merge: (C, C) -> C): (r: State<C>)
    requires Ok(s)
    ensures Ok(r)
  {
    if docs == [] then s
    else
      var before := IngestAll(s, docs[..|docs| - 1], hash, merge);
      IngestOk(before, docs[|docs| - 1], hash, merge);
      Ingest(before, docs[|docs| - 1], hash, merge)
  }

  // ----- What a batch holds back -----

  predicate Repeated<C>(docs: seq<Doc<C>>, i: nat)
    requires i < |docs|
  {
    exists j :: 0 <= j < i && docs[j].key == docs[i].key
  }

  function Hashes<C>(docs: seq<Doc<C>>, n: nat, hash: Key -> int): set<int>
    requires n <= |docs|
  {
    set j | 0 <= j < n :: hash(docs[j].key)
  }

  /** The document is found in the table, or its key came up before: the batch so far is added first. */
  predicate Flushes<C>(known: set<int>, docs: seq<Doc<C>>, i: nat, hash: Key -> int)
    requires i < |docs|
    decreases i, 1
  {
    hash(docs[i].key) in known + Hashes(docs, Start(known, docs, i, hash), hash) || Repeated(docs, i)
  }

  /** Where the batch held back after the first `i` documents starts. */
  function Start<C>(known: set<int>, docs: seq<Doc<C>>, i: nat, hash: Key -> int): (r: nat)
    requires i <= |docs|
    ensures r <= i
    decreases i, 0
  {
    if i == 0 then 0 else if Flushes(known, docs, i - 1, hash) then i else Start(known, docs, i - 1, hash)
  }

  /** Two different keys with one number are held back together. */
  predicate Clash<C>(known: set<int>, docs: seq<Doc<C>>, i: nat, hash: Key -> int)
    requires i < |docs|
  {
    !Flushes(known, docs, i, hash) &&
    exists j :: Start(known, docs, i, hash) <= j < i && hash(docs[j].key) == hash(docs[i].key)
  }

  predicate AnyClash<C>(known: set<int>, docs: seq<Doc<C>>, n: nat, hash: Key -> int)
    requires n <= |docs|
  {
    exists i :: 0 <= i < n && Clash(known, docs, i, hash)
  }

  /** When keys have different numbers nothing clashes. */
  lemma NoClash<C>(known: set<int>, docs: seq<Doc<C>>, hash: Key -> int)
    requires forall i, j :: 0 <= i < j < |docs| && hash(docs[i].key) == hash(docs[j].key) ==> docs[i].key == docs[j].key
    ensures !AnyClash(known, docs, |docs|, hash)
  {
    forall i | 0 <= i < |docs| ensures !Clash(known, docs, i, hash) {
      assert forall j :: 0 <= j < i && hash(docs[j].key) == hash(docs[i].key) ==> Repeated(docs, i);
    }
  }

  // ----- Flushing -----

  /** `batchAdd` on the documents from `a` to `b`. */
  function AddRange<C>(s: State<C>, docs: seq<Doc<C>>, a: nat, b: nat, hash: Key -> int): (r: State<C>)
    requires a <= b <= |docs|
    ensures |r.docs| == |s.docs| + (b - a) && r.deleted == s.deleted
    ensures Ok(s) ==> Ok(r)
    ensures Live(s) ==> Live(r)
  {
    if a == b then s else Stored(AddRange(s, docs, a, b - 1, hash), hash(docs[b - 1].key), docs[b - 1].content)
  }

  lemma {:induction false} AddRangeTable<C>(s: State<C>, docs: seq<Doc<C>>, a: nat, b: nat, hash: Key -> int)
    requires a <= b <= |docs|
    ensures AddRange(s, docs, a, b, hash).table.Keys == s.table.Keys + (set j | a <= j < b :: hash(docs[j].key))
    decreases b
  {
    if a < b {
      AddRangeTable(s, docs, a, b - 1, hash);
    }
  }

  /** The update that follows a flush. */
  function UpdateKey<C>(s: State<C>, h: int, content: C, merge: (C, C) -> C): (r: State<C>)
    requires Ok(s)
    ensures Ok(r) && r.table == s.table && |r.docs| == |s.docs| && r.deleted <= s.deleted
  {
    if h in s.table then Revived(s, s.table[h], content, merge) else s
  }

  /** The engine after the first `i` documents of a batch, those held back not counted. */
  function Held<C>(s: State<C>, docs: seq<Doc<C>>, i: nat, hash: Key -> int, merge: (C, C) -> C): (r: State<C>)
    requires Ok(s) && i <= |docs|
    ensures Ok(r) && r.deleted <= s.deleted
  {
    if i == 0 then s
    else
      var before := Held(s, docs, i - 1, hash, merge);
      if !Flushes(s.table.Keys, docs, i - 1, hash) then before
      else
        var added := AddRange(before, docs, Start(s.table.Keys, docs, i - 1, hash), i - 1, hash);
        UpdateKey(added, hash(docs[i - 1].key), docs[i - 1].content, merge)
  }

  lemma HeldStep<C>(s: State<C>, docs: seq<Doc<C>>, i: nat, hash: Key -> int, merge: (C, C) -> C)
    requires Ok(s) && i < |docs|
    ensures var known, held := s.table.Keys, Held(s, docs, i, hash, merge);
            var st := Start(known, docs, i, hash);
            && (Flushes(known, docs, i, hash) <==> hash(docs[i].key) in held.table || Repeated(docs, i))
            && if Flushes(known, docs, i, hash)
               then Start(known, docs, i + 1, hash) == i + 1 &&
                   hash(docs[i].key) in AddRange(held, docs, st, i, hash).table
                    && Held(s, docs, i + 1, hash, merge) ==
                       UpdateKey(AddRange(held, docs, st, i, hash), hash(docs[i].key), docs[i].content, merge)
               else Start(known, docs, i + 1, hash) == st && Held(s, docs, i + 1, hash, merge) == held
  {
    var known, st := s.table.Keys, Start(s.table.Keys, docs, i, hash);
    HeldKeys(s, docs, i, hash, merge);
    FlushedKeys(Held(s, docs, i, hash, merge), known, docs, st, i, hash);
    if Repeated(docs, i) { RepeatedHash(docs, i, hash); }
    HashesGrow(docs, st, i, hash);
  }

  /** `AddOrUpdateDocs`. */
  function Batch<C>(s: State<C>, docs: seq<Doc<C>>, hash: Key -> int, merge: (C, C) -> C): (r: State<C>)
    requires Ok(s)
    ensures Ok(r)
  {
    AddRange(Held(s, docs, |docs|, hash, merge), docs, Start(s.table.Keys, docs, |docs|, hash), |docs|, hash)
  }

  lemma HashesNext<C>(docs: seq<Doc<C>>, n: nat, hash: Key -> int)
    requires n < |docs|
    ensures Hashes(docs, n + 1, hash) == Hashes(docs, n, hash) + {hash(docs[n].key)}
  {
  }

  lemma RepeatedHash<C>(docs: seq<Doc<C>>, i: nat, hash: Key -> int)
    requires i < |docs| && Repeated(docs, i)
    ensures hash(docs[i].key) in Hashes(docs, i, hash)
  {
    var j :| 0 <= j < i && docs[j].key == docs[i].key;
    assert hash(docs[j].key) in Hashes(docs, i, hash);
  }

  /** The table after flushing what is held back knows the first `i` keys. */
  lemma FlushedKeys<C>(b: State<C>, known: set<int>, docs: seq<Doc<C>>, a: nat, i: nat, hash: Key -> int)
    requires a <= i <= |docs| && b.table.Keys == known + Hashes(docs, a, hash)
    ensures AddRange(b, docs, a, i, hash).table.Keys == known + Hashes(docs, i, hash)
  {
    AddRangeTable(b, docs, a, i, hash);
    assert Hashes(docs, i, hash) == Hashes(docs, a, hash) + (set j | a <= j < i :: hash(docs[j].key));
  }

  lemma HashesGrow<C>(docs: seq<Doc<C>>, a: nat, b: nat, hash: Key -> int)
    requires a <= b <= |docs|
    ensures Hashes(docs, a, hash) <= Hashes(docs, b, hash)
  {
  }

  lemma {:induction false} HeldKeys<C>(s: State<C>, docs: seq<Doc<C>>, i: nat, hash: Key -> int, merge: (C, C) -> C)
    requires Ok(s) && i <= |docs|
    ensures Held(s, docs, i, hash, merge).table.Keys ==
            s.table.Keys + Hashes(docs, Start(s.table.Keys, docs, i, hash), hash)
  {
    if i == 0 {
      assert Hashes(docs, 0, hash) == {};
    } else {
      hide Hashes, AddRange, Repeated;
      HeldKeys(s, docs, i - 1, hash, merge);
      var known, st := s.table.Keys, Start(s.table.Keys, docs, i - 1, hash);
      if Flushes(known, docs, i - 1, hash) {
        FlushedKeys(Held(s, docs, i - 1, hash, merge), known, docs, st, i - 1, hash);
        HashesNext(docs, i - 1, hash);
        HashesGrow(docs, st, i - 1, hash);
        if Repeated(docs, i - 1) { RepeatedHash(docs, i - 1, hash); }
      }
    }
  }

  lemma {:induction false} IngestKeys<C>(s: State<C>, docs: seq<Doc<C>>, i: nat, hash: Key -> int, merge: (C, C) -> C)
    requires Ok(s) && i <= |docs|
    ensures IngestAll(s, docs[..i], hash, merge).table.Keys == s.table.Keys + Hashes(docs, i, hash)
  {
    if i > 0 {
      IngestKeys(s, docs, i - 1, hash, merge);
      assert docs[..i][..i - 1] == docs[..i - 1];
      HashesNext(docs, i - 1, hash);
    }
  }

  /** Batch and one at a time stay in step until the first clash; from then on the batch has more documents. */
  ghost predicate InStep<C>(s: State<C>, docs: seq<Doc<C>>, i: nat, hash: Key -> int, merge: (C, C) -> C)
    requires Ok(s) && i <= |docs|
  {
    var known := s.table.Keys;
    var b, f := AddRange(Held(s, docs, i, hash, merge), docs, Start(known, docs, i, hash), i, hash),
        IngestAll(s, docs[..i], hash, merge);
    if AnyClash(known, docs, i, hash) then |b.docs| > |f.docs| else Same(b, f)
  }

  lemma NothingInStep<C>(s: State<C>, docs: seq<Doc<C>>, hash: Key -> int, merge: (C, C) -> C)
    requires Ok(s)
    ensures InStep(s, docs, 0, hash, merge)
  {
    assert docs[..0] == [];
  }

  lemma {:induction false} StaysInStep<C>(s: State<C>, docs: seq<Doc<C>>, i: nat, hash: Key -> int, merge: (C, C) -> C)
    requires Ok(s) && i <= |docs|
    ensures InStep(s, docs, i, hash, merge)
  {
    hide Held, AddRange, IngestAll, InStep, AnyClash, Hashes, Start, Flushes;
    if i == 0 {
      NothingInStep(s, docs, hash, merge);
    } else {
      StaysInStep(s, docs, i - 1, hash, merge);
      HeldKeys(s, docs, i - 1, hash, merge);
      IngestKeys(s, docs, i - 1, hash, merge);
      var known, st := s.table.Keys, Start(s.table.Keys, docs, i - 1, hash);
      FlushedKeys(Held(s, docs, i - 1, hash, merge), known, docs, st, i - 1, hash);
      AnyClashNext(known, docs, i - 1, hash);
      if Flushes(known, docs, i - 1, hash) {
        FlushInStep(s, docs, i - 1, hash, merge);
      } else {
        HoldInStep(s, docs, i - 1, hash, merge);
      }
    }
  }

  lemma AnyClashNext<C>(known: set<int>, docs: seq<Doc<C>>, i: nat, hash: Key -> int)
    requires i < |docs|
    ensures AnyClash(known, docs, i + 1, hash) <==> AnyClash(known, docs, i, hash) || Clash(known, docs, i, hash)
  {
  }

  lemma FlushInStep<C>(s: State<C>, docs: seq<Doc<C>>, i: nat, hash: Key -> int, merge: (C, C) -> C)
    requires Ok(s) && i < |docs| && InStep(s, docs, i, hash, merge) && Flushes(s.table.Keys, docs, i, hash)
    requires AnyClash(s.table.Keys, docs, i + 1, hash) <==>
             AnyClash(s.table.Keys, docs, i, hash) || Clash(s.table.Keys, docs, i, hash)
    requires AddRange(Held(s, docs, i, hash, merge), docs, Start(s.table.Keys, docs, i, hash), i, hash).table.Keys ==
             s.table.Keys + Hashes(docs, i, hash)
    requires IngestAll(s, docs[..i], hash, merge).table.Keys == s.table.Keys + Hashes(docs, i, hash)
    ensures InStep(s, docs, i + 1, hash, merge)
  {
    HashesGrow(docs, Start(s.table.Keys, docs, i, hash), i, hash);
    if Repeated(docs, i) { RepeatedHash(docs, i, hash); }
    var h := hash(docs[i].key);
    assert h in s.table.Keys + Hashes(docs, i, hash) && !Clash(s.table.Keys, docs, i, hash);
    var b, f := AddRange(Held(s, docs, i, hash, merge), docs, Start(s.table.Keys, docs, i, hash), i, hash),
        IngestAll(s, docs[..i], hash, merge);
    assert Start(s.table.Keys, docs, i + 1, hash) == i + 1;
    assert Held(s, docs, i + 1, hash, merge) == UpdateKey(b, h, docs[i].content, merge);
    IngestNext(s, docs, i, hash, merge);
    hide Held, IngestAll, Start, Flushes, AnyClash, Clash, Hashes;
  }

  lemma IngestNext<C>(s: State<C>, docs: seq<Doc<C>>, i: nat, hash: Key -> int, merge: (C, C) -> C)
    requires Ok(s) && i < |docs|
    ensures IngestAll(s, docs[..i + 1], hash, merge) ==
            Ingest(IngestAll(s, docs[..i], hash, merge), docs[i], hash, merge)
  {
    assert docs[..i + 1][..i] == docs[..i];
  }

  lemma HoldInStep<C>(s: State<C>, docs: seq<Doc<C>>, i: nat, hash: Key -> int, merge: (C, C) -> C)
    requires Ok(s) && i < |docs| && InStep(s, docs, i, hash, merge) && !Flushes(s.table.Keys, docs, i, hash)
    requires AnyClash(s.table.Keys, docs, i + 1, hash) <==>
             AnyClash(s.table.Keys, docs, i, hash) || Clash(s.table.Keys, docs, i, hash)
    requires IngestAll(s, docs[..i], hash, merge).table.Keys == s.table.Keys + Hashes(docs, i, hash)
    ensures InStep(s, docs, i + 1, hash, merge)
  {
    var known, h := s.table.Keys, hash(docs[i].key);
    assert h in known + Hashes(docs, i, hash) <==> Clash(known, docs, i, hash);
    IngestNext(s, docs, i, hash, merge);
    assert Start(known, docs, i + 1, hash) == Start(known, docs, i, hash) &&
           Held(s, docs, i + 1, hash, merge) == Held(s, docs, i, hash, merge);
    hide Held, IngestAll, Start, Flushes, AnyClash, Clash, Hashes;
  }

  lemma {:induction false} HeldLive<C>(s: State<C>, docs: seq<Doc<C>>, i: nat, hash: Key -> int, merge: (C, C) -> C)
    requires Ok(s) && Live(s) && i <= |docs|
    ensures Live(Held(s, docs, i, hash, merge)) && Held(s, docs, i, hash, merge).deleted == s.deleted
  {
    if i > 0 {
      HeldLive(s, docs, i - 1, hash, merge);
    }
  }

  lemma {:induction false} IngestLive<C>(s: State<C>, docs: seq<Doc<C>>, hash: Key -> int, merge: (C, C) -> C)
    requires Ok(s)
    ensures IngestAll(s, docs, hash, merge).deleted == s.deleted
    ensures Live(s) ==> Live(IngestAll(s, docs, hash, merge))
  {
    if docs != [] {
      IngestLive(s, docs[..|docs| - 1], hash, merge);
    }
  }

  /** The batch does what adding the documents one by one does, exactly when no two keys clash. */
  lemma BatchIsFold<C>(s: State<C>, docs: seq<Doc<C>>, hash: Key -> int, merge: (C, C) -> C)
    requires Ok(s)
    ensures Same(Batch(s, docs, hash, merge), IngestAll(s, docs, hash, merge)) <==>
            !AnyClash(s.table.Keys, docs, |docs|, hash)
    ensures Live(s) ==>
              && Live(Batch(s, docs, hash, merge))
              && (Batch(s, docs, hash, merge) == IngestAll(s, docs, hash, merge) <==>
                 !AnyClash(s.table.Keys, docs, |docs|, hash))
  {
    StaysInStep(s, docs, |docs|, hash, merge);
    assert docs[..|docs|] == docs;
    if Live(s) {
      HeldLive(s, docs, |docs|, hash, merge);
      IngestLive(s, docs, hash, merge);
    }
  }

  /** Deleting by key keeps the table free of deleted documents. */
  lemma DeleteLive<C>(s: State<C>, h: int)
    requires Live(s) && h in s.table
    ensures Live(s.(table := s.table - {h}, deleted := s.deleted + {s.table[h]}))
  {
    var s' := s.(table := s.table - {h}, deleted := s.deleted + {s.table[h]});
    assert forall g :: g in s'.table ==> g in s.table && s'.table[g] == s.table[g] && g != h;
  }
}
