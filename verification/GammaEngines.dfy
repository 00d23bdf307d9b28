/** The engine's table, stored documents and notices, changed in place (gamma_engine.cc). */
module GammaEngines {
  import opened BatchIngest
  import opened BatchFold

  function ContentsOf<C>(docs: seq<Doc<C>>): seq<C> {
    seq(|docs|, i requires 0 <= i < |docs| => docs[i].content)
  }

  function Docids(first: nat, n: nat): seq<nat> {
    seq(n, i => first + i)
  }

  class GammaEngine<C> {
    const hash: Key -> int
    const merge: (C, C) -> C
    var itemToDocid: map<int, nat>
    var store: seq<C>
    var maxDocid: nat
    var migrated: seq<nat>       // docids handed to `MigrateData::AddDocid`
    var docidsBitmap: set<nat>

    function Model(): State<C>
      reads this
    {
      State(itemToDocid, store, migrated, docidsBitmap)
    }

    ghost predicate Valid()
      reads this
    {
      Ok(Model()) && maxDocid == |store|
    }

    constructor (hash: Key -> int, merge: (C, C) -> C)
      ensures Valid() && Model() == State(map[], [], [], {}) && this.hash == hash && this.merge == merge
    {
      this.hash, this.merge := hash, merge;
      itemToDocid, store, maxDocid, migrated, docidsBitmap := map[], [], 0, [], {};
    }

    method GetDocIDByKey(key: Key) returns (docid: int)
      ensures docid == if hash(key) in itemToDocid then itemToDocid[hash(key)] else -1
    {
      docid := if hash(key) in itemToDocid then itemToDocid[hash(key)] else -1;
    }

    /** Table, vectors and the notice of one new document, without counting it yet. */
    method Store(key: Key, content: C)
      modifies `itemToDocid, `store, `migrated
      ensures Model() == Stored(old(Model()), hash(key), content)
    {
      var docid := |store|;
      if hash(key) !in itemToDocid {
        itemToDocid := itemToDocid[hash(key) := docid];
      }
      store := store + [content];
      migrated := migrated + [docid];
    }

    method Update(docid: nat, content: C)
      requires docid < |store|
      modifies `store, `migrated
      ensures Model() == Updated(old(Model()), docid, content, merge)
    {
      store := store[docid := merge(store[docid], content)];
      migrated := migrated + [docid];
    }

    /** A known key's document takes the new content in and is reported; a new key's is the next document. */
    method AddOrUpdate(doc: Doc<C>)
      requires Valid()
      modifies this
      ensures Valid() && Model() == Ingest(old(Model()), doc, hash, merge)
      ensures docidsBitmap == old(docidsBitmap)
      ensures hash(doc.key) in old(itemToDocid) ==>
                var d := old(itemToDocid)[hash(doc.key)];
                && d < |old(store)| && store == old(store)[d := merge(old(store)[d], doc.content)]
                && itemToDocid == old(itemToDocid) && migrated == old(migrated) + [d] && maxDocid == old(maxDocid)
      ensures hash(doc.key) !in old(itemToDocid) ==>
                && store == old(store) + [doc.content] && maxDocid == old(maxDocid) + 1
                && itemToDocid == old(itemToDocid)[hash(doc.key) := |old(store)|]
                && migrated == old(migrated) + [|old(store)|]
    {
      var docid := GetDocIDByKey(doc.key);
      if docid == -1 {
        Store(doc.key, doc.content);
        maxDocid := maxDocid + 1;
      } else {
        KeyLeads(Model(), hash(doc.key));
        Update(docid, doc.content);
      }
      IngestOk(old(Model()), doc, hash, merge);
    }

    /** 0 when a document was deleted, 1 when the key is unknown, 2 when its document was deleted by query. */
    method Delete(key: Key) returns (ret: int)
      requires Valid()
      modifies this
      ensures Valid() && (old(Live(Model())) ==> Live(Model()))
      ensures ret == if hash(key) !in old(itemToDocid)
              then 1 else if old(itemToDocid)[hash(key)] in old(docidsBitmap) then 2 else 0
      ensures ret == 0 ==>
              itemToDocid == old(itemToDocid) - {hash(key)} &&
              docidsBitmap == old(docidsBitmap) + {old(itemToDocid)[hash(key)]}
      ensures store == old(store) && (ret != 0 ==> Model() == old(Model()))
    {
      var docid := GetDocIDByKey(key);
      if docid == -1 {
        return 1;
      }
      if docid in docidsBitmap {
        return 2;
      }
      if Live(Model()) { DeleteLive(Model(), hash(key)); }
      docidsBitmap := docidsBitmap + {docid};
      itemToDocid := itemToDocid - {hash(key)};
      return 0;
    }

    /** The closure that adds what was held back. */
    method BatchAdd(startId: nat, batchSize: nat, docs: seq<Doc<C>>)
      requires Valid() && startId + batchSize <= |docs|
      modifies this
      ensures Valid() && Model() == AddRange(old(Model()), docs, startId, startId + batchSize, hash)
      ensures store == old(store) + ContentsOf(docs[startId..startId + batchSize])
      ensures migrated == old(migrated) + Docids(|old(store)|, batchSize)
    {
      for i := startId to startId + batchSize
        invariant Model() == AddRange(old(Model()), docs, startId, i, hash) && maxDocid == |old(store)|
      {
        Store(docs[i].key, docs[i].content);
      }
      RangeAdded(old(Model()), docs, startId, startId + batchSize, hash);
      maxDocid := maxDocid + batchSize;
    }

    /** The branch for a known or repeated key. */
    method FlushAndUpdate(startId: nat, batchSize: nat, docs: seq<Doc<C>>, doc: Doc<C>)
      requires Valid() && startId + batchSize <= |docs|
      requires hash(doc.key) in AddRange(Model(), docs, startId, startId + batchSize, hash).table
      modifies this
      ensures Valid()
      ensures var added := AddRange(old(Model()), docs, startId, startId + batchSize, hash);
              Model() == UpdateKey(added, hash(doc.key), doc.content, merge)
      ensures hash(doc.key) in itemToDocid && docidsBitmap == old(docidsBitmap) - {itemToDocid[hash(doc.key)]}
      ensures var d := itemToDocid[hash(doc.key)];
              var stored := old(store) + ContentsOf(docs[startId..startId + batchSize]);
              d < |stored| && store == stored[d := merge(stored[d], doc.content)] &&
              migrated == old(migrated) + Docids(|old(store)|, batchSize) + [d]
    {
      BatchAdd(startId, batchSize, docs);
      var docid := GetDocIDByKey(doc.key);
      KeyLeads(Model(), hash(doc.key));
      Update(docid, doc.content);
      if docid in docidsBitmap {
        docidsBitmap := docidsBitmap - {docid};
      }
    }

    /** The loop over the documents, and the last flush. */
    method IngestDocs(docs: seq<Doc<C>>)
      requires Valid()
      modifies this
      ensures Valid() && Model() == Batch(old(Model()), docs, hash, merge)
    {
      ghost var s := Model();
      ghost var known := itemToDocid.Keys;
      var removeDuplicate: set<Key> := {};
      var batchSize, startId := 0, 0;
      assert Held(s, docs, 0, hash, merge) == s && Start(known, docs, 0, hash) == 0;
      hide Held, Start, Flushes, Ok, ContentsOf, Docids, UpdateKey;
      for i := 0 to |docs|
        invariant Ok(Model()) && maxDocid == |store| && Model() == Held(s, docs, i, hash, merge)
        invariant startId == Start(known, docs, i, hash) && startId + batchSize == i
        invariant forall j :: 0 <= j < i ==> docs[j].key in removeDuplicate
        invariant forall key :: key in removeDuplicate ==> exists j :: 0 <= j < i && docs[j].key == key
      {
        HeldStep(s, docs, i, hash, merge);
        var key := docs[i].key;
        var seen := key in removeDuplicate;
        assert seen <==> Repeated(docs, i);
        removeDuplicate := removeDuplicate + {key};
        var docid := GetDocIDByKey(key);
        if docid == -1 && !seen {
          batchSize := batchSize + 1;
        } else {
          FlushAndUpdate(startId, batchSize, docs, docs[i]);
          batchSize, startId := 0, i + 1;
        }
      }
      BatchAdd(startId, batchSize, docs);
    }

    /**
      The documents one by one, exactly when no two keys clash.  Then every key has the docid, and every
      document the content, that `Folded` says, and each document of the batch is reported once.
     */
    method AddOrUpdateDocs(docs: seq<Doc<C>>)
      requires Valid()
      modifies this
      ensures Valid() && Model() == Batch(old(Model()), docs, hash, merge)
      ensures Same(Model(), IngestAll(old(Model()), docs, hash, merge)) <==>
              !AnyClash(old(itemToDocid).Keys, docs, |docs|, hash)
      ensures old(Live(Model())) ==> Live(Model()) && docidsBitmap == old(docidsBitmap)
      ensures !AnyClash(old(itemToDocid).Keys, docs, |docs|, hash) ==>
                Folded(old(Model()), docs, Model(), hash, merge) == true
    {
      BatchIsFold(Model(), docs, hash, merge);
      IngestFolds(Model(), docs, hash, merge);
      hide Folded, Batch, IngestAll;
      if Live(Model()) { HeldLive(Model(), docs, |docs|, hash, merge); }
      IngestDocs(docs);
      if !AnyClash(old(itemToDocid).Keys, docs, |docs|, hash) {
        SameFolded(old(Model()), docs, IngestAll(old(Model()), docs, hash, merge), Model(), hash, merge);
      }
    }
  }

  lemma SameFolded<C>(s: State<C>, docs: seq<Doc<C>>, a: State<C>, b: State<C>, hash: Key -> int, merge: (C, C) -> C)
    requires Folded(s, docs, a, hash, merge) && Same(a, b)
    ensures Folded(s, docs, b, hash, merge)
  {
  }

  lemma {:induction false} RangeAdded<C>(s: State<C>, docs: seq<Doc<C>>, a: nat, b: nat, hash: Key -> int)
    requires a <= b <= |docs|
    ensures AddRange(s, docs, a, b, hash).docs == s.docs + ContentsOf(docs[a..b])
    ensures AddRange(s, docs, a, b, hash).notices == s.notices + Docids(|s.docs|, b - a)
  {
    if a < b {
      RangeAdded(s, docs, a, b - 1, hash);
      assert docs[a..b] == docs[a..b - 1] + [docs[b - 1]];
    }
  }
}
