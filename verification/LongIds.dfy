/** The number by which the table knows a LONG id, and what two ids with one number do to a batch. */
module LongIds {
  import opened BatchIngest

  /** `n` bytes as a word, the lowest first. */
  function Word(key: Key, n: nat): nat
    requires n <= |key|
  {
    if n == 0 then 0 else (key[0] as int) + 256 * Word(key[1..], n - 1)
  }

  /** The number of a LONG id: its first eight bytes.  The sign of the word matters to no comparison. */
  function LongNumber(key: Key): nat
    requires |key| >= 8
  {
    Word(key, 8)
  }

  predicate IsBytes(key: Key) {
    forall i :: 0 <= i < |key| ==> key[i] < 256 as char
  }

  lemma {:induction false} SameWord(a: Key, b: Key, n: nat)
    requires n <= |a| && n <= |b| && IsBytes(a) && IsBytes(b)
    ensures Word(a, n) == Word(b, n) <==> a[..n] == b[..n]
    decreases n
  {
    if n > 0 {
      SameWord(a[1..], b[1..], n - 1);
      assert a[..n] == [a[0]] + a[1..][..n - 1] && b[..n] == [b[0]] + b[1..][..n - 1];
      if a[..n] == b[..n] {
        assert a[0] == a[..n][0] == b[0];
        assert a[1..][..n - 1] == a[..n][1..] == b[1..][..n - 1];
      }
    }
  }

  /** LONG ids have one number exactly when they agree in their first eight bytes. */
  lemma SameNumberIff(a: Key, b: Key)
    requires |a| >= 8 && |b| >= 8 && IsBytes(a) && IsBytes(b)
    ensures LongNumber(a) == LongNumber(b) <==> a[..8] == b[..8]
  {
    SameWord(a, b, 8);
  }

  function FirstKey(): Key { "document1" }

  function SecondKey(): Key { "document2" }

  lemma KeysClash()
    ensures |FirstKey()| == |SecondKey()| == 9 && FirstKey() != SecondKey()
    ensures LongNumber(FirstKey()) == LongNumber(SecondKey())
  {
    assert FirstKey()[8] != SecondKey()[8];
    assert FirstKey()[..8] == SecondKey()[..8];
    SameNumberIff(FirstKey(), SecondKey());
  }

  /** Two new LONG ids alike in eight bytes: the batch stores both, one by one the second updates the first. */
  lemma AClash<C>(x: C, y: C, hash: Key -> int, merge: (C, C) -> C)
    requires forall key: Key :: |key| >= 8 ==> hash(key) == LongNumber(key)
    ensures var s, docs := State(map[], [], [], {}), [Doc(FirstKey(), x), Doc(SecondKey(), y)];
            && Batch(s, docs, hash, merge).docs == [x, y]
            && IngestAll(s, docs, hash, merge).docs == [merge(x, y)]
  {
    hide FirstKey, SecondKey, LongNumber;
    KeysClash();
    EqualNumbersClash(FirstKey(), SecondKey(), x, y, hash, merge);
  }

  /** So do any two new keys that have one number. */
  lemma EqualNumbersClash<C>(a: Key, b: Key, x: C, y: C, hash: Key -> int, merge: (C, C) -> C)
    requires a != b && hash(a) == hash(b)
    ensures var s, docs := State(map[], [], [], {}), [Doc(a, x), Doc(b, y)];
            && Batch(s, docs, hash, merge).docs == [x, y]
            && IngestAll(s, docs, hash, merge).docs == [merge(x, y)]
  {
    var s, docs := State(map[], [], [], {}), [Doc(a, x), Doc(b, y)];
    assert !Flushes(s.table.Keys, docs, 0, hash) && Start(s.table.Keys, docs, 1, hash) == 0;
    assert !Repeated(docs, 1) && !Flushes(s.table.Keys, docs, 1, hash) && Start(s.table.Keys, docs, 2, hash) == 0;
    HeldStep(s, docs, 0, hash, merge);
    HeldStep(s, docs, 1, hash, merge);
    assert AddRange(s, docs, 0, 1, hash).docs == [x] && AddRange(s, docs, 0, 2, hash).docs == [x, y];
    assert docs[..1] == [docs[0]] && docs[..1][..0] == [];
    assert IngestAll(s, docs[..1], hash, merge) == Ingest(s, docs[0], hash, merge);
  }
}
