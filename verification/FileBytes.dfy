/** Files as byte sequences and the one way they change: `pwrite` at an offset. */
module FileBytes {

  type Byte = b: int | 0 <= b < 256
  type Bytes = seq<Byte>

  function Zeros(n: nat): (r: Bytes)
    ensures |r| == n
  {
    seq(n, _ => 0)
  }

  /** `pwrite`: past the end the gap is filled with zeros; writing nothing changes nothing. */
  function PWrite(bytes: Bytes, start: nat, data: Bytes): (r: Bytes)
    ensures |r| == if data == [] || start + |data| <= |bytes| then |bytes| else start + |data|
  {
    if data == [] then bytes
    else
      var b := if start > |bytes| then bytes + Zeros(start - |bytes|) else bytes;
      b[..start] + data + (if start + |data| <= |b| then b[start + |data|..] else [])
  }

  lemma PWriteAt(bytes: Bytes, start: nat, data: Bytes, k: nat)
    requires k < |PWrite(bytes, start, data)|
    ensures PWrite(bytes, start, data)[k] ==
            if start <= k < start + |data| then data[k - start] else if k < |bytes| then bytes[k] else 0
  {
  }

  /** Two writes, the second where the first ended, are one write. */
  lemma PWriteJoins(bytes: Bytes, start: nat, a: Bytes, b: Bytes)
    ensures PWrite(PWrite(bytes, start, a), start + |a|, b) == PWrite(bytes, start, a + b)
  {
    var one := PWrite(bytes, start, a);
    var two, joined := PWrite(one, start + |a|, b), PWrite(bytes, start, a + b);
    assert |two| == |joined|;
    forall k | 0 <= k < |two| ensures two[k] == joined[k] {
      PWriteAt(one, start + |a|, b, k);
      PWriteAt(bytes, start, a + b, k);
      if k < |one| {
        PWriteAt(bytes, start, a, k);
      }
    }
  }

  /** Two writes can be made as one, whatever the file holds, exactly when the second starts where the first ended. */
  lemma JoinableIffContiguous(start: nat, a: Bytes, start': nat, b: Bytes)
    requires b != []
    ensures (forall bytes: Bytes :: PWrite(PWrite(bytes, start, a), start', b) == PWrite(bytes, start, a + b)) <==>
            start' == start + |a|
  {
    hide PWrite;
    if start' == start + |a| {
      forall bytes: Bytes ensures PWrite(PWrite(bytes, start, a), start', b) == PWrite(bytes, start, a + b) {
        PWriteJoins(bytes, start, a, b);
      }
    } else {
      var end := start + |a|;
      var p := (if start' > end then start' else end) + |b| - 1;
      var other: Byte := if b[|b| - 1] == 0 then 1 else 0;
      var bytes: Bytes := seq(p + 1, _ => other);
      PWriteAt(bytes, start, a, p);
      PWriteAt(PWrite(bytes, start, a), start', b, p);
      PWriteAt(bytes, start, a + b, p);
      assert PWrite(PWrite(bytes, start, a), start', b)[p] != PWrite(bytes, start, a + b)[p];
    }
  }

  lemma PWriteTwice(bytes: Bytes, start: nat, data: Bytes)
    ensures PWrite(PWrite(bytes, start, data), start, data) == PWrite(bytes, start, data)
  {
    var one := PWrite(bytes, start, data);
    forall k | 0 <= k < |one| ensures PWrite(one, start, data)[k] == one[k] {
      PWriteAt(one, start, data, k);
      PWriteAt(bytes, start, data, k);
    }
  }

  // ----- What a file holds at an offset -----

  predicate Holds(file: Bytes, at: nat, text: Bytes) {
    at + |text| <= |file| && forall k :: 0 <= k < |text| ==> text[k] == file[at + k]
  }

  /** A write that stays clear of a text leaves it alone. */
  lemma HoldsOutside(file: Bytes, at: nat, data: Bytes, i: nat, text: Bytes)
    requires Holds(file, i, text) && (i + |text| <= at || at + |data| <= i)
    ensures Holds(PWrite(file, at, data), i, text)
  {
    forall k | 0 <= k < |text| ensures text[k] == PWrite(file, at, data)[i + k] {
      PWriteAt(file, at, data, i + k);
    }
  }

  lemma HoldsWritten(file: Bytes, at: nat, data: Bytes)
    requires at <= |file|
    ensures Holds(PWrite(file, at, data), at, data)
  {
    forall k | 0 <= k < |data| ensures data[k] == PWrite(file, at, data)[at + k] {
      PWriteAt(file, at, data, at + k);
    }
  }

  /** Patching a copy of a range is copying the patched range. */
  lemma HoldsPatched(file: Bytes, at: nat, data: Bytes, i: nat, copy: Bytes)
    requires Holds(file, i, copy) && i <= at && at + |data| <= i + |copy|
    ensures |PWrite(copy, at - i, data)| == |copy|
    ensures Holds(PWrite(file, at, data), i, PWrite(copy, at - i, data))
  {
    var patched := PWrite(copy, at - i, data);
    forall k | 0 <= k < |copy| ensures patched[k] == PWrite(file, at, data)[i + k] {
      PWriteAt(file, at, data, i + k);
      PWriteAt(copy, at - i, data, k);
    }
  }

  lemma HoldsSlice(file: Bytes, at: nat, n: nat)
    requires at + n <= |file|
    ensures Holds(file, at, file[at..at + n])
  {
  }

  /** A text inside a copied range is in the copy. */
  lemma HoldsInCopy(file: Bytes, i: nat, copy: Bytes, pos: nat, text: Bytes)
    requires Holds(file, i, copy) && Holds(file, i + pos, text) && pos + |text| <= |copy|
    ensures copy[pos..pos + |text|] == text
  {
  }

  lemma HoldsExtended(file: Bytes, more: Bytes, at: nat, text: Bytes)
    requires Holds(file, at, text)
    ensures Holds(file + more, at, text)
  {
  }
}
