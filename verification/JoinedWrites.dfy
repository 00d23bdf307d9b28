/** When a run of positioned writes may be made as one. */
module JoinedWrites {
  import opened FileBytes

  function Concat(datas: seq<Bytes>): Bytes {
    if datas == [] then [] else Concat(datas[..|datas| - 1]) + datas[|datas| - 1]
  }

  /** The writes one after the other. */
  function WriteEach(bytes: Bytes, starts: seq<nat>, datas: seq<Bytes>): Bytes
    requires |starts| == |datas|
  {
    if datas == [] then bytes
    else
      var n := |datas| - 1;
      PWrite(WriteEach(bytes, starts[..n], datas[..n]), starts[n], datas[n])
  }

  function Total(lens: seq<nat>): nat {
    if lens == [] then 0 else Total(lens[..|lens| - 1]) + lens[|lens| - 1]
  }

  predicate Sized(datas: seq<Bytes>, lens: seq<nat>) {
    |datas| == |lens| && forall i :: 0 <= i < |lens| ==> |datas[i]| == lens[i]
  }

  /** Each write starts where the one before it ended. */
  predicate Contiguous(starts: seq<nat>, lens: seq<nat>) {
    |starts| == |lens| && forall i :: 0 <= i < |starts| ==> starts[i] == starts[0] + Total(lens[..i])
  }

  /** One write of all the data, where the first one starts, does what the writes one by one do. */
  ghost predicate Joinable(starts: seq<nat>, lens: seq<nat>)
    requires |starts| == |lens| > 0
  {
    forall bytes, datas :: Sized(datas, lens) ==>
      WriteEach(bytes, starts, datas) == PWrite(bytes, starts[0], Concat(datas))
  }

  /** Writes of given places and sizes can be joined, whatever they and the file hold, exactly when contiguous. */
  lemma JoinableRunIffContiguous(starts: seq<nat>, lens: seq<nat>)
    requires |starts| == |lens| > 0 && forall i :: 0 <= i < |lens| ==> lens[i] > 0
    ensures Joinable(starts, lens) <==> Contiguous(starts, lens)
  {
    hide PWrite;
    if Contiguous(starts, lens) {
      forall bytes, datas | Sized(datas, lens)
        ensures WriteEach(bytes, starts, datas) == PWrite(bytes, starts[0], Concat(datas))
      {
        ContiguousJoins(bytes, starts, datas, lens);
      }
    }
    if Joinable(starts, lens) {
      forall i | 0 <= i < |starts| ensures starts[i] == starts[0] + Total(lens[..i]) {
        PlaceShows(starts, lens, i);
      }
    }
  }

  lemma {:induction false} ConcatSize(datas: seq<Bytes>, lens: seq<nat>)
    requires Sized(datas, lens)
    ensures |Concat(datas)| == Total(lens)
    decreases |datas|
  {
    if datas != [] { ConcatSize(datas[..|datas| - 1], lens[..|datas| - 1]); }
  }

  lemma {:induction false} ContiguousJoins(bytes: Bytes, starts: seq<nat>, datas: seq<Bytes>, lens: seq<nat>)
    requires Contiguous(starts, lens) && Sized(datas, lens) && |starts| > 0
    ensures WriteEach(bytes, starts, datas) == PWrite(bytes, starts[0], Concat(datas))
    decreases |datas|
  {
    hide PWrite;
    var n := |datas| - 1;
    if n == 0 {
      assert WriteEach(bytes, starts[..0], datas[..0]) == bytes && Concat(datas[..0]) == [];
      assert Concat(datas) == datas[0];
    } else {
      assert forall i :: 0 <= i < n ==> lens[..n][..i] == lens[..i];
      ContiguousJoins(bytes, starts[..n], datas[..n], lens[..n]);
      ConcatSize(datas[..n], lens[..n]);
      PWriteJoins(bytes, starts[0], Concat(datas[..n]), datas[n]);
    }
  }

  /** All zeros but for one write, which is all ones. */
  function Marked(lens: seq<nat>, i: nat): (r: seq<Bytes>)
    ensures Sized(r, lens)
    ensures forall j, k :: 0 <= j < |r| && 0 <= k < |r[j]| ==> r[j][k] == if j == i then 1 else 0
  {
    seq(|lens|, j requires 0 <= j < |lens| => seq(lens[j], _ => if j == i then 1 else 0))
  }

  /** The ones can only be where the marked write put them. */
  lemma {:induction false} OnesInPlace(starts: seq<nat>, datas: seq<Bytes>, i: nat, p: nat)
    requires |starts| == |datas| && p < |WriteEach([], starts, datas)| && WriteEach([], starts, datas)[p] == 1
    requires forall j, k :: 0 <= j < |datas| && 0 <= k < |datas[j]| ==> datas[j][k] == if j == i then 1 else 0
    ensures i < |starts| && starts[i] <= p < starts[i] + |datas[i]|
    decreases |datas|
  {
    if datas != [] {
      var n := |datas| - 1;
      PWriteAt(WriteEach([], starts[..n], datas[..n]), starts[n], datas[n], p);
      hide PWrite;
      if !(starts[n] <= p < starts[n] + |datas[n]|) {
        OnesInPlace(starts[..n], datas[..n], i, p);
      }
    }
  }

  lemma {:induction false} ConcatAt(datas: seq<Bytes>, lens: seq<nat>, i: nat, k: nat)
    requires Sized(datas, lens) && i < |lens| && k < lens[i]
    ensures Total(lens[..i]) + k < |Concat(datas)| && Concat(datas)[Total(lens[..i]) + k] == datas[i][k]
    decreases |datas|
  {
    var n := |datas| - 1;
    ConcatSize(datas[..n], lens[..n]);
    if i < n {
      assert lens[..n][..i] == lens[..i];
      ConcatAt(datas[..n], lens[..n], i, k);
    }
  }

  /** Two contents that differ in one write show where that write has to be. */
  lemma PlaceShows(starts: seq<nat>, lens: seq<nat>, i: nat)
    requires |starts| == |lens| > i && lens[i] > 0 && Joinable(starts, lens)
    ensures starts[i] == starts[0] + Total(lens[..i])
  {
    var datas := Marked(lens, i);
    OneAt(starts, lens, datas, i, 0);
    OneAt(starts, lens, datas, i, lens[i] - 1);
  }

  lemma OneAt(starts: seq<nat>, lens: seq<nat>, datas: seq<Bytes>, i: nat, k: nat)
    requires |starts| == |lens| > i && k < lens[i] && Joinable(starts, lens) && datas == Marked(lens, i)
    ensures starts[i] <= starts[0] + Total(lens[..i]) + k < starts[i] + lens[i]
  {
    ConcatAt(datas, lens, i, k);
    var joined := PWrite([], starts[0], Concat(datas));
    assert WriteEach([], starts, datas) == joined;
    PWriteAt([], starts[0], Concat(datas), starts[0] + Total(lens[..i]) + k);
    hide PWrite, WriteEach, Concat, Marked, Joinable;
    OnesInPlace(starts, datas, i, starts[0] + Total(lens[..i]) + k);
  }
}
