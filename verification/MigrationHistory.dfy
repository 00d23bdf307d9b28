/**
  What a migration converges to, told from its steps alone: which documents were added, what was last
  written to each of them, and which were deleted.
 */
module MigrationHistory {
  import opened Migration
  import opened Wrappers

  function Init(steps: seq<Step>): seq<Step>
    requires steps != []
  {
    steps[..|steps| - 1]
  }

  function Last(steps: seq<Step>): Step
    requires steps != []
  {
    steps[|steps| - 1]
  }

  /** The documents there at the start, and all batches after them, as they were added. */
  function Added(docs: seq<Doc>, steps: seq<Step>): seq<Doc> {
    if steps == [] then docs
    else Added(docs, Init(steps)) + if Last(steps).AddStore? then Last(steps).batch else []
  }

  /** The docids deleted at the start or marked since. */
  function Dead(deleted: set<nat>, steps: seq<Step>): set<nat> {
    if steps == [] then deleted
    else Dead(deleted, Init(steps)) + if Last(steps).Mark? then {Last(steps).d} else {}
  }

  /** The vectors last written to a docid. */
  function LastVec(steps: seq<Step>, d: nat): Option<int> {
    if steps == [] then None
    else if Last(steps).SetVec? && Last(steps).d == d then Some(Last(steps).vec)
    else LastVec(Init(steps), d)
  }

  /** The docid of the last vectors written, whose scalar fields are next; at the start there may be one already. */
  function Target(mut: Mutator, steps: seq<Step>): Option<nat> {
    if steps == [] then (if mut.NewVec? then Some(mut.d) else None)
    else if Last(steps).SetVec? then Some(Last(steps).d)
    else Target(mut, Init(steps))
  }

  /** The scalar fields last written to a docid. */
  function LastFields(mut: Mutator, steps: seq<Step>, d: nat): Option<int> {
    if steps == [] then None
    else if Last(steps).SetFields? && Target(mut, Init(steps)) == Some(d) then Some(Last(steps).fields)
    else LastFields(mut, Init(steps), d)
  }

  function Or(last: Option<int>, first: int): int {
    match last
    case Some(x) => x
    case None => first
  }

  /** The latest version of a document: key as added, vectors and scalar fields as last written or else as added. */
  function Version(s: State, steps: seq<Step>, d: nat): Doc
    requires d < |Added(s.docs, steps)|
  {
    var doc := Added(s.docs, steps)[d];
    Doc(doc.key, Or(LastVec(steps, d), doc.vec), Or(LastFields(s.mut, steps, d), doc.fields))
  }

  /** Step `i` writes vectors, or scalar fields, to this docid. */
  predicate WritesVec(steps: seq<Step>, d: nat, i: nat) {
    i < |steps| && steps[i].SetVec? && steps[i].d == d
  }

  predicate WritesFields(mut: Mutator, steps: seq<Step>, d: nat, i: nat) {
    i < |steps| && steps[i].SetFields? && Target(mut, steps[..i]) == Some(d)
  }

  /** The last write counts: what step `i` wrote, when no later step wrote to the docid. */
  lemma {:induction false} LastVecIs(steps: seq<Step>, d: nat, i: nat)
    requires WritesVec(steps, d, i) && forall j :: i < j < |steps| ==> !WritesVec(steps, d, j)
    ensures LastVec(steps, d) == Some(steps[i].vec)
    decreases |steps|
  {
    var n := |steps| - 1;
    if i < n {
      assert !WritesVec(steps, d, n);
      forall j | i < j < n ensures !WritesVec(steps[..n], d, j) {
        assert !WritesVec(steps, d, j);
      }
      LastVecIs(steps[..n], d, i);
    }
  }

  lemma {:induction false} NoVec(steps: seq<Step>, d: nat)
    requires forall j: nat :: !WritesVec(steps, d, j)
    ensures LastVec(steps, d) == None
    decreases |steps|
  {
    if steps != [] {
      var n := |steps| - 1;
      assert !WritesVec(steps, d, n);
      forall j: nat ensures !WritesVec(steps[..n], d, j) {
        assert !WritesVec(steps, d, j);
      }
      NoVec(steps[..n], d);
    }
  }

  lemma {:induction false} LastFieldsIs(mut: Mutator, steps: seq<Step>, d: nat, i: nat)
    requires WritesFields(mut, steps, d, i) && forall j :: i < j < |steps| ==> !WritesFields(mut, steps, d, j)
    ensures LastFields(mut, steps, d) == Some(steps[i].fields)
    decreases |steps|
  {
    var n := |steps| - 1;
    if i < n {
      assert !WritesFields(mut, steps, d, n);
      forall j | i <= j < n ensures WritesFields(mut, steps[..n], d, j) <==> WritesFields(mut, steps, d, j) {
        assert steps[..n][..j] == steps[..j];
      }
      LastFieldsIs(mut, steps[..n], d, i);
    }
  }

  lemma {:induction false} NoFields(mut: Mutator, steps: seq<Step>, d: nat)
    requires forall j: nat :: !WritesFields(mut, steps, d, j)
    ensures LastFields(mut, steps, d) == None
    decreases |steps|
  {
    if steps != [] {
      var n := |steps| - 1;
      assert !WritesFields(mut, steps, d, n);
      forall j: nat ensures !WritesFields(mut, steps[..n], d, j) {
        if j < n { assert steps[..n][..j] == steps[..j] && !WritesFields(mut, steps, d, j); }
      }
      NoFields(mut, steps[..n], d);
    }
  }

  // ----- The state a run leaves -----

  lemma {:induction false} RunsInit(s: State, steps: seq<Step>, s': State) returns (mid: State)
    requires Runs(s, steps, s') && steps != []
    ensures Runs(s, Init(steps), mid) && Enabled(mid, Last(steps)) && s' == Apply(mid, Last(steps))
    decreases |steps|
  {
    hide Enabled, Apply;
    if |steps| == 1 {
      mid := s;
    } else {
      mid := RunsInit(Apply(s, steps[0]), steps[1..], s');
      assert Init(steps)[0] == steps[0] && Init(steps)[1..] == Init(steps[1..]) && Last(steps[1..]) == Last(steps);
    }
  }

  /** Documents, bitmap and mutator are what the steps say. */
  ghost predicate Told(s: State, steps: seq<Step>, s': State) {
    && |s'.docs| == |Added(s.docs, steps)| && s'.deleted == Dead(s.deleted, steps)
    && (forall d :: 0 <= d < |s'.docs| ==> s'.docs[d] == Version(s, steps, d))
    && (forall d: nat :: d >= |s'.docs| ==> LastVec(steps, d) == None && LastFields(s.mut, steps, d) == None)
    && (s'.mut.NewVec? ==> Target(s.mut, steps) == Some(s'.mut.d))
  }

  lemma {:induction false} HistoryTold(s: State, steps: seq<Step>, s': State)
    requires Inv(s) && Runs(s, steps, s')
    ensures Inv(s') && Told(s, steps, s')
    decreases |steps|
  {
    hide Inv;
    if steps != [] {
      var mid := RunsInit(s, steps, s');
      HistoryTold(s, Init(steps), mid);
      StepKeeps(mid, Last(steps));
      ToldNext(s, steps, mid);
    }
  }

  lemma ToldNext(s: State, steps: seq<Step>, mid: State)
    requires steps != [] && Told(s, Init(steps), mid) && Enabled(mid, Last(steps)) && Inv(mid)
    ensures Told(s, steps, Apply(mid, Last(steps)))
  {
    assert |mid.docs| >= mid.maxDocid;
    assert mid.mut.NewVec? ==> mid.mut.d < |mid.docs|;
    hide Inv;
    var step, s' := Last(steps), Apply(mid, Last(steps));
    assert !step.Mark? ==> Dead(s.deleted, steps) == Dead(s.deleted, Init(steps));
    assert !step.AddStore? ==> Added(s.docs, steps) == Added(s.docs, Init(steps));
    if step.AddStore? {
      forall d: nat | d >= |s'.docs| ensures LastVec(steps, d) == None && LastFields(s.mut, steps, d) == None {
        assert LastVec(Init(steps), d) == None && LastFields(s.mut, Init(steps), d) == None;
      }
      forall d | 0 <= d < |s'.docs| ensures s'.docs[d] == Version(s, steps, d) {
        assert LastVec(steps, d) == LastVec(Init(steps), d);
        assert LastFields(s.mut, steps, d) == LastFields(s.mut, Init(steps), d);
        if d < |mid.docs| {
          assert mid.docs[d] == Version(s, Init(steps), d);
        } else {
          assert Added(s.docs, steps)[d] == step.batch[d - |mid.docs|] == s'.docs[d];
        }
      }
    } else {
      assert |s'.docs| == |mid.docs|;
      forall d: nat | d >= |s'.docs| ensures LastVec(steps, d) == None && LastFields(s.mut, steps, d) == None {
        assert LastVec(Init(steps), d) == None && LastFields(s.mut, Init(steps), d) == None;
      }
      forall d | 0 <= d < |s'.docs| ensures s'.docs[d] == Version(s, steps, d) {
        assert mid.docs[d] == Version(s, Init(steps), d);
      }
    }
  }

  // ----- Convergence -----

  /** A document that a run leaves in the source: added, and never deleted. */
  predicate Stays(s: State, steps: seq<Step>, d: nat) {
    d < |Added(s.docs, steps)| && d !in Dead(s.deleted, steps)
  }

  /** The replica is the latest version of every document that stays, under its key, and nothing else. */
  ghost predicate Replicates(s: State, steps: seq<Step>, replica: map<Key, Content>) {
    && (forall d: nat :: Stays(s, steps, d) ==>
          var doc := Version(s, steps, d); doc.key in replica && replica[doc.key] == (doc.vec, doc.fields))
    && (forall k :: k in replica ==> exists d: nat :: Stays(s, steps, d) && Version(s, steps, d).key == k)
  }

  /**
    The main result: once both cursors are drained and no operation is under way, the replica is what
    the steps say if and only if no docid was left refused; those refused are what is missing.
   */
  lemma Convergence(s: State, steps: seq<Step>, s': State)
    requires Begins(s) && Runs(s, steps, s') && Drained(s') && s'.mut.Quiet?
    ensures Replicates(s, steps, s'.replica) <==> s'.lost == {}
    ensures forall d: nat :: Stays(s, steps, d) ==>
              var doc := Version(s, steps, d);
              if d in s'.lost then doc.key !in s'.replica
              else doc.key in s'.replica && s'.replica[doc.key] == (doc.vec, doc.fields)
    ensures forall k :: k in s'.replica ==> exists d: nat :: Stays(s, steps, d) && Version(s, steps, d).key == k
  {
    BeginEstablishes(s);
    HistoryTold(s, steps, s');
    DrainedAgrees(s, steps, s');
    assert s'.maxDocid == |s'.docs|;
    hide Inv, Runs, Begins, Drained;
    forall d: nat | Stays(s, steps, d)
      ensures InSource(s', Version(s, steps, d).key, d) && s'.docs[d] == Version(s, steps, d)
    {
    }
    hide Version;
    forall k | k in s'.replica ensures exists d: nat :: Stays(s, steps, d) && Version(s, steps, d).key == k {
      var d: nat :| InSource(s', k, d);
      assert Stays(s, steps, d) && s'.docs[d] == Version(s, steps, d);
    }
    ReplicatesIff(s, steps, s');
  }

  lemma ReplicatesIff(s: State, steps: seq<Step>, s': State)
    requires Told(s, steps, s') && s'.maxDocid == |s'.docs| && (Converged(s') <==> s'.lost == {})
    requires forall k :: k in s'.replica ==> exists d: nat :: Stays(s, steps, d) && Version(s, steps, d).key == k
    requires forall k :: k in s'.replica ==> exists d: nat :: InSource(s', k, d)
    ensures Replicates(s, steps, s'.replica) <==> s'.lost == {}
  {
    if Replicates(s, steps, s'.replica) {
      forall k, d: nat | InSource(s', k, d) ensures Lookup(s'.replica, k) == Some(ContentOf(s'.docs[d])) {
        assert Stays(s, steps, d) && s'.docs[d] == Version(s, steps, d);
      }
      assert Converged(s');
    }
    if Converged(s') {
      forall d: nat | Stays(s, steps, d)
        ensures var doc := Version(s, steps, d); doc.key in s'.replica && s'.replica[doc.key] == (doc.vec, doc.fields)
      {
        assert s'.docs[d] == Version(s, steps, d);
        assert InSource(s', s'.docs[d].key, d);
      }
    }
  }

  // ----- Operations can run -----

  lemma Three(s: State, x: Step, y: Step, z: Step)
    requires Enabled(s, x) && Enabled(Apply(s, x), y) && Enabled(Apply(Apply(s, x), y), z)
    ensures Runs(s, [x, y, z], Apply(Apply(Apply(s, x), y), z))
  {
    hide Enabled, Apply;
    var t := Apply(s, x);
    var u := Apply(t, y);
    assert [x, y, z][1..] == [y, z] && [y, z][1..] == [z] && [z][1..] == [];
    assert Runs(u, [z], Apply(u, z));
    assert Runs(t, [y, z], Apply(u, z));
  }

  /** A published document can be updated, one that is not deleted; afterwards its version is the new one. */
  lemma UpdateRuns(s: State, d: nat, vec: int, fields: int) returns (s': State)
    requires Inv(s) && s.mut.Quiet? && d < s.maxDocid && d !in s.deleted
    ensures Runs(s, [SetVec(d, vec), SetFields(fields), UpdateQueue], s') && s'.mut.Quiet? && d < |s'.docs|
    ensures s'.docs[d] == Doc(s.docs[d].key, vec, fields)
  {
    Three(s, SetVec(d, vec), SetFields(fields), UpdateQueue);
    s' := Apply(Apply(Apply(s, SetVec(d, vec)), SetFields(fields)), UpdateQueue);
  }

  /** A document with a new key can be added. */
  lemma AddRuns(s: State, doc: Doc) returns (s': State)
    requires Inv(s) && s.mut.Quiet? && NoLive(s.docs, s.deleted, doc.key)
    ensures Runs(s, [AddStore([doc]), AddQueue, AddPublish], s') && s'.mut.Quiet?
    ensures s'.docs == s.docs + [doc] && s'.maxDocid == |s'.docs|
  {
    Three(s, AddStore([doc]), AddQueue, AddPublish);
    s' := Apply(Apply(Apply(s, AddStore([doc])), AddQueue), AddPublish);
  }

  /** A published document can be deleted. */
  lemma DeleteRuns(s: State, d: nat) returns (s': State)
    requires Inv(s) && s.mut.Quiet? && d < s.maxDocid && d !in s.deleted
    ensures Runs(s, [Mark(d), DeleteQueue], s') && s'.mut.Quiet? && s'.deleted == s.deleted + {d}
  {
    s' := Apply(Apply(s, Mark(d)), DeleteQueue);
    assert [Mark(d), DeleteQueue][1..] == [DeleteQueue] && [DeleteQueue][1..] == [];
    assert Runs(Apply(s, Mark(d)), [DeleteQueue], s');
  }
}
