/**
  Online migration: one thread adds, updates and deletes documents while another calls
  `GetMigrageDoc` and applies what it returns to a replica.  Every read and write of shared
  state is a step of its own, so a document can change between any two steps of a call.
 */
module Migration {
  import opened Wrappers

  type Key = int
  type Content = (int, int)  // vectors and scalar fields, stored one after the other

  datatype Doc = Doc(key: Key, vec: int, fields: int)

  /** An entry of the incremental queue. */
  datatype Entry = Put(d: nat) | Del(d: nat)

  /** Where the mutating thread is. */
  datatype Mutator =
    | Quiet
    | Adding(queued: nat)   // a batch is stored from `maxDocid` on; `queued` of its docids are in the queue
    | NewVec(d: nat)        // vectors overwritten
    | NewFields(d: nat)     // scalar fields overwritten too; not queued yet
    | Marked(d: nat)        // bitmap bit set; not queued yet

  /** Where the call of `GetMigrageDoc` is. */
  datatype Caller =
    | Ready
    | Reading(e: Entry)               // a queue position was claimed under the lock
    | Picked(d: nat, isDel: bool)     // `GetMigrateDocid` returned true
    | Testing(d: nat)                 // docid is below `max_docid_`; `GetDoc` begins
    | Tested(d: nat)                  // not deleted at the test
    | HasFields(d: nat, fields: int)  // scalar fields read; vectors still to read

  datatype State = State(
    docs: seq<Doc>,             // by docid
    maxDocid: nat,              // published docids; the rest of `docs` is a batch being added
    deleted: set<nat>,
    mut: Mutator,
    next: nat,                  // next_migrate_docid_
    maxFull: nat,               // max_full_docid_
    queue: seq<Entry>,
    cursor: nat,                // inc_migrated_offset_, in entries
    caller: Caller,
    replica: map<Key, Content>,
    lost: set<nat>)             // history: refused because docid >= max_docid_, and not queued again since

  predicate IsLive(s: State, d: nat) {
    d < |s.docs| && d !in s.deleted
  }

  function ContentOf(doc: Doc): Content {
    (doc.vec, doc.fields)
  }

  /** The source's documents: published, not deleted, latest version. */
  predicate InSource(s: State, k: Key, d: nat) {
    IsLive(s, d) && d < s.maxDocid && s.docs[d].key == k
  }

  // ----- Steps -----

  datatype Step =
    | AddStore(batch: seq<Doc>)
    | AddQueue
    | AddPublish
    | SetVec(d: nat, vec: int)
    | SetFields(fields: int)
    | UpdateQueue
    | Mark(d: nat)
    | DeleteQueue
    | Claim      // the locked part of `GetMigrateDocid`
    | Read       // its tail: decode the entry, test the bitmap
    | Check      // `docid >= max_docid_` in `GetMigrageDoc`
    | Test       // bitmap test of `GetDoc`
    | GetFields
    | GetVec

  predicate DistinctKeys(batch: seq<Doc>) {
    forall i, j :: 0 <= i < j < |batch| ==> batch[i].key != batch[j].key
  }

  predicate Enabled(s: State, step: Step) {
    match step
    case AddStore(batch) =>
      // keys of a batch are new: not in the table and not repeated
      s.mut.Quiet? && batch != [] && DistinctKeys(batch) &&
      forall i, d :: 0 <= i < |batch| && 0 <= d < |s.docs| && d !in s.deleted ==> s.docs[d].key != batch[i].key
    case AddQueue => s.mut.Adding? && s.maxDocid + s.mut.queued < |s.docs|
    case AddPublish => s.mut.Adding? && s.maxDocid + s.mut.queued == |s.docs|
    case SetVec(d, _) => s.mut.Quiet? && IsLive(s, d) && d < s.maxDocid
    case SetFields(_) => s.mut.NewVec? && s.mut.d < |s.docs|
    case UpdateQueue => s.mut.NewFields?
    case Mark(d) => s.mut.Quiet? && IsLive(s, d) && d < s.maxDocid
    case DeleteQueue => s.mut.Marked?
    case Claim => s.caller.Ready?
    case Read => s.caller.Reading?
    case Check => s.caller.Picked? && s.caller.d < |s.docs|
    case Test => s.caller.Testing?
    case GetFields => s.caller.Tested? && s.caller.d < |s.docs|
    case GetVec => s.caller.HasFields? && s.caller.d < |s.docs|
  }

  /** The loop of `GetMigrateDocid`: the first undeleted docid, or the limit. */
  function ScanTo(next: nat, maxFull: nat, deleted: set<nat>): (r: nat)
    ensures next <= r
    ensures next <= maxFull ==> r <= maxFull
    ensures forall d :: next <= d < r ==> d in deleted
    ensures r < maxFull ==> r !in deleted
    decreases maxFull - next
  {
    if next < maxFull && next in deleted then ScanTo(next + 1, maxFull, deleted) else next
  }

  function ClaimState(s: State): State {
    var d := ScanTo(s.next, s.maxFull, s.deleted);
    if d < s.maxFull then s.(next := d + 1, caller := Picked(d, false))
    else if s.cursor < |s.queue| then s.(next := d, cursor := s.cursor + 1, caller := Reading(s.queue[s.cursor]))
    else s.(next := d)
  }

  function ReadState(s: State): State
    requires s.caller.Reading?
  {
    match s.caller.e
    case Del(d) => s.(caller := Picked(d, true))
    case Put(d) => if d !in s.deleted then s.(caller := Picked(d, false)) else s.(caller := Ready)
  }

  function CheckState(s: State): State
    requires s.caller.Picked? && s.caller.d < |s.docs|
  {
    var d := s.caller.d;
    if d >= s.maxDocid then s.(caller := Ready, lost := s.lost + {d})
    else if s.caller.isDel then s.(caller := Ready, replica := s.replica - {s.docs[d].key})
    else s.(caller := Testing(d))
  }

  function Apply(s: State, step: Step): State
    requires Enabled(s, step)
  {
    match step
    case AddStore(batch) => s.(docs := s.docs + batch, mut := Adding(0))
    case AddQueue => s.(queue := s.queue + [Put(s.maxDocid + s.mut.queued)], mut := Adding(s.mut.queued + 1))
    case AddPublish => s.(maxDocid := |s.docs|, mut := Quiet)
    case SetVec(d, vec) => s.(docs := s.docs[d := s.docs[d].(vec := vec)], mut := NewVec(d))
    case SetFields(fields) => s.(docs := s.docs[s.mut.d := s.docs[s.mut.d].(fields := fields)],
        mut := NewFields(s.mut.d))
    case UpdateQueue => s.(queue := s.queue + [Put(s.mut.d)], mut := Quiet, lost := s.lost - {s.mut.d})
    case Mark(d) => s.(deleted := s.deleted + {d}, mut := Marked(d))
    case DeleteQueue => s.(queue := s.queue + [Del(s.mut.d)], mut := Quiet, lost := s.lost - {s.mut.d})
    case Claim => ClaimState(s)
    case Read => ReadState(s)
    case Check => CheckState(s)
    case Test => s.(caller := if s.caller.d in s.deleted then Ready else Tested(s.caller.d))
    case GetFields => s.(caller := HasFields(s.caller.d, s.docs[s.caller.d].fields))
    case GetVec =>
      var HasFields(d, fields) := s.caller;
      s.(caller := Ready, replica := s.replica[s.docs[d].key := (s.docs[d].vec, fields)])
  }

  // ----- What is still to be emitted -----

  datatype Item = Emit(d: nat) | Remove(d: nat) | Deliver(d: nat, content: Content)

  function ItemOf(e: Entry): Item {
    match e
    case Put(d) => Emit(d)
    case Del(d) => Remove(d)
  }

  function CallerItems(s: State): seq<Item> {
    match s.caller
    case Ready => []
    case Reading(e) => [ItemOf(e)]
    case Picked(d, isDel) => [if isDel then Remove(d) else Emit(d)]
    case Testing(d) => [Emit(d)]
    case Tested(d) => if d < |s.docs| then [Deliver(d, ContentOf(s.docs[d]))] else []
    case HasFields(d, fields) => if d < |s.docs| then [Deliver(d, (s.docs[d].vec, fields))] else []
  }

  function ScanItems(next: nat, maxFull: nat): (r: seq<Item>)
    ensures |r| == if next < maxFull then maxFull - next else 0
    ensures forall i :: 0 <= i < |r| ==> r[i] == Emit(next + i)
  {
    seq(if next < maxFull then maxFull - next else 0, i requires i >= 0 => Emit(next + i))
  }

  function QueueItems(queue: seq<Entry>): (r: seq<Item>)
    ensures |r| == |queue| && forall i :: 0 <= i < |queue| ==> r[i] == ItemOf(queue[i])
  {
    seq(|queue|, i requires 0 <= i < |queue| => ItemOf(queue[i]))
  }

  function Items(s: State): seq<Item>
    requires s.cursor <= |s.queue|
  {
    CallerItems(s) + ScanItems(s.next, s.maxFull) + QueueItems(s.queue[s.cursor..])
  }

  // ----- What the replica will hold for one key -----

  predicate Touches(docs: seq<Doc>, item: Item, k: Key) {
    item.d < |docs| && docs[item.d].key == k
  }

  /** What one item stores under key `k`, if it touches it; docids from `limit` on are refused. */
  function Write(docs: seq<Doc>, deleted: set<nat>, limit: nat, item: Item, k: Key): Option<Option<Content>> {
    if !Touches(docs, item, k) then None
    else match item
      case Emit(d) => if d in deleted || d >= limit then None else Some(Some(ContentOf(docs[d])))
      case Remove(_) => Some(None)
      case Deliver(_, content) => Some(Some(content))
  }

  function Effect(docs: seq<Doc>, deleted: set<nat>, limit: nat, item: Item, k: Key,
      v: Option<Content>): Option<Content> {
    match Write(docs, deleted, limit, item, k)
    case None => v
    case Some(w) => w
  }

  function Outcome(docs: seq<Doc>, deleted: set<nat>, limit: nat, items: seq<Item>, k: Key,
      v: Option<Content>): Option<Content> {
    if items == [] then v
    else Effect(docs, deleted, limit, items[|items| - 1], k, Outcome(docs, deleted, limit, items[..|items| - 1], k, v))
  }

  lemma {:induction false} OutcomeHead(docs: seq<Doc>, deleted: set<nat>, limit: nat, h: Item, t: seq<Item>, k: Key,
      v: Option<Content>)
    ensures Outcome(docs, deleted, limit, [h] + t, k, v) ==
            Outcome(docs, deleted, limit, t, k, Effect(docs, deleted, limit, h, k, v))
    decreases |t|
  {
    if t == [] {
      assert [h] + t == [h];
      assert Outcome(docs, deleted, limit, [], k, v) == v;
    } else {
      var init := t[..|t| - 1];
      OutcomeHead(docs, deleted, limit, h, init, k, v);
      assert ([h] + t)[..|t|] == [h] + init;
    }
  }

  lemma OutcomeLast(docs: seq<Doc>, deleted: set<nat>, limit: nat, items: seq<Item>, last: Item, k: Key,
      v: Option<Content>)
    ensures Outcome(docs, deleted, limit, items + [last], k, v) ==
            Effect(docs, deleted, limit, last, k, Outcome(docs, deleted, limit, items, k, v))
  {
    assert (items + [last])[..|items|] == items;
  }

  lemma {:induction false} OutcomeFrame(docs: seq<Doc>, deleted: set<nat>, limit: nat, items: seq<Item>,
                                        docs': seq<Doc>, deleted': set<nat>, limit': nat, items': seq<Item>, k: Key,
                                            v: Option<Content>)
    requires |items'| == |items|
    requires forall i :: 0 <= i < |items| ==>
             Write(docs', deleted', limit', items'[i], k) == Write(docs, deleted, limit, items[i], k)
    ensures Outcome(docs', deleted', limit', items', k, v) == Outcome(docs, deleted, limit, items, k, v)
    decreases |items|
  {
    if items != [] {
      var n := |items| - 1;
      OutcomeFrame(docs, deleted, limit, items[..n], docs', deleted', limit', items'[..n], k, v);
    }
  }

  /** The last item that touches a key decides. */
  lemma {:induction false} OutcomeSettled(docs: seq<Doc>, deleted: set<nat>, limit: nat, items: seq<Item>, i: nat,
      k: Key, v: Option<Content>)
    requires i < |items| && Write(docs, deleted, limit, items[i], k).Some?
    requires forall j :: i < j < |items| ==> !Touches(docs, items[j], k)
    ensures Outcome(docs, deleted, limit, items, k, v) == Write(docs, deleted, limit, items[i], k).value
    decreases |items|
  {
    var n := |items| - 1;
    if i < n { OutcomeSettled(docs, deleted, limit, items[..n], i, k, v); }
  }

  lemma {:induction false} OutcomeUntouched(docs: seq<Doc>, deleted: set<nat>, limit: nat, items: seq<Item>, k: Key,
      v: Option<Content>)
    requires Untouched(docs, deleted, items, k)
    ensures Outcome(docs, deleted, limit, items, k, v) == v
    decreases |items|
  {
    if items != [] { OutcomeUntouched(docs, deleted, limit, items[..|items| - 1], k, v); }
  }

  function Lookup(m: map<Key, Content>, k: Key): Option<Content> {
    if k in m then Some(m[k]) else None
  }

  function Prediction(s: State, k: Key): Option<Content>
    requires s.cursor <= |s.queue|
  {
    Outcome(s.docs, s.deleted, s.maxDocid, Items(s), k, Lookup(s.replica, k))
  }

  // ----- The invariant -----

  /** Docids below this bound may be in the queue. */
  function Queued(s: State): nat {
    if s.mut.Adding? then s.maxDocid + s.mut.queued else s.maxDocid
  }

  ghost predicate DistinctLive(docs: seq<Doc>, deleted: set<nat>) {
    forall d, e :: 0 <= d < e < |docs| && d !in deleted && e !in deleted ==> docs[d].key != docs[e].key
  }

  ghost predicate NoLive(docs: seq<Doc>, deleted: set<nat>, k: Key) {
    forall e :: 0 <= e < |docs| && e !in deleted ==> docs[e].key != k
  }

  predicate QueueOk(s: State) {
    forall i :: 0 <= i < |s.queue| ==> s.queue[i].d < Queued(s) && (s.queue[i].Del? ==> s.queue[i].d in s.deleted)
  }

  ghost predicate LostOk(s: State) {
    forall d :: d in s.lost ==> d < Queued(s) && (d in s.deleted ==> s.mut == Marked(d))
  }

  ghost predicate MutOk(s: State) {
    match s.mut
    case Quiet => |s.docs| == s.maxDocid
    case Adding(queued) => s.maxDocid + queued <= |s.docs|
    case NewVec(d) => |s.docs| == s.maxDocid && IsLive(s, d)
    case NewFields(d) => |s.docs| == s.maxDocid && IsLive(s, d)
    case Marked(d) =>
      |s.docs| == s.maxDocid && d < |s.docs| && d in s.deleted && NoLive(s.docs, s.deleted, s.docs[d].key)
  }

  predicate CallerOk(s: State) {
    match s.caller
    case Ready => true
    case Reading(e) => e.d < Queued(s) && (e.Del? ==> e.d in s.deleted)
    case Picked(d, isDel) => d < Queued(s) && (isDel ==> d in s.deleted)
    case Testing(d) => d < s.maxDocid
    case Tested(d) => d < s.maxDocid
    case HasFields(d, _) => d < s.maxDocid
  }

  ghost predicate Shape(s: State) {
    && s.cursor <= |s.queue| && s.maxFull <= s.maxDocid <= |s.docs|
    && (forall d :: d in s.deleted ==> d < s.maxDocid)
    && DistinctLive(s.docs, s.deleted)
    && MutOk(s) && CallerOk(s) && QueueOk(s) && LostOk(s)
  }

  /** The mutator is in the middle of changing the document of this key. */
  predicate InFlux(s: State, k: Key) {
    (s.mut.NewVec? || s.mut.NewFields? || s.mut.Marked?) && s.mut.d < |s.docs| && s.docs[s.mut.d].key == k
  }

  /** Draining leaves a key as in the source, except that a lost document is missing. */
  ghost predicate Matches(s: State, k: Key, v: Option<Content>) {
    && (forall d: nat :: InSource(s, k, d) ==> v == if d in s.lost then None else Some(ContentOf(s.docs[d])))
    && ((forall d: nat :: !InSource(s, k, d)) ==> v == None)
  }

  ghost predicate AllPredicted(s: State)
    requires s.cursor <= |s.queue|
  {
    forall k: Key :: !InFlux(s, k) ==> Matches(s, k, Prediction(s, k))
  }

  /** A deleted document's docid: the test in `GetDoc` drops it. */
  predicate Inert(deleted: set<nat>, item: Item) {
    item.Emit? && item.d in deleted
  }

  predicate Untouched(docs: seq<Doc>, deleted: set<nat>, items: seq<Item>, k: Key) {
    forall i :: 0 <= i < |items| ==> !Touches(docs, items[i], k) || Inert(deleted, items[i])
  }

  /** `d` will be emitted, and nothing after that touches its key. */
  predicate LastIs(docs: seq<Doc>, items: seq<Item>, d: nat)
    requires d < |docs|
  {
    && Emit(d) in items
    && forall i, j :: 0 <= i < j < |items| && items[i] == Emit(d) ==> !Touches(docs, items[j], docs[d].key)
  }

  /** A docid queued before it is published: still to come, or already refused. */
  predicate Awaits(docs: seq<Doc>, deleted: set<nat>, items: seq<Item>, lost: set<nat>, d: nat)
    requires d < |docs|
  {
    if d in lost then Untouched(docs, deleted, items, docs[d].key) else LastIs(docs, items, d)
  }

  ghost predicate AllAwait(s: State)
    requires s.cursor <= |s.queue| && Queued(s) <= |s.docs|
  {
    forall d: nat :: s.maxDocid <= d < Queued(s) ==> Awaits(s.docs, s.deleted, Items(s), s.lost, d)
  }

  ghost predicate Inv(s: State) {
    Shape(s) && AllPredicted(s) && AllAwait(s)
  }

  // ----- Every step keeps it: the shape -----

  predicate ByCaller(step: Step) {
    step.Claim? || step.Read? || step.Check? || step.Test? || step.GetFields? || step.GetVec?
  }

  lemma ShapeKeeps(s: State, step: Step)
    requires Shape(s) && Enabled(s, step)
    ensures Shape(Apply(s, step))
  {
    if ByCaller(step) {
      CallerShape(s, step);
    } else if step.AddStore? || step.AddQueue? || step.AddPublish? {
      AddShape(s, step);
    } else {
      ChangeShape(s, step);
    }
  }

  lemma CallerShape(s: State, step: Step)
    requires Shape(s) && Enabled(s, step) && ByCaller(step)
    ensures Shape(Apply(s, step))
  {
    hide DistinctLive;
  }

  lemma AddShape(s: State, step: Step)
    requires Shape(s) && Enabled(s, step) && (step.AddStore? || step.AddQueue? || step.AddPublish?)
    ensures Shape(Apply(s, step))
  {
    if step.AddStore? { DistinctLiveGrows(s, step.batch); }
  }

  lemma ChangeShape(s: State, step: Step)
    requires Shape(s) && Enabled(s, step) && !ByCaller(step) && !step.AddStore? && !step.AddQueue? && !step.AddPublish?
    ensures Shape(Apply(s, step))
  {
    var s' := Apply(s, step);
    assert DistinctLive(s'.docs, s'.deleted);
  }

  lemma DistinctLiveGrows(s: State, batch: seq<Doc>)
    requires Shape(s) && Enabled(s, AddStore(batch))
    ensures DistinctLive(s.docs + batch, s.deleted)
  {
  }

  // ----- Every step keeps it: the pending items -----

  lemma ItemsInRange(s: State)
    requires Shape(s)
    ensures forall i :: 0 <= i < |Items(s)| ==> Items(s)[i].d < Queued(s)
  {
  }

  /** A call that leaves `docs`, the bitmap and `max_docid_` alone and consumes one item. */
  lemma Consumed(s: State, s': State, h: Item, k: Key)
    requires s.cursor <= |s.queue| && s'.cursor <= |s'.queue|
    requires s'.docs == s.docs && s'.deleted == s.deleted && s'.maxDocid == s.maxDocid
    requires Items(s) == [h] + Items(s')
    requires Lookup(s'.replica, k) == Effect(s.docs, s.deleted, s.maxDocid, h, k, Lookup(s.replica, k))
    ensures Prediction(s', k) == Prediction(s, k)
  {
    OutcomeHead(s.docs, s.deleted, s.maxDocid, h, Items(s'), k, Lookup(s.replica, k));
  }

  lemma AwaitsPop(docs: seq<Doc>, deleted: set<nat>, h: Item, t: seq<Item>, lost: set<nat>, d: nat)
    requires d < |docs| && Awaits(docs, deleted, [h] + t, lost, d)
    ensures Awaits(docs, deleted, t, if h == Emit(d) then lost + {d} else lost, d)
  {
    var all := [h] + t;
    assert forall i :: 0 <= i < |t| ==> all[i + 1] == t[i];
    if h == Emit(d) {
      assert all[0] == Emit(d);
    }
  }

  lemma AwaitsPush(docs: seq<Doc>, deleted: set<nat>, items: seq<Item>, last: Item, lost: set<nat>, d: nat)
    requires d < |docs| && Awaits(docs, deleted, items, lost, d) && !Touches(docs, last, docs[d].key)
    ensures Awaits(docs, deleted, items + [last], lost, d)
  {
    assert last != Emit(d);
    assert forall i :: 0 <= i < |items| ==> (items + [last])[i] == items[i];
  }

  lemma {:induction false} SkipDeleted(docs: seq<Doc>, deleted: set<nat>, limit: nat, skipped: seq<Item>,
      rest: seq<Item>, k: Key, v: Option<Content>)
    requires forall i :: 0 <= i < |skipped| ==> skipped[i].Emit? && skipped[i].d in deleted
    ensures Outcome(docs, deleted, limit, skipped + rest, k, v) == Outcome(docs, deleted, limit, rest, k, v)
    decreases |skipped|
  {
    if skipped == [] {
      assert skipped + rest == rest;
    } else {
      OutcomeHead(docs, deleted, limit, skipped[0], skipped[1..] + rest, k, v);
      assert skipped + rest == [skipped[0]] + (skipped[1..] + rest);
      SkipDeleted(docs, deleted, limit, skipped[1..], rest, k, v);
    }
  }

  lemma AwaitsSkip(docs: seq<Doc>, deleted: set<nat>, skipped: seq<Item>, rest: seq<Item>, lost: set<nat>, d: nat)
    requires d < |docs| && Awaits(docs, deleted, skipped + rest, lost, d) && Emit(d) !in skipped
    ensures Awaits(docs, deleted, rest, lost, d)
  {
    var all := skipped + rest;
    assert forall i :: 0 <= i < |rest| ==> all[|skipped| + i] == rest[i];
  }

  /** Nothing changes for any key, and `lost` only gains unpublished docids. */
  lemma CarryPredicted(s: State, s': State)
    requires s.cursor <= |s.queue| && s'.cursor <= |s'.queue| && AllPredicted(s)
    requires s'.docs == s.docs && s'.deleted == s.deleted && s'.maxDocid == s.maxDocid && s'.mut == s.mut
    requires forall d :: d < s.maxDocid ==> (d in s'.lost <==> d in s.lost)
    requires forall k :: Prediction(s', k) == Prediction(s, k)
    ensures AllPredicted(s')
  {
    forall k: Key | !InFlux(s', k) ensures Matches(s', k, Prediction(s', k)) {
      assert Matches(s, k, Prediction(s, k));
      assert forall d :: InSource(s', k, d) == InSource(s, k, d);
    }
  }

  // ----- Every step keeps it: `GetMigrageDoc` -----

  lemma ScanItemsSplit(a: nat, b: nat, c: nat)
    requires a <= b && (b <= c || a == b)
    ensures ScanItems(a, c) == ScanItems(a, b) + ScanItems(b, c)
    ensures b < c ==> ScanItems(b, c) == [Emit(b)] + ScanItems(b + 1, c)
    ensures b >= c ==> ScanItems(b, c) == []
  {
  }

  /** The locked part picks the first of the items from the scan position on. */
  lemma ClaimPicks(s: State, d: nat)
    requires s.cursor <= |s.queue| && s.caller.Ready? && d == ScanTo(s.next, s.maxFull, s.deleted)
    ensures Items(ClaimState(s)) == ScanItems(d, s.maxFull) + QueueItems(s.queue[s.cursor..])
  {
    ScanItemsSplit(d, d, s.maxFull);
    hide ScanItems, ScanTo;
    var q := QueueItems(s.queue[s.cursor..]);
    if d < s.maxFull {
      assert Items(ClaimState(s)) == [Emit(d)] + ScanItems(d + 1, s.maxFull) + q;
    } else if s.cursor < |s.queue| {
      ScanItemsSplit(d, d, s.maxFull);
      assert q == [ItemOf(s.queue[s.cursor])] + QueueItems(s.queue[s.cursor + 1..]);
    }
  }

  /** The items before and after the locked part, apart from the deleted docids it skips. */
  lemma ClaimItems(s: State) returns (skipped: seq<Item>)
    requires s.cursor <= |s.queue| && s.caller.Ready?
    ensures Items(s) == skipped + Items(ClaimState(s))
    ensures forall i :: 0 <= i < |skipped| ==> skipped[i].Emit? && skipped[i].d in s.deleted
  {
    var d := ScanTo(s.next, s.maxFull, s.deleted);
    skipped := ScanItems(s.next, d);
    ScanItemsSplit(s.next, d, s.maxFull);
    ClaimPicks(s, d);
    hide ClaimState, ScanTo;
    assert Items(s) == skipped + (ScanItems(d, s.maxFull) + QueueItems(s.queue[s.cursor..]));
  }

  lemma ClaimKeeps(s: State)
    requires Inv(s) && s.caller.Ready?
    ensures AllPredicted(ClaimState(s)) && AllAwait(ClaimState(s))
  {
    var s' := ClaimState(s);
    var skipped := ClaimItems(s);
    forall k ensures Prediction(s', k) == Prediction(s, k) {
      SkipDeleted(s.docs, s.deleted, s.maxDocid, skipped, Items(s'), k, Lookup(s.replica, k));
    }
    CarryPredicted(s, s');
    forall d: nat | s'.maxDocid <= d < Queued(s') ensures Awaits(s'.docs, s'.deleted, Items(s'), s'.lost, d) {
      assert Awaits(s.docs, s.deleted, Items(s), s.lost, d);
      AwaitsSkip(s.docs, s.deleted, skipped, Items(s'), s.lost, d);
    }
  }

  /** A step that consumes the first pending item; a refused docid is recorded as lost. */
  predicate Consumes(s: State, s': State, h: Item)
    requires s.cursor <= |s.queue| && s'.cursor <= |s'.queue|
  {
    && Items(s) == [h] + Items(s')
    && s'.docs == s.docs && s'.deleted == s.deleted && s'.maxDocid == s.maxDocid && s'.mut == s.mut
    && s'.lost == if h.Emit? && h.d >= s.maxDocid then s.lost + {h.d} else s.lost
  }

  lemma ConsumeKeeps(s: State, s': State, h: Item)
    requires Inv(s) && s'.cursor <= |s'.queue| && Consumes(s, s', h)
    requires forall k :: Lookup(s'.replica, k) == Effect(s.docs, s.deleted, s.maxDocid, h, k, Lookup(s.replica, k))
    ensures AllPredicted(s') && AllAwait(s')
  {
    forall k ensures Prediction(s', k) == Prediction(s, k) {
      Consumed(s, s', h, k);
    }
    CarryPredicted(s, s');
    forall d: nat | s'.maxDocid <= d < Queued(s') ensures Awaits(s'.docs, s'.deleted, Items(s'), s'.lost, d) {
      assert Awaits(s.docs, s.deleted, Items(s), s.lost, d);
      AwaitsPop(s.docs, s.deleted, h, Items(s'), s.lost, d);
    }
  }

  /** The head is rewritten into one with the same effect. */
  lemma RephraseKeeps(s: State, s': State, h: Item, h': Item, t: seq<Item>)
    requires Inv(s) && s'.cursor <= |s'.queue| && Items(s) == [h] + t && Items(s') == [h'] + t
    requires s'.docs == s.docs && s'.deleted == s.deleted && s'.maxDocid == s.maxDocid && s'.mut == s.mut
    requires s'.lost == s.lost && s'.replica == s.replica
    requires h'.d == h.d && (h' == h || (h.d < s.maxDocid && !Inert(s.deleted, h)))
    requires forall k :: Write(s.docs, s.deleted, s.maxDocid, h', k) == Write(s.docs, s.deleted, s.maxDocid, h, k)
    ensures AllPredicted(s') && AllAwait(s')
  {
    forall k ensures Prediction(s', k) == Prediction(s, k) {
      OutcomeFrame(s.docs, s.deleted, s.maxDocid, Items(s), s.docs, s.deleted, s.maxDocid, Items(s'), k,
          Lookup(s.replica, k));
    }
    CarryPredicted(s, s');
    forall d: nat | s'.maxDocid <= d < Queued(s') ensures Awaits(s'.docs, s'.deleted, Items(s'), s'.lost, d) {
      assert Awaits(s.docs, s.deleted, Items(s), s.lost, d);
      AwaitsHead(s.docs, s.deleted, h, h', t, s.lost, d);
    }
  }

  lemma AwaitsHead(docs: seq<Doc>, deleted: set<nat>, h: Item, h': Item, t: seq<Item>, lost: set<nat>, d: nat)
    requires d < |docs| && Awaits(docs, deleted, [h] + t, lost, d) && h'.d == h.d &&
             (h' == h || (h.d != d && !Inert(deleted, h)))
    ensures Awaits(docs, deleted, [h'] + t, lost, d)
  {
    var all, all' := [h] + t, [h'] + t;
    assert forall i :: 0 < i < |all| ==> all'[i] == all[i];
    assert forall i :: 0 <= i < |all| ==> all'[i].d == all[i].d;
  }

  lemma ReadKeeps(s: State)
    requires Inv(s) && s.caller.Reading?
    ensures AllPredicted(ReadState(s)) && AllAwait(ReadState(s))
  {
    var s', e := ReadState(s), s.caller.e;
    var t := ScanItems(s.next, s.maxFull) + QueueItems(s.queue[s.cursor..]);
    assert Items(s) == [ItemOf(e)] + t;
    if e.Put? && e.d in s.deleted {
      assert Items(s') == t;
      ConsumeKeeps(s, s', Emit(e.d));
    } else {
      assert Items(s') == [ItemOf(e)] + t;
      RephraseKeeps(s, s', ItemOf(e), ItemOf(e), t);
    }
  }

  lemma CheckKeeps(s: State)
    requires Inv(s) && s.caller.Picked?
    ensures AllPredicted(CheckState(s)) && AllAwait(CheckState(s))
  {
    var s', d, isDel := CheckState(s), s.caller.d, s.caller.isDel;
    var h := if isDel then Remove(d) else Emit(d);
    var t := ScanItems(s.next, s.maxFull) + QueueItems(s.queue[s.cursor..]);
    assert Items(s) == [h] + t;
    if d >= s.maxDocid || isDel {
      assert Items(s') == t;
      ConsumeKeeps(s, s', h);
    } else {
      assert Items(s') == [h] + t;
      RephraseKeeps(s, s', h, h, t);
    }
  }

  lemma GetDocKeeps(s: State, step: Step)
    requires Inv(s) && Enabled(s, step) && (step.Test? || step.GetFields? || step.GetVec?)
    ensures AllPredicted(Apply(s, step)) && AllAwait(Apply(s, step))
  {
    var s', d := Apply(s, step), s.caller.d;
    var t := ScanItems(s.next, s.maxFull) + QueueItems(s.queue[s.cursor..]);
    var h := CallerItems(s)[0];
    assert Items(s) == [h] + t;
    if step.GetVec? || (step.Test? && d in s.deleted) {
      assert Items(s') == t;
      ConsumeKeeps(s, s', h);
    } else {
      var h' := CallerItems(s')[0];
      assert Items(s') == [h'] + t;
      RephraseKeeps(s, s', h, h', t);
    }
  }

  // ----- Every step keeps it: adds, updates and deletes -----

  lemma AddStoreKeeps(s: State, batch: seq<Doc>)
    requires Inv(s) && Enabled(s, AddStore(batch))
    ensures AllPredicted(Apply(s, AddStore(batch))) && AllAwait(Apply(s, AddStore(batch)))
  {
    var s' := Apply(s, AddStore(batch));
    ItemsInRange(s);
    assert Items(s') == Items(s);
    forall k: Key | !InFlux(s', k) ensures Matches(s', k, Prediction(s', k)) {
      OutcomeFrame(s.docs, s.deleted, s.maxDocid, Items(s), s'.docs, s'.deleted, s'.maxDocid, Items(s'), k,
          Lookup(s.replica, k));
      assert Matches(s, k, Prediction(s, k));
      assert forall d: nat :: InSource(s', k, d) == InSource(s, k, d);
    }
  }

  lemma QueueGrows(s: State, s': State, e: Entry)
    requires s.cursor <= |s.queue| && s'.cursor == s.cursor && s'.queue == s.queue + [e]
    requires CallerItems(s') == CallerItems(s) && s'.next == s.next && s'.maxFull == s.maxFull
    ensures Items(s') == Items(s) + [ItemOf(e)]
  {
    assert s'.queue[s'.cursor..] == s.queue[s.cursor..] + [e];
  }

  lemma AddQueueKeeps(s: State)
    requires Inv(s) && Enabled(s, AddQueue)
    ensures AllPredicted(Apply(s, AddQueue)) && AllAwait(Apply(s, AddQueue))
  {
    QueueGrows(s, Apply(s, AddQueue), Put(s.maxDocid + s.mut.queued));
    AddQueuePredicted(s);
    AddQueueAwaits(s);
  }

  lemma AddQueuePredicted(s: State)
    requires Inv(s) && Enabled(s, AddQueue)
    requires Items(Apply(s, AddQueue)) == Items(s) + [Emit(s.maxDocid + s.mut.queued)]
    ensures AllPredicted(Apply(s, AddQueue))
  {
    var s', n := Apply(s, AddQueue), s.maxDocid + s.mut.queued;
    hide Items, DistinctLive;
    forall k: Key | !InFlux(s', k) ensures Matches(s', k, Prediction(s', k)) {
      OutcomeLast(s.docs, s.deleted, s.maxDocid, Items(s), Emit(n), k, Lookup(s.replica, k));
      assert Matches(s, k, Prediction(s, k));
      assert forall d: nat :: InSource(s', k, d) == InSource(s, k, d);
    }
  }

  lemma AddQueueAwaits(s: State)
    requires Inv(s) && Enabled(s, AddQueue)
    requires Items(Apply(s, AddQueue)) == Items(s) + [Emit(s.maxDocid + s.mut.queued)]
    ensures AllAwait(Apply(s, AddQueue))
  {
    var s', n := Apply(s, AddQueue), s.maxDocid + s.mut.queued;
    ItemsInRange(s);
    hide Items;
    forall d: nat | s'.maxDocid <= d < Queued(s') ensures Awaits(s'.docs, s'.deleted, Items(s'), s'.lost, d) {
      if d == n {
        assert Items(s')[|Items(s)|] == Emit(n);
      } else {
        assert Awaits(s.docs, s.deleted, Items(s), s.lost, d);
        AwaitsPush(s.docs, s.deleted, Items(s), Emit(n), s.lost, d);
      }
    }
  }

  /** A queued docid that becomes published is emitted last for its key, unless it was refused. */
  lemma PublishedKey(s: State, k: Key, d: nat)
    requires Inv(s) && Enabled(s, AddPublish) && s.maxDocid <= d < |s.docs| && s.docs[d].key == k
    ensures Prediction(Apply(s, AddPublish), k) == if d in s.lost then None else Some(ContentOf(s.docs[d]))
  {
    var s', items, v := Apply(s, AddPublish), Items(s), Lookup(s.replica, k);
    assert Items(s') == items;
    assert Awaits(s.docs, s.deleted, items, s.lost, d);
    if d in s.lost {
      assert forall e: nat :: !InSource(s, k, e);
      assert Matches(s, k, Prediction(s, k));
      OutcomeUntouched(s.docs, s.deleted, s.maxDocid, items, k, v);
      OutcomeUntouched(s.docs, s.deleted, s'.maxDocid, items, k, v);
    } else {
      var i :| 0 <= i < |items| && items[i] == Emit(d);
      OutcomeSettled(s.docs, s.deleted, s'.maxDocid, items, i, k, v);
    }
  }

  lemma AddPublishKeeps(s: State)
    requires Inv(s) && Enabled(s, AddPublish)
    ensures AllPredicted(Apply(s, AddPublish)) && AllAwait(Apply(s, AddPublish))
  {
    var s' := Apply(s, AddPublish);
    assert Items(s') == Items(s);
    forall k: Key | !InFlux(s', k) ensures Matches(s', k, Prediction(s', k)) {
      if d: nat :| s.maxDocid <= d < |s.docs| && s.docs[d].key == k {
        PublishedKey(s, k, d);
        assert InSource(s', k, d);
      } else {
        OutcomeFrame(s.docs, s.deleted, s.maxDocid, Items(s), s.docs, s.deleted, s'.maxDocid, Items(s), k,
            Lookup(s.replica, k));
        assert Matches(s, k, Prediction(s, k));
        assert forall d: nat :: InSource(s', k, d) == InSource(s, k, d);
      }
    }
  }

  /** Changing one document is invisible to every other key ... */
  lemma SetPrediction(s: State, step: Step, k: Key)
    requires Inv(s) && Enabled(s, step) && (step.SetVec? || step.SetFields?)
    requires s.docs[Apply(s, step).mut.d].key != k
    ensures Prediction(Apply(s, step), k) == Prediction(s, k)
  {
    var s' := Apply(s, step);
    ItemsInRange(s);
    var t := ScanItems(s.next, s.maxFull) + QueueItems(s.queue[s.cursor..]);
    var items, items' := CallerItems(s) + t, CallerItems(s') + t;
    assert Items(s) == items && Items(s') == items';
    hide Inv, DistinctLive, Shape;
    forall i | 0 <= i < |items|
      ensures Write(s'.docs, s'.deleted, s'.maxDocid, items'[i], k) == Write(s.docs, s.deleted, s.maxDocid, items[i], k)
    {
      if i >= |CallerItems(s)| { assert items'[i] == items[i]; }
    }
    OutcomeFrame(s.docs, s.deleted, s.maxDocid, items, s'.docs, s'.deleted, s'.maxDocid, items', k,
        Lookup(s.replica, k));
  }

  lemma SetKeeps(s: State, step: Step)
    requires Inv(s) && Enabled(s, step) && (step.SetVec? || step.SetFields?)
    ensures AllPredicted(Apply(s, step)) && AllAwait(Apply(s, step))
  {
    var s' := Apply(s, step);
    forall k: Key | !InFlux(s', k) ensures Matches(s', k, Prediction(s', k)) {
      SetPrediction(s, step, k);
      assert Matches(s, k, Prediction(s, k));
      assert forall e: nat :: InSource(s', k, e) == InSource(s, k, e);
    }
  }

  /** ... and so is marking it deleted. */
  lemma MarkKeeps(s: State, step: Step)
    requires Inv(s) && Enabled(s, step) && step.Mark?
    ensures AllPredicted(Apply(s, step)) && AllAwait(Apply(s, step))
  {
    var s' := Apply(s, step);
    var d := s'.mut.d;
    assert s'.docs[d].key == s.docs[d].key;
    ItemsInRange(s);
    forall k: Key | !InFlux(s', k) ensures Matches(s', k, Prediction(s', k)) {
      assert s.docs[d].key != k;
      assert Items(s') == Items(s);
      OutcomeFrame(s.docs, s.deleted, s.maxDocid, Items(s), s'.docs, s'.deleted, s'.maxDocid, Items(s'), k,
          Lookup(s.replica, k));
      assert Matches(s, k, Prediction(s, k));
      assert forall e: nat :: InSource(s', k, e) == InSource(s, k, e);
    }
  }

  /** Queueing the change settles its key ... */
  lemma QueueSettles(s: State, step: Step)
    requires Inv(s) && Enabled(s, step) && (step.UpdateQueue? || step.DeleteQueue?)
    ensures Matches(Apply(s, step), s.docs[s.mut.d].key, Prediction(Apply(s, step), s.docs[s.mut.d].key))
  {
    var s', d := Apply(s, step), s.mut.d;
    var k, e := s.docs[d].key, if step.UpdateQueue? then Put(d) else Del(d);
    QueueGrows(s, s', e);
    OutcomeLast(s.docs, s.deleted, s.maxDocid, Items(s), ItemOf(e), k, Lookup(s.replica, k));
    if step.UpdateQueue? {
      assert InSource(s', k, d);
      assert forall x: nat :: InSource(s', k, x) ==> x == d;
    } else {
      assert NoLive(s.docs, s.deleted, k);
      assert Prediction(s', k) == None;
    }
  }

  /** ... and no other. */
  lemma QueueKeeps(s: State, step: Step)
    requires Inv(s) && Enabled(s, step) && (step.UpdateQueue? || step.DeleteQueue?)
    ensures AllPredicted(Apply(s, step)) && AllAwait(Apply(s, step))
  {
    var s', d := Apply(s, step), s.mut.d;
    var e := if step.UpdateQueue? then Put(d) else Del(d);
    QueueGrows(s, s', e);
    forall k: Key | !InFlux(s', k) ensures Matches(s', k, Prediction(s', k)) {
      if s.docs[d].key == k {
        QueueSettles(s, step);
      } else {
        OutcomeLast(s.docs, s.deleted, s.maxDocid, Items(s), ItemOf(e), k, Lookup(s.replica, k));
        assert Matches(s, k, Prediction(s, k));
        assert forall x: nat :: InSource(s', k, x) == InSource(s, k, x);
      }
    }
  }

  // ----- Whole runs -----

  lemma StepKeeps(s: State, step: Step)
    requires Inv(s) && Enabled(s, step)
    ensures Inv(Apply(s, step))
  {
    ShapeKeeps(s, step);
    hide Shape, AllPredicted, AllAwait;
    match step
    case AddStore(batch) => AddStoreKeeps(s, batch);
    case AddQueue => AddQueueKeeps(s);
    case AddPublish => AddPublishKeeps(s);
    case Claim => ClaimKeeps(s);
    case Read => ReadKeeps(s);
    case Check => CheckKeeps(s);
    case Test => GetDocKeeps(s, step);
    case GetFields => GetDocKeeps(s, step);
    case GetVec => GetDocKeeps(s, step);
    case UpdateQueue => QueueKeeps(s, step);
    case DeleteQueue => QueueKeeps(s, step);
    case Mark(_) => MarkKeeps(s, step);
    case _ => SetKeeps(s, step);
  }

  ghost predicate Runs(s: State, steps: seq<Step>, s': State)
    decreases |steps|
  {
    if steps == [] then s' == s
    else Enabled(s, steps[0]) && Runs(Apply(s, steps[0]), steps[1..], s')
  }

  /** A docid of a batch that went to `AddDocid` before there was a queue. */
  predicate Unqueued(s: State, d: nat) {
    s.mut.Adding? && s.maxDocid <= d < s.maxDocid + s.mut.queued
  }

  /** Just after `BeginMigrate`, whatever the mutating thread is doing, with an empty replica. */
  ghost predicate Begins(s: State) {
    && MutOk(s) && s.maxDocid <= |s.docs|
    && s.next == 0 && s.maxFull == s.maxDocid && s.queue == [] && s.cursor == 0
    && s.caller.Ready? && s.replica == map[] && (forall d: nat :: d in s.lost <==> Unqueued(s, d))
    && (forall d :: d in s.deleted ==> d < s.maxDocid) && DistinctLive(s.docs, s.deleted)
  }

  lemma BeginEstablishes(s: State)
    requires Begins(s)
    ensures Inv(s)
  {
    assert Items(s) == ScanItems(0, s.maxFull);
    forall k: Key | !InFlux(s, k) ensures Matches(s, k, Prediction(s, k)) {
      if d: nat :| InSource(s, k, d) {
        assert Items(s)[d] == Emit(d);
        ScanPredicts(s, k, d);
        assert forall x: nat :: InSource(s, k, x) ==> x == d;
      } else {
        assert forall d: nat :: !InSource(s, k, d);
        ScanSkips(s, ScanItems(0, s.maxFull), k);
      }
    }
  }

  lemma ScanPredicts(s: State, k: Key, d: nat)
    requires Begins(s) && InSource(s, k, d)
    ensures Prediction(s, k) == Some(ContentOf(s.docs[d]))
  {
    var items, after := Items(s), ScanItems(d + 1, s.maxFull);
    assert items == ScanItems(0, d + 1) + after;
    forall i | 0 <= i < |after| ensures Write(s.docs, s.deleted, s.maxDocid, after[i], k) == None {
      assert after[i] == Emit(d + 1 + i);
    }
    OutcomeFlat(s.docs, s.deleted, s.maxDocid, ScanItems(0, d + 1), after, k, None);
    assert ScanItems(0, d + 1) == ScanItems(0, d) + [Emit(d)];
    OutcomeLast(s.docs, s.deleted, s.maxDocid, ScanItems(0, d), Emit(d), k, None);
  }

  lemma {:induction false} OutcomeFlat(docs: seq<Doc>, deleted: set<nat>, limit: nat, items: seq<Item>,
      after: seq<Item>, k: Key, v: Option<Content>)
    requires forall i :: 0 <= i < |after| ==> Write(docs, deleted, limit, after[i], k) == None
    ensures Outcome(docs, deleted, limit, items + after, k, v) == Outcome(docs, deleted, limit, items, k, v)
    decreases |after|
  {
    if after == [] {
      assert items + after == items;
    } else {
      var n := |after| - 1;
      assert (items + after)[..|items| + n] == items + after[..n];
      OutcomeFlat(docs, deleted, limit, items, after[..n], k, v);
    }
  }

  lemma ScanSkips(s: State, items: seq<Item>, k: Key)
    requires Begins(s) && (forall d: nat :: !InSource(s, k, d))
    requires forall i :: 0 <= i < |items| ==> items[i].Emit? && items[i].d < s.maxDocid
    ensures Outcome(s.docs, s.deleted, s.maxDocid, items, k, None) == None
  {
    forall i | 0 <= i < |items| ensures Write(s.docs, s.deleted, s.maxDocid, items[i], k) == None {
      assert !InSource(s, k, items[i].d);
    }
    OutcomeFlat(s.docs, s.deleted, s.maxDocid, [], items, k, None);
    assert [] + items == items;
  }

  lemma {:induction false} RunKeeps(s: State, steps: seq<Step>, s': State)
    requires Inv(s) && Runs(s, steps, s')
    ensures Inv(s')
    decreases |steps|
  {
    hide Inv, Enabled, Apply;
    if steps != [] {
      StepKeeps(s, steps[0]);
      RunKeeps(Apply(s, steps[0]), steps[1..], s');
    }
  }

  // ----- Convergence -----

  /** Both cursors at the end and no call under way. */
  predicate Drained(s: State) {
    s.next >= s.maxFull && s.cursor >= |s.queue| && s.caller.Ready?
  }

  /** The replica is the source's undeleted documents, latest versions, and nothing else. */
  ghost predicate Converged(s: State) {
    && (forall k, d: nat :: InSource(s, k, d) ==> Lookup(s.replica, k) == Some(ContentOf(s.docs[d])))
    && (forall k :: k in s.replica ==> exists d: nat :: InSource(s, k, d))
  }

  /** A drained migration has converged exactly when no docid was left refused. */
  lemma DrainedAgrees(s: State, steps: seq<Step>, s': State)
    requires Begins(s) && Runs(s, steps, s') && Drained(s') && s'.mut.Quiet?
    ensures Converged(s') <==> s'.lost == {}
    ensures forall k, d: nat :: InSource(s', k, d) ==>
              Lookup(s'.replica, k) == if d in s'.lost then None else Some(ContentOf(s'.docs[d]))
    ensures forall k :: k in s'.replica ==> exists d: nat :: InSource(s', k, d)
  {
    BeginEstablishes(s);
    RunKeeps(s, steps, s');
    assert Items(s') == [];
    forall k, d: nat | InSource(s', k, d)
      ensures Lookup(s'.replica, k) == if d in s'.lost then None else Some(ContentOf(s'.docs[d]))
    {
      assert Matches(s', k, Prediction(s', k));
    }
    forall k | k in s'.replica ensures exists d: nat :: InSource(s', k, d) {
      assert Matches(s', k, Prediction(s', k));
    }
    if Converged(s') && s'.lost != {} {
      var d :| d in s'.lost;
      assert InSource(s', s'.docs[d].key, d);
      assert false;
    }
  }

  /** The test in `GetMigrageDoc` that drops a docid. */
  predicate Refuses(s: State, step: Step) {
    step.Check? && s.caller.Picked? && s.caller.d >= s.maxDocid
  }

  ghost predicate NeverRefuses(s: State, steps: seq<Step>, s': State)
    requires Runs(s, steps, s')
    decreases |steps|
  {
    steps == [] || (!Refuses(s, steps[0]) && NeverRefuses(Apply(s, steps[0]), steps[1..], s'))
  }

  /** Only a batch that is queued but not yet published can be refused. */
  lemma RefusedWhileAdding(s: State, step: Step)
    requires Inv(s) && Enabled(s, step) && Refuses(s, step)
    ensures s.mut.Adding? && s.maxDocid <= s.caller.d < s.maxDocid + s.mut.queued
    ensures Apply(s, step).lost == s.lost + {s.caller.d}
  {
  }

  lemma {:induction false} NoRefusalLosesNothing(s: State, steps: seq<Step>, s': State)
    requires Runs(s, steps, s') && NeverRefuses(s, steps, s') && s.lost == {}
    ensures s'.lost == {}
    decreases |steps|
  {
    if steps != [] {
      NoRefusalLosesNothing(Apply(s, steps[0]), steps[1..], s');
    }
  }

  /** Without a refusal every drained run converges. */
  lemma ConvergesUnlessRefused(s: State, steps: seq<Step>, s': State)
    requires Begins(s) && !Unqueued(s, s.maxDocid)
    requires Runs(s, steps, s') && NeverRefuses(s, steps, s') && Drained(s') && s'.mut.Quiet?
    ensures Converged(s')
  {
    DrainedAgrees(s, steps, s');
    assert s.lost == {};
    NoRefusalLosesNothing(s, steps, s');
  }

  predicate Requeues(step: Step, d: nat, s: State) {
    (step.UpdateQueue? || step.DeleteQueue?) && (s.mut.NewFields? || s.mut.Marked?) && s.mut.d == d
  }

  ghost predicate NeverRequeued(s: State, steps: seq<Step>, s': State, d: nat)
    requires Runs(s, steps, s')
    decreases |steps|
  {
    steps == [] || (!Requeues(steps[0], d, s) && NeverRequeued(Apply(s, steps[0]), steps[1..], s', d))
  }

  /**
    A migration begun in the middle of a batch loses the docids that were past `AddDocid` by then,
    each until its document is updated or deleted again.
   */
  lemma BegunInABatch(s: State, steps: seq<Step>, s': State, d: nat)
    requires Begins(s) && Runs(s, steps, s') && Drained(s') && s'.mut.Quiet?
    requires Unqueued(s, d) && NeverRequeued(s, steps, s', d)
    ensures d < |s'.docs| && s'.docs[d].key !in s'.replica && !Converged(s')
  {
    DrainedAgrees(s, steps, s');
    BeginEstablishes(s);
    RunKeeps(s, steps, s');
    LostStays(s, steps, s', d);
    assert InSource(s', s'.docs[d].key, d);
    assert Lookup(s'.replica, s'.docs[d].key) == None;
  }

  lemma {:induction false} LostStays(s: State, steps: seq<Step>, s': State, d: nat)
    requires Runs(s, steps, s') && d in s.lost && NeverRequeued(s, steps, s', d)
    ensures d in s'.lost
    decreases |steps|
  {
    if steps != [] {
      LostStays(Apply(s, steps[0]), steps[1..], s', d);
    }
  }

  function LosingRun(doc: Doc): seq<Step> {
    [AddStore([doc]), AddQueue, Claim, Read, Check, AddPublish]
  }

  /** Adding one document to an empty source can lose it: it is queued before `max_docid_` moves. */
  lemma ARefusalLoses(s: State, doc: Doc) returns (s': State)
    requires Begins(s) && s.docs == [] && s.mut.Quiet?
    ensures Runs(s, LosingRun(doc), s') && Drained(s') && s'.mut.Quiet?
    ensures InSource(s', doc.key, 0) && doc.key !in s'.replica && !Converged(s')
  {
    var a := Apply(s, AddStore([doc]));
    var b := Apply(a, AddQueue);
    var c := Apply(b, Claim);
    var d := Apply(c, Read);
    var e := Apply(d, Check);
    s' := Apply(e, AddPublish);
    var run := LosingRun(doc);
    assert Runs(e, run[5..], s') by { assert run[5..] == [AddPublish] && Runs(s', run[5..][1..], s'); }
    assert Runs(d, run[4..], s') by { assert run[4..][1..] == run[5..]; }
    assert Runs(c, run[3..], s') by { assert run[3..][1..] == run[4..]; }
    assert Runs(b, run[2..], s') by { assert run[2..][1..] == run[3..]; }
    assert Runs(a, run[1..], s') by { assert run[1..][1..] == run[2..]; }
    assert InSource(s', doc.key, 0) && Lookup(s'.replica, doc.key) == None;
  }

  // ----- Progress -----

  /** Docids still to scan and entries still to read. */
  function Work(s: State): nat
    requires s.cursor <= |s.queue|
  {
    (if s.next < s.maxFull then s.maxFull - s.next else 0) + (|s.queue| - s.cursor)
  }

  /** Every call with work left shrinks it, also a call that will return nothing. */
  lemma ClaimShrinks(s: State)
    requires Shape(s) && s.caller.Ready? && Work(s) > 0
    ensures Work(ClaimState(s)) < Work(s)
    ensures ClaimState(s).cursor <= |ClaimState(s).queue|
  {
  }

  function Rank(c: Caller): nat {
    match c
    case Ready => 0
    case Reading(_) => 5
    case Picked(_, _) => 4
    case Testing(_) => 3
    case Tested(_) => 2
    case HasFields(_, _) => 1
  }

  function NextStep(s: State): (step: Step)
    ensures ByCaller(step)
    ensures Shape(s) ==> Enabled(s, step)
  {
    match s.caller
    case Ready => Claim
    case Reading(_) => Read
    case Picked(_, _) => Check
    case Testing(_) => Test
    case Tested(_) => GetFields
    case HasFields(_, _) => GetVec
  }

  /** Steps the caller can still take at most, if nothing else moves. */
  function Remaining(s: State): nat
    requires s.cursor <= |s.queue|
  {
    6 * Work(s) + Rank(s.caller)
  }

  lemma NextStepShrinks(s: State)
    requires Shape(s) && !Drained(s)
    ensures Apply(s, NextStep(s)).cursor <= |Apply(s, NextStep(s)).queue|
    ensures Remaining(Apply(s, NextStep(s))) < Remaining(s)
  {
    if s.caller.Ready? { ClaimShrinks(s); }
  }

  /** Left alone, the caller drains both cursors. */
  lemma {:induction false} DrainsAlone(s: State) returns (steps: seq<Step>, s': State)
    requires Inv(s)
    ensures Runs(s, steps, s') && Drained(s') && s'.mut == s.mut && s'.docs == s.docs && s'.deleted == s.deleted
    ensures forall step :: step in steps ==> ByCaller(step)
    ensures |steps| <= Remaining(s)
    decreases Remaining(s)
  {
    if Drained(s) {
      steps, s' := [], s;
    } else {
      var step := NextStep(s);
      StepKeeps(s, step);
      NextStepShrinks(s);
      var rest;
      rest, s' := DrainsAlone(Apply(s, step));
      steps := [step] + rest;
      assert steps[1..] == rest;
    }
  }
}
