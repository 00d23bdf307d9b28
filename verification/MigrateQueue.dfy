/** The migration cursor of one engine (migrate_data.cc): the scan position and the file queue. */
module MigrateQueue {
  import Migration

  const DEL_BIT := 0x8000_0000
  const DOCID_BYTES := 4
  const HEADER_BYTES := 12   // next_migrate_docid_, max_full_docid_, inc_migrated_offset_

  /** Docids in the file are 32-bit ints; setting bit 31 of a non-negative one makes it negative. */
  function Encode(e: Migration.Entry): int {
    match e
    case Put(d) => d
    case Del(d) => d - DEL_BIT
  }

  function Decode(word: int): Migration.Entry
    requires -DEL_BIT <= word
  {
    if word < 0 then Migration.Del(word + DEL_BIT) else Migration.Put(word)
  }

  lemma DecodeEncode(e: Migration.Entry)
    requires e.d < DEL_BIT
    ensures -DEL_BIT <= Encode(e) < DEL_BIT && Decode(Encode(e)) == e
    ensures Encode(e) < 0 <==> e.Del?
  {
  }

  /** On 32-bit words this is what `0X80000000 | docid` and the two masks compute. */
  lemma SignBitIsFlag(docid: bv32)
    requires docid < 0x8000_0000
    ensures 0x8000_0000 | docid == docid + 0x8000_0000
    ensures (0x8000_0000 | docid) & 0x8000_0000 != 0 && docid & 0x8000_0000 == 0
    ensures (0x8000_0000 | docid) & 0x7fff_ffff == docid
  {
  }

  function Decoded(words: seq<int>): (q: seq<Migration.Entry>)
    requires forall i :: 0 <= i < |words| ==> -DEL_BIT <= words[i]
    ensures |q| == |words| && forall i :: 0 <= i < |words| ==> q[i] == Decode(words[i])
  {
    seq(|words|, i requires 0 <= i < |words| => Decode(words[i]))
  }

  class MigrateData {
    var nextMigrateDocid: int
    var maxFullDocid: int
    var open: bool                 // inc_docid_fd_ >= 0
    var file: seq<int>             // the file as 32-bit words, the header being the first three
    var incFdOffset: int
    var incMigratedOffset: int

    predicate Valid()
      reads this
    {
      && -1 <= nextMigrateDocid
      && (open ==>
            && incFdOffset == DOCID_BYTES * |file|
            && HEADER_BYTES <= incMigratedOffset <= incFdOffset
            && incMigratedOffset % DOCID_BYTES == 0
            && file[2] == incMigratedOffset
            && (nextMigrateDocid >= 0 ==> 0 <= file[0] <= nextMigrateDocid && file[1] == maxFullDocid)
            && forall i :: 3 <= i < |file| ==> -DEL_BIT <= file[i] < DEL_BIT)
    }

    function Queue(): (q: seq<Migration.Entry>)
      requires Valid() && open
      reads this
      ensures |q| == |file| - 3
      ensures forall i :: 0 <= i < |q| ==> q[i] == Decode(file[i + 3])
    {
      Decoded(file[3..])
    }

    function Cursor(): nat
      requires Valid() && open
      reads this
    {
      incMigratedOffset / DOCID_BYTES - 3
    }

    /** Whether a migration is under way. */
    predicate Migrating()
      reads this
    {
      open && nextMigrateDocid >= 0
    }

    constructor ()
      ensures Valid() && !open && nextMigrateDocid == -1 && maxFullDocid == 0
    {
      nextMigrateDocid := -1;
      maxFullDocid := 0;
      open := false;
      file := [];
      incFdOffset := -1;
      incMigratedOffset := -1;
    }

    /** `opens` says whether the queue file could be opened. */
    method Init(opens: bool) returns (status: int)
      requires Valid() && nextMigrateDocid == -1
      modifies this
      ensures Valid() && open == opens && status == if opens then 0 else -1
      ensures open ==> Queue() == [] && Cursor() == 0
      ensures nextMigrateDocid == -1 && maxFullDocid == old(maxFullDocid)
    {
      incFdOffset := HEADER_BYTES;
      incMigratedOffset := incFdOffset;
      open := opens;
      file := [0, 0, incMigratedOffset];
      status := if open then 0 else -1;
    }

    method BeginMigrate(maxDocid: nat) returns (ok: bool)
      requires Valid()
      modifies this
      ensures Valid() && open == old(open) && ok == open
      ensures open ==> nextMigrateDocid == 0 && maxFullDocid == maxDocid
      ensures open ==> Queue() == old(Queue()) && Cursor() == old(Cursor())
      ensures !open ==> nextMigrateDocid == old(nextMigrateDocid) && maxFullDocid == old(maxFullDocid)
    {
      if !open { return false; }
      maxFullDocid := maxDocid;
      nextMigrateDocid := 0;
      file := file[0 := 0][1 := maxDocid];
      return true;
    }

    method TerminateMigrate()
      requires Valid()
      modifies this
      ensures Valid() && !open && !Migrating()
    {
      nextMigrateDocid := -1;
      maxFullDocid := 0;
      open := false;
      incFdOffset := -1;
      incMigratedOffset := -1;
    }

    /** Appends one word at the end of the queue file. */
    method Append(word: int)
      requires Valid() && open && -DEL_BIT <= word < DEL_BIT
      modifies this`file, this`incFdOffset
      ensures Valid()
      ensures Queue() == old(Queue()) + [Decode(word)] && Cursor() == old(Cursor())
    {
      ghost var before := file[3..];
      file := file + [word];
      assert file[3..] == before + [word];
      incFdOffset := incFdOffset + DOCID_BYTES;
    }

    method AddDocid(docid: nat) returns (ok: bool)
      requires Valid() && docid < DEL_BIT
      modifies this`file, this`incFdOffset
      ensures Valid() && ok == open
      ensures open ==> Queue() == old(Queue()) + [Migration.Put(docid)] && Cursor() == old(Cursor())
    {
      if !open { return false; }
      Append(docid);
      return true;
    }

    method DeleteDocid(docid: nat) returns (ok: bool)
      requires Valid() && docid < DEL_BIT
      modifies this`file, this`incFdOffset
      ensures Valid() && ok == open
      ensures open ==> Queue() == old(Queue()) + [Migration.Del(docid)] && Cursor() == old(Cursor())
    {
      if !open { return false; }
      Append(docid - DEL_BIT);
      return true;
    }

    /** The scan under the lock: stops just past the first undeleted docid. */
    method Scan(deleted: set<nat>) returns (ret: bool, docid: int)
      requires Valid() && Migrating()
      modifies this`nextMigrateDocid
      ensures nextMigrateDocid >= old(nextMigrateDocid)
      ensures var d := Migration.ScanTo(old(nextMigrateDocid), ScanLimit(), deleted);
              ret == (d < maxFullDocid) && nextMigrateDocid == (if ret then d + 1 else d) && (ret ==> docid == d)
    {
      ret, docid := false, -1;
      while nextMigrateDocid < maxFullDocid
        invariant old(nextMigrateDocid) <= nextMigrateDocid
        invariant Migration.ScanTo(nextMigrateDocid, ScanLimit(), deleted)
               == Migration.ScanTo(old(nextMigrateDocid), ScanLimit(), deleted)
        invariant !ret
      {
        docid := nextMigrateDocid;
        nextMigrateDocid := nextMigrateDocid + 1;
        if docid !in deleted {
          ret := true;
          break;
        }
      }
    }

    function ScanLimit(): nat
      reads this`maxFullDocid
    {
      if maxFullDocid < 0 then 0 else maxFullDocid
    }

    /** Reads the entry at the cursor and moves past it. */
    method NextWord() returns (word: int)
      requires Valid() && open && incMigratedOffset < incFdOffset
      modifies this`file, this`incMigratedOffset
      ensures Valid() && Queue() == old(Queue()) && Cursor() == old(Cursor()) + 1
      ensures -DEL_BIT <= word < DEL_BIT && Decode(word) == Queue()[old(Cursor())]
    {
      word := file[incMigratedOffset / DOCID_BYTES];
      incMigratedOffset := incMigratedOffset + DOCID_BYTES;
      file := file[2 := incMigratedOffset];
    }

    /**
      `deleted` is the bitmap during the scan under the lock, `later` the bitmap when the
      queue entry has been read back after the lock was released.
     */
    method GetMigrateDocid(deleted: set<nat>, later: set<nat>) returns (ret: bool, docid: int, isDel: bool)
      requires Valid()
      modifies this
      ensures Valid() && open == old(open) && maxFullDocid == old(maxFullDocid)
      ensures !old(Migrating()) ==> !ret && nextMigrateDocid == old(nextMigrateDocid)
      ensures open ==> Queue() == old(Queue())
      ensures open && !old(Migrating()) ==> Cursor() == old(Cursor())
      ensures old(Migrating()) ==> Answers(old(nextMigrateDocid), old(Cursor()), deleted, later, ret, docid, isDel)
      ensures old(Migrating()) && old(Left()) > 0 ==> Left() < old(Left())
    {
      ret, docid, isDel := false, -1, false;
      if !open || nextMigrateDocid < 0 { return; }
      ret, docid := Scan(deleted);
      if ret {
        file := file[0 := nextMigrateDocid];
      } else if incMigratedOffset < incFdOffset {
        var word := NextWord();
        if word < 0 {
          ret, docid, isDel := true, word + DEL_BIT, true;
        } else if word !in later {
          ret, docid := true, word;
        }
      }
    }

    /** Docids still to scan and entries still to read. */
    function Left(): nat
      requires Valid() && Migrating()
      reads this
    {
      (if nextMigrateDocid < maxFullDocid then maxFullDocid - nextMigrateDocid else 0) +
          (|Queue()| - Cursor())
    }

    /** The answer and the new cursors are those of the steps Claim and Read of the protocol. */
    ghost predicate Answers(next: nat, cursor: nat, deleted: set<nat>, later: set<nat>, ret: bool, docid: int,
        isDel: bool)
      requires Valid() && open && cursor <= |Queue()|
      reads this
    {
      var s := Protocol(next, cursor, deleted);
      var s1 := Migration.ClaimState(s);
      var s2 := if s1.caller.Reading? then Migration.ReadState(s1.(deleted := later)) else s1;
      && nextMigrateDocid == s2.next && Cursor() == s2.cursor
      && ret == s2.caller.Picked?
      && (ret ==> docid == s2.caller.d && isDel == s2.caller.isDel)
    }

    /** The cursors as a state of the protocol, before a call. */
    ghost function Protocol(next: nat, cursor: nat, deleted: set<nat>): Migration.State
      requires Valid() && open
      reads this
    {
      Migration.State([], 0, deleted, Migration.Quiet, next, ScanLimit(), Queue(), cursor, Migration.Ready, map[], {})
    }
  }
}
