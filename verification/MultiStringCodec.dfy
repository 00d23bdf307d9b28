/**
  A column of string lists (field_column_data.cc): a count byte, one length byte for each string,
  then the strings end to end.
 */
module MultiStringCodec {
  import opened FileBytes

  type Strings = seq<Bytes>

  const STR_LEN_LIMIT := 0x1_0000   // str_len_t is 16 bits wide

  // ----- The format -----

  /** What `Put` accepts. */
  predicate Encodable(strs: Strings) {
    1 <= |strs| <= 255 && forall i :: 0 <= i < |strs| ==> |strs[i]| <= 255
  }

  function Joined(strs: Strings): Bytes {
    if strs == [] then [] else Joined(strs[..|strs| - 1]) + strs[|strs| - 1]
  }

  function Lengths(strs: Strings): (r: Bytes)
    requires forall i :: 0 <= i < |strs| ==> |strs[i]| <= 255
    ensures |r| == |strs| && forall i :: 0 <= i < |strs| ==> r[i] == |strs[i]|
  {
    seq(|strs|, i requires 0 <= i < |strs| => |strs[i]|)
  }

  function Encoding(strs: Strings): (r: Bytes)
    requires Encodable(strs)
    ensures |r| == 1 + |strs| + |Joined(strs)|
  {
    [|strs|] + Lengths(strs) + Joined(strs)
  }

  predicate AllEmpty(strs: Strings) {
    forall i :: 0 <= i < |strs| ==> strs[i] == []
  }

  lemma {:induction false} JoinedSize(strs: Strings)
    requires forall i :: 0 <= i < |strs| ==> |strs[i]| <= 255
    ensures |Joined(strs)| <= 255 * |strs|
    ensures Joined(strs) == [] <==> AllEmpty(strs)
  {
    if strs != [] {
      var init := strs[..|strs| - 1];
      JoinedSize(init);
      assert AllEmpty(strs) <==> AllEmpty(init) && strs[|strs| - 1] == [] by {
        assert forall i :: 0 <= i < |init| ==> init[i] == strs[i];
      }
    }
  }

  /** The encoded length always fits its 16-bit field. */
  lemma EncodingFits(strs: Strings)
    requires Encodable(strs)
    ensures |Encoding(strs)| <= 1 + 255 + 255 * 255 < STR_LEN_LIMIT
  {
    JoinedSize(strs);
  }

  lemma {:induction false} JoinedTake(strs: Strings, i: nat)
    requires i <= |strs|
    ensures Joined(strs[..i]) <= Joined(strs)
    decreases |strs|
  {
    if i < |strs| {
      JoinedTake(strs[..|strs| - 1], i);
      assert strs[..|strs| - 1][..i] == strs[..i];
    } else {
      assert strs[..i] == strs;
    }
  }

  lemma JoinedNext(strs: Strings, i: nat)
    requires i < |strs|
    ensures Joined(strs[..i + 1]) == Joined(strs[..i]) + strs[i]
  {
    assert strs[..i + 1][..i] == strs[..i];
  }

  /** Where string `i` is in the encoding. */
  lemma StringAt(strs: Strings, i: nat)
    requires Encodable(strs) && i < |strs|
    ensures var at := 1 + |strs| + |Joined(strs[..i])|;
            at + |strs[i]| <= |Encoding(strs)| && Encoding(strs)[at..at + |strs[i]|] == strs[i]
    ensures Encoding(strs)[1 + i] == |strs[i]|
  {
    JoinedTake(strs, i + 1);
    JoinedNext(strs, i);
    var e, head, before := Encoding(strs), 1 + |strs|, Joined(strs[..i]);
    assert e[head..] == Joined(strs);
    assert Joined(strs)[..|before| + |strs[i]|] == before + strs[i];
    assert e[head..][|before|..|before| + |strs[i]|] == strs[i];
  }

  /** Different lists have different encodings. */
  lemma EncodingInjective(a: Strings, b: Strings)
    requires Encodable(a) && Encodable(b) && Encoding(a) == Encoding(b)
    ensures a == b
  {
    assert |a| == Encoding(a)[0] == Encoding(b)[0] == |b|;
    PrefixesAgree(a, b, |a|);
    assert a[..|a|] == a && b[..|b|] == b;
  }

  lemma {:induction false} PrefixesAgree(a: Strings, b: Strings, n: nat)
    requires Encodable(a) && Encodable(b) && Encoding(a) == Encoding(b) && n <= |a| == |b|
    ensures a[..n] == b[..n]
    decreases n
  {
    if n > 0 {
      PrefixesAgree(a, b, n - 1);
      StringAt(a, n - 1);
      StringAt(b, n - 1);
      assert a[..n] == a[..n - 1] + [a[n - 1]] && b[..n] == b[..n - 1] + [b[n - 1]];
    }
  }

  // ----- The column -----

  class MultiStrColumn {
    var rows: seq<Bytes>
    ghost var lists: seq<Strings>

    ghost predicate Valid()
      reads this
    {
      |rows| == |lists| && forall i :: 0 <= i < |rows| ==> Encodable(lists[i]) && rows[i] == Encoding(lists[i])
    }

    constructor ()
      ensures Valid() && lists == []
    {
      rows, lists := [], [];
    }

    /** The count byte and the length bytes; -2 when a string is too long. */
    method LengthBytes(strs: Strings) returns (ret: int, mulStrs: Bytes, total: nat)
      requires |strs| <= 255
      ensures ret == if forall i :: 0 <= i < |strs| ==> |strs[i]| <= 255 then 0 else -2
      ensures ret == 0 ==> mulStrs == [|strs|] + Lengths(strs) && total == |Joined(strs)|
    {
      ret, mulStrs, total := 0, [|strs|], 0;
      for i := 0 to |strs|
        invariant ret == 0 && forall k :: 0 <= k < i ==> |strs[k]| <= 255
        invariant |mulStrs| == 1 + i && mulStrs[0] == |strs| && forall k :: 0 <= k < i ==>
                  mulStrs[k + 1] == |strs[k]|
        invariant total == |Joined(strs[..i])|
      {
        if |strs[i]| > 255 {
          ret := -2;
          return;
        }
        JoinedNext(strs, i);
        mulStrs := mulStrs + [|strs[i]|];
        total := total + |strs[i]|;
      }
      assert strs[..|strs|] == strs;
    }

    /** Copies the strings behind the length bytes. */
    method FillBuffer(strs: Strings, mulStrs: Bytes, mulBuf: array<Byte>)
      requires Encodable(strs) && mulStrs == [|strs|] + Lengths(strs) && mulBuf.Length == 1 + |strs| + |Joined(strs)|
      modifies mulBuf
      ensures mulBuf[..] == Encoding(strs)
    {
      CopyString(mulStrs, mulBuf, 0);
      assert strs[..0] == [] && Joined(strs[..0]) == [];
      assert Encoding(strs) == mulStrs + Joined(strs);
      hide Encoding, Joined, Lengths;
      var accStrBytes := 0;
      ghost var done := mulStrs;
      for i := 0 to |strs|
        invariant accStrBytes == |Joined(strs[..i])| <= |Joined(strs)|
        invariant done == mulStrs + Joined(strs[..i]) && |done| == 1 + |strs| + accStrBytes
        invariant |done| <= mulBuf.Length && mulBuf[..|done|] == done
      {
        JoinedNext(strs, i);
        JoinedTake(strs, i + 1);
        CopyString(strs[i], mulBuf, 1 + |strs| + accStrBytes);
        done := done + strs[i];
        accStrBytes := accStrBytes + |strs[i]|;
      }
      assert strs[..|strs|] == strs;
    }

    method CopyString(str: Bytes, buf: array<Byte>, at: nat)
      requires at + |str| <= buf.Length
      modifies buf
      ensures buf[..at + |str|] == old(buf[..at]) + str
    {
      for k := 0 to |str|
        invariant buf[..at + k] == old(buf[..at]) + str[..k]
      {
        buf[at + k] := str[k];
      }
    }

    /** Appends one row; an empty list is accepted but adds no row. */
    method Put(strs: Strings) returns (ret: int)
      requires Valid()
      modifies this
      ensures Valid()
      ensures ret == if |strs| > 255 then -1 else if forall i :: 0 <= i < |strs| ==> |strs[i]| <= 255 then 0 else -2
      ensures lists == if Encodable(strs) then old(lists) + [strs] else old(lists)
    {
      if |strs| == 0 {
        return 0;
      }
      if |strs| > 255 {
        return -1;
      }
      var mulStrs, total;
      ret, mulStrs, total := LengthBytes(strs);
      if ret != 0 {
        return;
      }
      var mulBuf := new Byte[|strs| + 1 + total](_ => 0);
      FillBuffer(strs, mulStrs, mulBuf);
      EncodingFits(strs);
      rows := rows + [mulBuf[..]];
      lists := lists + [strs];
    }

    /** Appends the row's strings to a field: exactly a list with some non-empty string comes back. */
    method Get(id: nat, field: Strings) returns (ret: int, mulStrValue: Strings)
      requires Valid()
      ensures ret == if id >= |lists| then -1 else if !AllEmpty(lists[id]) then 0 else if |lists[id]| == 1
              then -2 else -3
      ensures mulStrValue == if ret == 0 then field + lists[id] else field
    {
      ret, mulStrValue := 0, field;
      if id >= |rows| {
        return -1, field;
      }
      ghost var strs := lists[id];
      var mulStrs := rows[id];
      JoinedSize(strs);
      if |mulStrs| <= 2 {
        return -2, field;
      }
      var strsCount: nat := mulStrs[0];
      if |mulStrs| <= strsCount + 1 {
        return -3, field;
      }
      var accBytes: nat := 0;
      assert strs[..0] == [];
      for i := 0 to strsCount
        invariant ret == 0 && accBytes == |Joined(strs[..i])| && mulStrValue == field + strs[..i]
      {
        StringAt(strs, i);
        JoinedNext(strs, i);
        var strLen: nat := mulStrs[1 + i];
        mulStrValue := mulStrValue + [mulStrs[1 + strsCount + accBytes..1 + strsCount + accBytes + strLen]];
        accBytes := accBytes + strLen;
      }
      assert strs[..|strs|] == strs;
    }
  }
}
