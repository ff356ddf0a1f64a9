/** bsplitcb, bsplitscb and bsplitstrcb, the lists that bsplit and bsplitstr make of them, and bjoinblk. */
module Splitting {
  import opened Common
  import opened Capacity
  import opened BStrings
  import opened CharFields
  import opened Search
  import opened Replace
  import opened Cutting

  // ---------------------------------------------------------------- the calls made

  lemma Slice(b: ConstString, p: nat, i: nat)
    requires p <= i <= b.slen <= b.data.Length
    ensures b.data[p..i] == Chars(b)[p..i]
  {
    assert forall k :: 0 <= k < b.slen ==> b.data[k] == Chars(b)[k];
  }

  // the inner loop of bsplitcb
  method FindEnd(str: ConstString, splitChar: byte, ghost seps: set<byte>, p: nat) returns (i: nat)
    requires 0 <= str.slen <= str.data.Length && p <= str.slen && seps == {splitChar}
    ensures IsNextSeparator(Chars(str), seps, p, i)
  {
    i := p;
    while i < str.slen && str.data[i] != splitChar
      invariant p <= i <= str.slen && forall k :: p <= k < i ==> str.data[k] != splitChar
    {
      i := i + 1;
    }
  }

  // Its outer loop. Behind the last character of a string of INT_MAX the position wraps around, and the search goes
  // on in front of the buffer.
  method SplitAtChar(str: ConstString, splitChar: byte, ghost seps: set<byte>, pos: CInt)
    returns (rc: int, calls: seq<Call>)
    requires 0 <= str.slen <= str.data.Length && 0 <= pos <= str.slen && seps == {splitChar}
    ensures calls == Cuts(Chars(str), seps, pos)
    ensures rc == if str.slen == INT_MAX then FAULT else OK
  {
    calls := [];
    ghost var s := Chars(str);
    assert Made(calls, s, seps, pos, pos);
    hide Made, IsNextSeparator, Cuts;
    var p := pos;
    ghost var q: nat := p;
    while p <= str.slen
      invariant pos <= q <= str.slen + 1 && p == Wrap(q) && Made(calls, s, seps, pos, q)
      decreases str.slen + 1 - q
    {
      // data[p] is to be read
      if p < 0 {
        MadeAll(calls, s, seps, pos);
        return FAULT, calls;
      }
      var i := FindEnd(str, splitChar, seps, p);
      Slice(str, p, i);
      MadeOneMore(calls, s, seps, pos, p, i, str.data[p..i]);
      calls := calls + [Call(p, str.data[p..i])];
      p, q := Wrap(i + 1), i + 1;
    }
    MadeAll(calls, s, seps, pos);
    return OK, calls;
  }

  // With no separator to look for the whole string is handed over once, wherever the split was to start.
  ghost function SetCuts(s: seq<byte>, seps: seq<byte>, p: nat): seq<Call>
    requires p <= |s|
  {
    if seps == [] then [Call(0, s)] else Cuts(s, CharSet(seps), p)
  }

  // Entry number k is the text from where it starts and holds none of the characters; behind it stands one of them, and
  // behind that the next entry starts, or it ends the text.
  ghost predicate EndsAtOneOf(calls: seq<Call>, s: seq<byte>, seps: seq<byte>, k: nat)
    requires k < |calls|
  {
    var end := calls[k].ofs + |calls[k].entry|;
    && end <= |s| && calls[k].entry == s[calls[k].ofs..end]
    && (forall c :: c in calls[k].entry ==> c !in seps)
    && (if k + 1 < |calls| then end < |s| && s[end] in seps && calls[k + 1].ofs == end + 1 else end == |s|)
  }

  lemma SetCutIs(s: seq<byte>, seps: seq<byte>, p: nat, k: nat)
    requires p <= |s| && seps != [] && k < |SetCuts(s, seps, p)|
    ensures EndsAtOneOf(SetCuts(s, seps, p), s, seps, k)
    ensures k == 0 ==> SetCuts(s, seps, p)[0].ofs == p
  {
    hide Cuts;
    CutIs(s, CharSet(seps), p, k);
  }

  lemma SetCutsMean(s: seq<byte>, seps: seq<byte>, p: nat)
    requires p <= |s| && seps != []
    ensures var calls := SetCuts(s, seps, p);
      |calls| > 0 && calls[0].ofs == p && forall k :: 0 <= k < |calls| ==> EndsAtOneOf(calls, s, seps, k)
  {
    hide Cuts, EndsAtOneOf;
    var calls := SetCuts(s, seps, p);
    assert |calls| > 0;
    SetCutIs(s, seps, p, 0);
    forall k | 0 <= k < |calls| ensures EndsAtOneOf(calls, s, seps, k) {
      SetCutIs(s, seps, p, k);
    }
  }

  /** No entry holds the character, behind every entry but the last it stands, and all of the string from pos on is
      there. For a string of INT_MAX characters what follows the calls is a fault. */
  method BSplitCb(str: ConstString, splitChar: byte, pos: CInt) returns (rc: int, calls: seq<Call>)
    requires 0 <= str.slen <= str.data.Length
    ensures rc == if !(0 <= pos <= str.slen) then ERR else if str.slen == INT_MAX then FAULT else OK
    ensures calls == if rc != ERR then Cuts(Chars(str), {splitChar}, pos) else []
    ensures rc != ERR ==>
      && |calls| > 0 && calls[0].ofs == pos
      && forall k :: 0 <= k < |calls| ==> EndsAtOneOf(calls, Chars(str), [splitChar], k)
  {
    if pos < 0 || pos > str.slen {
      return ERR, [];
    }
    assert CharSet([splitChar]) == {splitChar};
    SetCutsMean(Chars(str), [splitChar], pos);
    hide EndsAtOneOf;
    rc, calls := SplitAtChar(str, splitChar, {splitChar}, pos);
  }

  /** The same for a set of characters: no entry holds one of them, behind every entry but the last stands one of them,
      and all of the string from pos on is there. The whole string, and no fault, for an empty set. */
  method BSplitScb(str: ConstString, splitStr: ConstString, pos: CInt) returns (rc: int, calls: seq<Call>)
    requires 0 <= str.slen <= str.data.Length && splitStr.slen <= splitStr.data.Length
    ensures rc == if !(0 <= pos <= str.slen) || splitStr.slen < 0 then ERR
                  else if str.slen == INT_MAX && splitStr.slen > 0 then FAULT else OK
    ensures calls == if rc != ERR then SetCuts(Chars(str), Chars(splitStr), pos) else []
    ensures rc != ERR && splitStr.slen == 0 ==> calls == [Call(0, Chars(str))]
    ensures rc != ERR && splitStr.slen > 0 ==>
      && |calls| > 0 && calls[0].ofs == pos
      && forall k :: 0 <= k < |calls| ==> EndsAtOneOf(calls, Chars(str), Chars(splitStr), k)
  {
    calls := [];
    if pos < 0 || pos > str.slen || splitStr.slen < 0 {
      return ERR, calls;
    }
    if splitStr.slen == 0 {
      return OK, [Call(0, str.data[0..str.slen])];
    }
    ghost var seps := CharSet(Chars(splitStr));
    SetCutsMean(Chars(str), Chars(splitStr), pos);
    hide EndsAtOneOf;
    if splitStr.slen == 1 {
      assert seps == {splitStr.data[0]};
      rc, calls := BSplitCb(str, splitStr.data[0], pos);
      return;
    }
    var chrs := new bv8[CFCLEN];
    var built := BuildCharField(chrs, splitStr);
    rc, calls := SplitAtSet(str, chrs, seps, pos);
  }

  // the inner loop of bsplitscb
  method FindEndInSet(str: ConstString, chrs: array<bv8>, ghost seps: set<byte>, p: nat) returns (i: nat)
    requires 0 <= str.slen <= str.data.Length && p <= str.slen && Holds(chrs[..], seps)
    ensures IsNextSeparator(Chars(str), seps, p, i)
  {
    var found := BInChrCF(str, p, chrs, seps);
    i := if found == ERR then str.slen else found;
  }

  method SplitAtSet(str: ConstString, chrs: array<bv8>, ghost seps: set<byte>, pos: CInt)
    returns (rc: int, calls: seq<Call>)
    requires 0 <= str.slen <= str.data.Length && 0 <= pos <= str.slen && Holds(chrs[..], seps)
    ensures calls == Cuts(Chars(str), seps, pos)
    ensures rc == if str.slen == INT_MAX then FAULT else OK
  {
    calls := [];
    ghost var s := Chars(str);
    assert Made(calls, s, seps, pos, pos);
    hide Made, IsNextSeparator, Cuts;
    var p := pos;
    ghost var q: nat := p;
    while p <= str.slen
      invariant pos <= q <= str.slen + 1 && p == Wrap(q) && Made(calls, s, seps, pos, q)
      decreases str.slen + 1 - q
    {
      // data[p] is to be read
      if p < 0 {
        MadeAll(calls, s, seps, pos);
        return FAULT, calls;
      }
      var i := FindEndInSet(str, chrs, seps, p);
      Slice(str, p, i);
      MadeOneMore(calls, s, seps, pos, p, i, str.data[p..i]);
      calls := calls + [Call(p, str.data[p..i])];
      p, q := Wrap(i + 1), i + 1;
    }
    MadeAll(calls, s, seps, pos);
    return OK, calls;
  }

  // The string, of n characters, ends with a separator that was found.
  ghost predicate EndsCut(calls: seq<Call>, n: int) {
    |calls| > 1 && calls[|calls| - 1].ofs == n
  }

  /** The calls are those of the cut, with its special cases for lengths 0 and 1. In a string of INT_MAX characters a
      separator at the very end makes the position wrap around before the last call is made. */
  method BSplitStrCb(str: ConstString, splitStr: ConstString, pos: CInt) returns (rc: int, calls: seq<Call>)
    requires 0 <= str.slen <= str.data.Length && splitStr.slen <= splitStr.data.Length
    ensures rc == ERR <==> !(0 <= pos <= str.slen) || splitStr.slen < 0
    ensures rc == ERR ==> calls == []
    ensures rc != ERR ==>
      var all := AllStringCuts(Chars(str), Chars(splitStr), pos);
      var endsCut := |all| > 1 && all[|all| - 1].ofs == str.slen;
      && rc == (if str.slen == INT_MAX && (splitStr.slen == 1 || (splitStr.slen > 1 && endsCut)) then FAULT else OK)
      && calls == if rc == FAULT && splitStr.slen > 1 then all[..|all| - 1] else all
  {
    calls := [];
    if pos < 0 || pos > str.slen || splitStr.slen < 0 {
      return ERR, calls;
    }
    if splitStr.slen == 0 {
      calls := SplitAll(str, pos);
      return OK, calls;
    }
    if splitStr.slen == 1 {
      rc, calls := BSplitCb(str, splitStr.data[0], pos);
      return;
    }
    rc, calls := SplitAtString(str, splitStr, pos);
  }

  method SplitAll(str: ConstString, pos: nat) returns (calls: seq<Call>)
    requires 0 <= str.slen <= str.data.Length && pos <= str.slen
    ensures calls == Singles(Chars(str), pos)
  {
    hide Singles;
    calls := [];
    ghost var s := Chars(str);
    for i := pos to str.slen
      invariant |calls| == i - pos && forall k :: 0 <= k < |calls| ==> calls[k] == Call(pos + k, [s[pos + k]])
    {
      calls := calls + [Call(i, [str.data[i]])];
    }
  }

  // memcmp: does b0 stand at i in b1?
  method MemCmp(b0: ConstString, b1: ConstString, i: nat) returns (same: bool)
    requires 0 <= b0.slen <= b0.data.Length && b1.slen <= b1.data.Length && i + b0.slen <= b1.slen
    ensures same <==> MatchAt(Chars(b1), i, Chars(b0))
  {
    Slice(b1, i, i + b0.slen);
    same := b0.data[..b0.slen] == b1.data[i..i + b0.slen];
  }

  method SplitAtString(str: ConstString, splitStr: ConstString, pos: CInt) returns (rc: int, calls: seq<Call>)
    requires 0 <= str.slen <= str.data.Length && 0 <= pos <= str.slen
    requires 0 < splitStr.slen <= splitStr.data.Length
    ensures var all := StringCuts(Chars(str), Chars(splitStr), pos, pos);
      && rc == (if str.slen == INT_MAX && EndsCut(all, str.slen) then FAULT else OK)
      && calls == if rc == FAULT then all[..|all| - 1] else all
  {
    hide StringCuts, FirstFrom, StringAhead;
    calls := [];
    ghost var s, sep := Chars(str), Chars(splitStr);
    ghost var all := StringCuts(s, sep, pos, pos);
    NoneMadeYet(s, sep, pos);
    var k := splitStr.slen;
    var i, p := pos, pos;
    ghost var from: nat := pos;
    while i <= str.slen - k
      invariant pos <= p <= str.slen && p <= from <= str.slen + 1 && StringAhead(all, calls, s, sep, p, from)
      invariant if i < 0 then p == str.slen == INT_MAX && from == INT_MAX + 1 && calls != [] && k <= str.slen
                else from <= i && (p == INT_MAX ==> calls == [])
      invariant forall x {:trigger MatchAt(s, x, sep)} :: from <= x < i ==> !MatchAt(s, x, sep)
      decreases str.slen + 1 - from, i >= 0, str.slen - i
    {
      // data[i] is to be read
      if i < 0 {
        LastStringCall(all, calls, s, sep, p, from, []);
        assert all[..|all| - 1] == calls;
        return FAULT, calls;
      }
      var same := MemCmp(splitStr, str, i);
      if same {
        Slice(str, p, i);
        OneStringCallMore(all, calls, s, sep, p, from, i, str.data[p..i]);
        calls := calls + [Call(p, str.data[p..i])];
        i := i + k;
        p := i;
        from := i + 1;
      }
      i := Wrap(i + 1);
    }
    Slice(str, p, str.slen);
    LastStringCall(all, calls, s, sep, p, from, str.data[p..str.slen]);
    calls := calls + [Call(p, str.data[p..str.slen])];
    return OK, calls;
  }

  // ---------------------------------------------------------------- lists

  // struct bstrList, its entries as texts
  class BStrList {
    var entry: array<seq<byte>>
    var qty: CInt
    var mlen: CInt
    ghost var doublings: nat

    constructor ()
      ensures Valid() && Texts() == [] && fresh(entry)
    {
      mlen, qty, doublings := 4, 0, 2;
      entry := new seq<byte>[4];
      assert Pow2(2) == 2 * Pow2(1) == 4;
    }

    ghost predicate Valid()
      reads this
    {
      0 <= qty <= mlen == Pow2(doublings) <= HALF_RANGE && 0 < mlen <= entry.Length
    }

    ghost function Texts(): (r: seq<seq<byte>>)
      requires Valid()
      reads this, entry
      ensures |r| == qty
    {
      entry[..qty]
    }

    /** bscb: the next entry, in a table twice as large when it is full. The size of the table is an int, so that
        a full table of 2^30 entries cannot be doubled, and the entry is refused. A copy of INT_MAX characters is made
        in a block of eight (bmidstr, blk2bstr). */
    method Add(text: seq<byte>) returns (rc: int)
      requires Valid()
      modifies this, entry
      ensures Valid() && (entry == old(entry) || fresh(entry))
      ensures rc == if old(qty) >= HALF_RANGE then ERR else if |text| >= INT_MAX then FAULT else OK
      ensures Texts() == if rc == OK then old(Texts()) + [text] else old(Texts())
    {
      if qty >= mlen {
        rc := Double();
        if rc != OK {
          return;
        }
      }
      if |text| >= INT_MAX {
        return FAULT;
      }
      entry[qty] := text;
      qty := qty + 1;
      assert entry[..qty] == entry[..qty - 1] + [text];
      return OK;
    }

    method Double() returns (rc: int)
      requires Valid() && qty == mlen
      modifies this`entry, this`mlen, this`doublings
      ensures Valid() && Texts() == old(Texts()) && qty == old(qty) && (entry == old(entry) || fresh(entry))
      ensures rc == if qty < HALF_RANGE then OK else ERR
      ensures rc == OK ==> qty < mlen
    {
      var larger := Wrap(mlen * 2);
      if qty >= larger {
        // the loop that doubles further is entered only when the product has wrapped around
        return ERR;
      }
      NextDoubling(doublings);
      var tbl := new seq<byte>[larger];
      forall k | 0 <= k < qty {
        tbl[k] := entry[k];
      }
      assert tbl[..qty] == entry[..qty];
      entry, mlen, doublings := tbl, larger, doublings + 1;
      return OK;
    }
  }

  lemma NextDoubling(k: nat)
    requires Pow2(k) < HALF_RANGE
    ensures Pow2(k + 1) == 2 * Pow2(k) <= HALF_RANGE
  {
    Pow2Values();
    if k >= 30 {
      Pow2Monotone(30, k);
    } else {
      Pow2Monotone(k + 1, 30);
    }
  }

  // One of the first 2^30 entries cannot be copied.
  ghost predicate TooLong(calls: seq<Call>) {
    exists k :: 0 <= k < |calls| && k < HALF_RANGE && |calls[k].entry| >= INT_MAX
  }

  // The list of the entries, added one by one.
  method ListOf(calls: seq<Call>) returns (rc: int, r: Option<BStrList>)
    ensures rc == if TooLong(calls) then FAULT else if |calls| > HALF_RANGE then ERR else OK
    ensures r.Some? <==> rc == OK
    ensures r.Some? ==> fresh(r.value) && r.value.Valid() && r.value.Texts() == Entries(calls)
  {
    var bl := new BStrList();
    for i := 0 to |calls|
      invariant fresh(bl) && fresh(bl.entry) && bl.Valid() && bl.qty == i
      invariant bl.Texts() == Entries(calls[..i])
      invariant forall k :: 0 <= k < i ==> |calls[k].entry| < INT_MAX
    {
      EntriesSnoc(calls[..i], calls[i]);
      assert calls[..i + 1] == calls[..i] + [calls[i]];
      rc := bl.Add(calls[i].entry);
      if rc < 0 {
        return rc, None;
      }
    }
    assert calls[..|calls|] == calls;
    return OK, Some(bl);
  }

  lemma {:induction false} EntriesSnoc(calls: seq<Call>, call: Call)
    ensures Entries(calls + [call]) == Entries(calls) + [call.entry]
    decreases |calls|
  {
    if calls == [] {
      assert [call][1..] == [] && calls + [call] == [call];
    } else {
      EntriesSnoc(calls[1..], call);
      assert (calls + [call])[1..] == calls[1..] + [call];
    }
  }

  /** A list that joined with the character gives the string back; one entry more than the character occurs in
      it, none containing it. It is refused exactly when the character occurs 2^30 times or more; otherwise a string
      of INT_MAX characters is a fault. */
  method BSplit(str: ConstString, splitChar: byte) returns (rc: int, r: Option<BStrList>)
    requires 0 <= str.slen <= str.data.Length
    ensures rc == if Count(Chars(str), splitChar) >= HALF_RANGE then ERR
                  else if str.slen == INT_MAX then FAULT else OK
    ensures r.Some? <==> rc == OK
    ensures r.Some? ==> fresh(r.value) && r.value.Valid()
    ensures r.Some? ==> r.value.Texts() == CutEntries(Chars(str), {splitChar}, 0)
    ensures r.Some? ==> Joined(r.value.Texts(), [splitChar]) == Chars(str)
    ensures r.Some? ==> r.value.qty == Count(Chars(str), splitChar) + 1
  {
    ghost var s := Chars(str);
    var done, calls := BSplitCb(str, splitChar, 0);
    CutsRejoin(s, splitChar, 0);
    CutsAreClean(s, splitChar, 0);
    EntriesAre(calls);
    assert s[0..] == s;
    LongEntryIsAlone(s, [splitChar], calls);
    rc, r := ListOf(calls);
    // every call is made before the splitting goes on behind it
    if rc == OK && done == FAULT {
      return FAULT, None;
    }
  }

  lemma {:induction false} EntriesAre(calls: seq<Call>)
    ensures |Entries(calls)| == |calls|
    ensures forall k :: 0 <= k < |calls| ==> Entries(calls)[k] == calls[k].entry
  {
    if calls != [] {
      EntriesAre(calls[1..]);
    }
  }

  // The text of a list is at least as long as one of its entries and m for every other one.
  lemma {:induction false} JoinedAtLeast(entries: seq<seq<byte>>, sep: seq<byte>, k: nat, m: nat)
    requires k < |entries| && m <= |sep|
    ensures |entries[k]| + (|entries| - 1) * m <= |Joined(entries, sep)|
    decreases |entries|
  {
    if |entries| > 1 {
      JoinedAtLeast(entries[1..], sep, if k == 0 then 0 else k - 1, m);
      assert (|entries| - 1) * m == (|entries[1..]| - 1) * m + m;
    }
  }

  lemma LongEntryIsAlone(s: seq<byte>, sep: seq<byte>, calls: seq<Call>)
    requires |s| <= INT_MAX && sep != [] && Joined(Entries(calls), sep) == s
    ensures TooLong(calls) ==> |calls| == 1 && |s| == INT_MAX
  {
    EntriesAre(calls);
    if TooLong(calls) {
      var k :| 0 <= k < |calls| && k < HALF_RANGE && |calls[k].entry| >= INT_MAX;
      JoinedAtLeast(Entries(calls), sep, k, 1);
    }
  }

  /** Joined with the substring, also with an empty one, the list gives the string back. It is refused exactly for an
      invalid substring and for more than 2^30 entries. */
  method BSplitStr(str: ConstString, splitStr: ConstString) returns (rc: int, r: Option<BStrList>)
    requires 0 <= str.slen <= str.data.Length && splitStr.slen <= splitStr.data.Length
    ensures rc == OK || rc == ERR || rc == FAULT
    ensures rc == ERR <==> splitStr.slen < 0 || |AllStringCuts(Chars(str), Chars(splitStr), 0)| > HALF_RANGE
    ensures rc != ERR ==>
      var all := AllStringCuts(Chars(str), Chars(splitStr), 0);
      (rc == FAULT <==> && str.slen == INT_MAX && splitStr.slen >= 1
                        && (splitStr.slen == 1 || |all| == 1 || all[|all| - 1].ofs == str.slen))
    ensures r.Some? <==> rc == OK
    ensures r.Some? ==> fresh(r.value) && r.value.Valid()
    ensures r.Some? ==> r.value.Texts() == Entries(AllStringCuts(Chars(str), Chars(splitStr), 0))
    ensures r.Some? ==> Joined(r.value.Texts(), Chars(splitStr)) == Chars(str)
  {
    var done, calls := BSplitStrCb(str, splitStr, 0);
    if done == ERR {
      return ERR, None;
    }
    AllStringCutsRejoin(Chars(str), Chars(splitStr));
    CallsFit(Chars(str), Chars(splitStr), calls);
    rc, r := ListOf(calls);
    if rc == OK && done == FAULT {
      return FAULT, None;
    }
  }

  // Whether an entry cannot be copied, when all calls are made and when all but the last are.
  lemma CallsFit(s: seq<byte>, sep: seq<byte>, calls: seq<Call>)
    requires |s| <= INT_MAX
    requires var all := AllStringCuts(s, sep, 0);
      calls == all || (|sep| > 1 && EndsCut(all, |s|) && calls == all[..|all| - 1])
    ensures var all := AllStringCuts(s, sep, 0);
      && (TooLong(calls) <==> |s| == INT_MAX && sep != [] && |all| == 1)
      && (|sep| > 1 ==> |all| <= HALF_RANGE)
  {
    var all := AllStringCuts(s, sep, 0);
    AllStringCutsRejoin(s, sep);
    EntriesAre(all);
    if sep == [] {
      SinglesAreShort(s, 0);
    } else {
      LongEntryIsAlone(s, sep, all);
      if |all| == 1 {
        assert all[0].entry == Entries(all)[0] == s;
      }
      if |sep| > 1 {
        JoinedAtLeast(Entries(all), sep, 0, 2);
      }
    }
  }

  lemma {:induction false} SinglesAreShort(s: seq<byte>, p: nat)
    requires p <= |s|
    ensures forall call :: call in Singles(s, p) ==> |call.entry| == 1
    decreases |s| - p
  {
    if p < |s| {
      SinglesAreShort(s, p + 1);
    }
  }

  lemma AllStringCutsRejoin(s: seq<byte>, sep: seq<byte>)
    ensures Joined(Entries(AllStringCuts(s, sep, 0)), sep) == s
  {
    assert s[0..] == s;
    if sep == [] {
      SinglesRejoin(s, 0);
    } else if |sep| == 1 {
      assert sep == [sep[0]];
      CutsRejoin(s, sep[0], 0);
    } else {
      StringCutsRejoin(s, sep, 0, 0);
    }
  }
}
