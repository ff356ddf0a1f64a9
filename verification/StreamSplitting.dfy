/** bssplitscb: splitting a stream while it is read, with over-reads pushed back at every separator. */
module StreamSplitting {
  import opened Capacity
  import opened BStrings
  import opened CharFields
  import opened Cutting
  import opened Splitting
  import opened Streams

  const BSSSC_BUFF_LEN := 256

  // The entry being read, at p in the whole stream, has b so far and goes on in s; it has been searched up to i.
  ghost predicate Reading(s: BStream, b: BString, whole: seq<byte>, seps: set<byte>, p: nat, i: nat)
    reads s, s.buff, s.buff.data, b, b.data
  {
    && s.Valid() && s.Apart(b) && b.Writable()
    && p <= |whole| && whole[p..] == b.Text() + s.Pending()
    && i <= b.slen && Clear(b.Text(), seps, i)
  }

  lemma MovedTogether(text: seq<byte>, stream: seq<byte>, textAfter: seq<byte>, streamAfter: seq<byte>)
    requires Moved(text, stream, textAfter, streamAfter)
    ensures textAfter + streamAfter == text + stream && text <= textAfter
    ensures |textAfter| == |text| ==> streamAfter == stream
  {
    var k := |textAfter| - |text|;
    assert stream == stream[..k] + stream[k..];
    assert text + stream[..k] + stream[k..] == text + (stream[..k] + stream[k..]);
  }

  method ReadMore(s: BStream, b: BString, ghost whole: seq<byte>, ghost seps: set<byte>, ghost p: nat, i: nat)
    requires Reading(s, b, whole, seps, p, i) && |whole| + BSSSC_BUFF_LEN < INT_MAX && s.maxBuffSz < INT_MAX
    modifies s`core, s`isEOF, s.buff, s.buff.data, b, b.data
    ensures Reading(s, b, whole, seps, p, i)
    ensures s.buff.data == old(s.buff.data) || fresh(s.buff.data)
    ensures b.data == old(b.data) || fresh(b.data)
    ensures b.slen >= old(b.slen) && (b.slen == old(b.slen) ==> s.Pending() == [])
  {
    ghost var text, stream := b.Text(), s.Pending();
    assert |text| + |stream| <= |whole|;
    var _ := s.BSReadA(b, BSSSC_BUFF_LEN);
    MovedTogether(text, stream, b.Text(), s.Pending());
    assert forall k :: 0 <= k < i ==> b.Text()[k] == text[k];
  }

  // Is there a character at i, if need be after reading more?
  method HaveNext(s: BStream, b: BString, ghost whole: seq<byte>, ghost seps: set<byte>, ghost p: nat, i: nat)
      returns (there: bool)
    requires Reading(s, b, whole, seps, p, i) && |whole| + BSSSC_BUFF_LEN < INT_MAX && s.maxBuffSz < INT_MAX
    modifies s`core, s`isEOF, s.buff, s.buff.data, b, b.data
    ensures Reading(s, b, whole, seps, p, i)
    ensures s.buff.data == old(s.buff.data) || fresh(s.buff.data)
    ensures b.data == old(b.data) || fresh(b.data)
    ensures if there then i < b.slen else i == b.slen && s.Pending() == []
  {
    if i >= b.slen {
      ReadMore(s, b, whole, seps, p, i);
    }
    there := i < b.slen;
  }

  // A separator at i: what was read beyond it goes back to the stream, and the next entry starts afresh.
  method EndEntry(s: BStream, b: BString, ghost whole: seq<byte>, ghost seps: set<byte>, ghost p: nat, i: nat)
      returns (entry: seq<byte>)
    requires Reading(s, b, whole, seps, p, i) && |whole| < INT_MAX && i < b.slen && b.data[i] in seps
    modifies s.buff, s.buff.data, b, b.data
    ensures p + i + 1 <= |whole| && Reading(s, b, whole, seps, p + i + 1, 0) && b.slen == 0
    ensures s.buff.data == old(s.buff.data) || fresh(s.buff.data)
    ensures b.data == old(b.data)
    ensures IsNextSeparator(whole, seps, p, p + i) && p + i < |whole| && entry == whole[p..p + i]
  {
    ghost var text, stream := b.Text(), s.Pending();
    SeparatorInEntry(whole, seps, p, i, text, stream);
    // blk2tbstr: a view of what follows, here as a copy
    var n := b.slen - (i + 1);
    var t := new byte[n];
    MemCopy(t, 0, b.data, i + 1, n);
    assert t[..n] == text[i + 1..];
    var _ := s.BSUnRead(ConstString(t, n));
    b.slen := i;
    var c := b.data[i];
    b.data[i] := 0;
    entry := b.data[..i];
    assert entry == text[..i];
    b.data[i] := c;
    b.slen := 0;
    assert b.Text() == [] && s.Pending() == text[i + 1..] + stream;
  }

  lemma SeparatorInEntry(whole: seq<byte>, seps: set<byte>, p: nat, i: nat, text: seq<byte>, stream: seq<byte>)
    requires p <= |whole| && whole[p..] == text + stream
    requires i < |text| && Clear(text, seps, i) && text[i] in seps
    ensures p + i < |whole| && IsNextSeparator(whole, seps, p, p + i) && whole[p..p + i] == text[..i]
    ensures whole[p + i + 1..] == [] + (text[i + 1..] + stream)
  {
    var rest := whole[p..];
    assert forall k :: p <= k < p + |text| ==> whole[k] == rest[k - p] == text[k - p];
  }

  lemma NoneLeft(whole: seq<byte>, seps: set<byte>, p: nat, text: seq<byte>)
    requires p <= |whole| && whole[p..] == text + [] && Clear(text, seps, |text|)
    ensures IsNextSeparator(whole, seps, p, |whole|) && text == whole[p..|whole|]
  {
    assert forall k :: p <= k < |whole| ==> whole[k] == text[k - p];
  }

  method LastEntry(s: BStream, b: BString, ghost whole: seq<byte>, ghost seps: set<byte>, ghost p: nat, ghost i: nat)
      returns (entry: seq<byte>)
    requires Reading(s, b, whole, seps, p, i) && i >= b.slen && s.Pending() == []
    ensures IsNextSeparator(whole, seps, p, |whole|) && entry == whole[p..|whole|]
  {
    NoneLeft(whole, seps, p, b.Text());
    return b.data[..b.slen];
  }

  method TestNext(s: BStream, b: BString, ghost whole: seq<byte>, ghost seps: set<byte>, ghost p: nat, i: nat,
                  field: seq<bv8>)
      returns (found: bool)
    requires Reading(s, b, whole, seps, p, i) && i < b.slen && Holds(field, seps)
    ensures p + i < |whole|
    ensures if found then b.data[i] in seps else Reading(s, b, whole, seps, p, i + 1)
  {
    assert |whole[p..]| >= b.slen;
    found := TestInCharField(field, b.data[i]);
    assert b.Text()[i] == b.data[i];
  }

  // One round of the loop.
  method Advance(s: BStream, b: BString, field: seq<bv8>, p: nat, i: nat, calls: seq<Call>,
                 ghost whole: seq<byte>, ghost seps: set<byte>)
      returns (more: seq<Call>, nextP: nat, nextI: nat, done: bool)
    requires Reading(s, b, whole, seps, p, i) && Holds(field, seps) && Made(calls, whole, seps, 0, p)
    requires |whole| + BSSSC_BUFF_LEN < INT_MAX && s.maxBuffSz < INT_MAX
    modifies s`core, s`isEOF, s.buff, s.buff.data, b, b.data
    ensures s.buff.data == old(s.buff.data) || fresh(s.buff.data)
    ensures b.data == old(b.data) || fresh(b.data)
    ensures done ==> Made(more, whole, seps, 0, |whole| + 1) && s.Valid() && s.Pending() == []
    ensures !done ==> Reading(s, b, whole, seps, nextP, nextI) && Made(more, whole, seps, 0, nextP)
    ensures !done ==> p < nextP <= |whole| || (p == nextP && i < nextI <= |whole| - p)
  {
    hide Made, IsNextSeparator;
    var there := HaveNext(s, b, whole, seps, p, i);
    if !there {
      var entry := LastEntry(s, b, whole, seps, p, i);
      MadeOneMore(calls, whole, seps, 0, p, |whole|, entry);
      return calls + [Call(p, entry)], p, i, true;
    }
    var found := TestNext(s, b, whole, seps, p, i, field);
    if found {
      var entry := EndEntry(s, b, whole, seps, p, i);
      MadeOneMore(calls, whole, seps, 0, p, p + i, entry);
      return calls + [Call(p, entry)], p + i + 1, 0, false;
    }
    return calls, p, i + 1, false;
  }

  method SplitStream(s: BStream, chrs: array<bv8>, ghost seps: set<byte>) returns (calls: seq<Call>)
    requires s.Valid() && Holds(chrs[..], seps)
    requires |s.Pending()| + BSSSC_BUFF_LEN < INT_MAX && s.maxBuffSz < INT_MAX
    requires chrs as object != s.buff.data
    modifies s`core, s`isEOF, s.buff, s.buff.data
    ensures s.Valid() && s.Pending() == []
    ensures calls == Cuts(old(s.Pending()), seps, 0)
  {
    ghost var whole := s.Pending();
    var field := chrs[..];
    var b := new BString.Empty();
    var p, i: nat := 0, 0;
    calls := [];
    assert b.Text() + s.Pending() == whole[0..];
    var done := false;
    while !done
      invariant fresh(b) && fresh(b.data) && (s.buff.data == old(s.buff.data) || fresh(s.buff.data))
      invariant s.maxBuffSz < INT_MAX
      invariant if done then Made(calls, whole, seps, 0, |whole| + 1) && s.Valid() && s.Pending() == []
                else Reading(s, b, whole, seps, p, i) && Made(calls, whole, seps, 0, p)
      decreases !done, |whole| - p, |whole| - p - i
    {
      calls, p, i, done := Advance(s, b, field, p, i, calls, whole, seps);
    }
    MadeAll(calls, whole, seps, 0);
  }

  // With nothing to split at, everything is read and handed over at once.
  method WholeStream(s: BStream) returns (entry: seq<byte>)
    requires s.Valid() && |s.Pending()| + BSSSC_BUFF_LEN < INT_MAX && s.maxBuffSz < INT_MAX
    modifies s`core, s`isEOF, s.buff, s.buff.data
    ensures s.Valid() && s.Pending() == [] && entry == old(s.Pending())
  {
    ghost var whole := s.Pending();
    var b := new BString.Empty();
    var rc := OK;
    assert b.Text() + s.Pending() == whole;
    while rc >= 0
      invariant fresh(b) && fresh(b.data) && (s.buff.data == old(s.buff.data) || fresh(s.buff.data))
      invariant s.Valid() && s.Apart(b) && b.Writable() && s.maxBuffSz < INT_MAX
      invariant b.Text() + s.Pending() == whole && (rc < 0 ==> s.Pending() == [])
      decreases |whole| - b.slen, rc
    {
      ghost var text, stream := b.Text(), s.Pending();
      assert |text| + |stream| == |whole|;
      rc := s.BSReadA(b, BSSSC_BUFF_LEN);
      MovedTogether(text, stream, b.Text(), s.Pending());
    }
    return b.data[..b.slen];
  }

  /** The calls are those that splitting the whole content as one string would make, however the core stream is chunked
      and whatever was buffered before: no entry holds one of the characters, behind every entry but the last stands
      one of them, all of the content is there, and nothing is left. */
  method BSSplitScb(s: BStream, splitStr: ConstString) returns (rc: int, calls: seq<Call>)
    requires s.Valid() && splitStr.slen <= splitStr.data.Length
    requires |s.Pending()| + BSSSC_BUFF_LEN < INT_MAX && s.maxBuffSz < INT_MAX
    modifies s`core, s`isEOF, s.buff, s.buff.data
    ensures s.Valid() && rc == if splitStr.slen >= 0 then OK else ERR
    ensures rc == ERR ==> calls == [] && s.Pending() == old(s.Pending())
    ensures rc == OK ==> calls == SetCuts(old(s.Pending()), old(Chars(splitStr)), 0) && s.Pending() == []
    ensures rc == OK && splitStr.slen == 0 ==> calls == [Call(0, old(s.Pending()))]
    ensures rc == OK && splitStr.slen > 0 ==>
      && |calls| > 0 && calls[0].ofs == 0
      && forall k :: 0 <= k < |calls| ==> EndsAtOneOf(calls, old(s.Pending()), old(Chars(splitStr)), k)
  {
    if splitStr.slen < 0 {
      return ERR, [];
    }
    ghost var whole, seps := s.Pending(), Chars(splitStr);
    if splitStr.slen == 0 {
      var entry := WholeStream(s);
      return OK, [Call(0, entry)];
    }
    var chrs := new bv8[CFCLEN];
    var _ := BuildCharField(chrs, splitStr);
    SetCutsMean(whole, seps, 0);
    hide EndsAtOneOf;
    calls := SplitStream(s, chrs, CharSet(seps));
    return OK, calls;
  }
}
