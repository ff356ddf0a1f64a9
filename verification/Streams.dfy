/** Buffered streams over a core stream that hands out its characters in chunks of its own choosing. */
module Streams {
  import opened Capacity
  import opened BStrings
  import opened CharFields

  // What ends a line: one character, or a set of them with one to serve as sentinel.
  datatype Stop = Char(c: byte) | Field(content: seq<bv8>, sentinel: byte)

  predicate Stops(stop: Stop, c: byte)
    requires stop.Field? ==> |stop.content| == CFCLEN
  {
    match stop
    case Char(t) => c == t
    case Field(content, _) => TestInCharField(content, c)
  }

  function Sentinel(stop: Stop): byte {
    if stop.Char? then stop.c else stop.sentinel
  }

  ghost predicate Usable(stop: Stop, terms: set<byte>) {
    && Sentinel(stop) in terms
    && if stop.Char? then terms == {stop.c} else Holds(stop.content, terms)
  }

  // n characters of s are a line: no terminator but perhaps the last, which is one unless s ends there.
  ghost predicate IsLine(s: seq<byte>, terms: set<byte>, n: nat) {
    && n <= |s|
    && (forall k :: 0 <= k < n - 1 ==> s[k] !in terms)
    && (n < |s| ==> n > 0 && s[n - 1] in terms)
  }

  ghost predicate Clear(s: seq<byte>, terms: set<byte>, n: nat) {
    n <= |s| && forall k :: 0 <= k < n ==> s[k] !in terms
  }

  // In the text all, of which n characters were read before, the next l are searched up to i.
  lemma NextChunk(all: seq<byte>, terms: set<byte>, n: nat, rest: seq<byte>, l: nat, i: nat)
    requires Clear(all, terms, n) && rest == all[n..] && i <= l <= |rest| && Clear(rest, terms, i)
    ensures Clear(all, terms, n + i)
    ensures i < l && rest[i] in terms ==> IsLine(all, terms, n + i + 1)
    ensures rest[l..] == all[n + l..]
    ensures all[..n] + rest[..l] == all[..n + l]
  {
    forall k | 0 <= k < n + i ensures all[k] !in terms {
      assert k >= n ==> all[k] == rest[k - n];
    }
  }

  lemma EmptyLine(s: seq<byte>, terms: set<byte>, n: nat)
    requires IsLine(s, terms, n)
    ensures n == 0 <==> s == []
  {
  }

  // Up to the first terminator and with it, or all there is.
  ghost function LineLength(s: seq<byte>, terms: set<byte>): (n: nat)
    ensures IsLine(s, terms, n)
  {
    if s == [] then 0
    else if s[0] in terms then 1
    else
      assert forall k :: 0 < k < |s| ==> s[k] == s[1..][k - 1];
      1 + LineLength(s[1..], terms)
  }

  ghost predicate Ends(s: seq<byte>, terms: set<byte>) {
    exists k :: 0 <= k < |s| && s[k] in terms
  }

  lemma EndsAt(held: seq<byte>, rest: seq<byte>, terms: set<byte>, i: nat)
    requires Clear(held, terms, i) && i < |held| && held[i] in terms
    ensures Ends(held, terms) && LineLength(held, terms) == LineLength(held + rest, terms) == i + 1
  {
    LineInBuffer(held, rest, terms, i);
    LineIsUnique(held, terms, LineLength(held, terms), i + 1);
    LineIsUnique(held + rest, terms, LineLength(held + rest, terms), i + 1);
  }

  lemma EndsNowhere(held: seq<byte>, terms: set<byte>)
    requires Clear(held, terms, |held|)
    ensures !Ends(held, terms) && LineLength(held, terms) == |held|
  {
    LineIsUnique(held, terms, LineLength(held, terms), |held|);
  }

  // What has no terminator in it is at most a line.
  lemma ClearWithinLine(s: seq<byte>, terms: set<byte>, n: nat, line: nat)
    requires Clear(s, terms, n) && IsLine(s, terms, line)
    ensures n <= line
  {
  }

  lemma LineGoesOn(held: seq<byte>, rest: seq<byte>, terms: set<byte>, line: nat)
    requires Clear(held, terms, |held|) && IsLine(held + rest, terms, line)
    ensures |held| <= line && IsLine(rest, terms, line - |held|)
  {
    var all := held + rest;
    assert forall k :: 0 <= k < |rest| ==> rest[k] == all[|held| + k];
    assert forall k :: 0 <= k < |held| ==> held[k] == all[k];
  }

  lemma LineIsUnique(s: seq<byte>, terms: set<byte>, n: nat, m: nat)
    requires IsLine(s, terms, n) && IsLine(s, terms, m)
    ensures n == m
  {
  }

  // The terminators of a set as a bit set, its first character the sentinel.
  method FieldOf(term: ConstString) returns (stop: Stop)
    requires 0 < term.slen <= term.data.Length
    ensures Usable(stop, CharSet(Chars(term)))
  {
    var cf := new bv8[CFCLEN];
    var built := BuildCharField(cf, term);
    assert term.data[0] in Chars(term);
    return Field(cf[..], term.data[0]);
  }

  // Puts the sentinel behind the l characters at at, and looks for the first terminator.
  method Scan(a: array<byte>, at: nat, l: nat, stop: Stop, ghost terms: set<byte>) returns (i: nat)
    requires at + l < a.Length && Usable(stop, terms)
    modifies a
    ensures a[..at + l] == old(a[..at + l])
    ensures i <= l && forall k :: at <= k < at + i ==> old(a[k]) !in terms
    ensures i < l ==> old(a[at + i]) in terms
  {
    a[at + l] := Sentinel(stop);
    i := 0;
    while !Stops(stop, a[at + i])
      invariant i <= l && forall k :: at <= k < at + i ==> a[k] !in terms
      decreases l - i
    {
      i := i + 1;
    }
  }

  // How many characters a core stream with left to give hands over when want are asked for: as many as it likes,
  // but one at least if there is one. As left goes down with every read, chunks can describe any chunking.
  function Given(chunks: nat -> nat, left: nat, want: nat): (l: nat)
    ensures l <= left && l <= want && (want > 0 ==> (l == 0 <==> left == 0))
  {
    var most := if left < want then left else want;
    if chunks(left) >= most then most else if chunks(left) == 0 then 1 else chunks(left)
  }

  // How far a reader of lines has come.
  datatype Progress = More | Done | NoRoom

  class BStream {
    const buff: BString
    // what the core stream has yet to give, and how it gives it
    var core: seq<byte>
    const chunks: nat -> nat
    var isEOF: bool
    var maxBuffSz: CInt

    // bsopen
    constructor (content: seq<byte>, chunks: nat -> nat)
      ensures Valid() && fresh(buff) && fresh(buff.data) && Pending() == content && this.chunks == chunks
      ensures maxBuffSz == 1024 && !isEOF
    {
      buff := new BString.Empty();
      core, isEOF, maxBuffSz := content, false, 1024;
      this.chunks := chunks;
    }

    // The buffer has room after its characters, though what stands there need not be a terminator. The end of
    // the core stream is noticed only once nothing is left of it.
    ghost predicate Valid()
      reads this, buff
    {
      && buff.Backed() && 0 <= buff.slen < buff.mlen
      && 0 < maxBuffSz
      && (isEOF ==> core == [])
    }

    // The virtual stream: the characters that reads will return, in order.
    ghost function Pending(): seq<byte>
      requires Valid()
      reads this, buff, buff.data
    {
      buff.Text() + core
    }

    ghost predicate Apart(r: BString)
      reads this, buff, r
    {
      r != buff && r.data != buff.data && r.Backed()
    }

    // readFnPtr: at most want characters, none only at the end
    method ReadCore(a: array<byte>, at: nat, want: nat) returns (l: nat)
      requires at + want <= a.Length && want > 0
      modifies this`core, a
      ensures l == Given(chunks, |old(core)|, want) && core == old(core)[l..]
      ensures a[..at + l] == old(a[..at]) + old(core)[..l]
    {
      l := Given(chunks, |core|, want);
      forall k | 0 <= k < l {
        a[at + k] := core[k];
      }
      core := core[l..];
    }

    // ---------------------------------------------------------------- lines

    // One more chunk of the core stream, read behind the text of r.
    method ReadBehind(r: BString) returns (l: nat)
      requires Valid() && Apart(r) && r.Writable() && r.slen + maxBuffSz < r.mlen
      modifies this`core, r.data
      ensures Valid() && Apart(r)
      ensures l <= |old(core)| && (l == 0 <==> old(core) == []) && core == old(core)[l..]
      ensures l <= maxBuffSz
      ensures r.data[..r.slen + l] == old(r.Text()) + old(core)[..l]
    {
      l := ReadCore(r.data, r.slen, maxBuffSz);
    }

    // Of all that the core stream had, n characters went behind the text in r.
    ghost predicate ReadSoFar(r: BString, text: seq<byte>, all: seq<byte>, n: nat)
      requires Apart(r) && r.Writable()
      reads this, buff, r, r.data
    {
      n <= |all| && core == all[n..] && r.Text() == text + all[..n]
    }

    // One more chunk, searched for the end of the line.
    method ReadAndScan(r: BString, stop: Stop, ghost terms: set<byte>, ghost text: seq<byte>, ghost all: seq<byte>,
                       ghost n: nat)
      returns (l: nat, i: nat)
      requires Valid() && Apart(r) && r.Writable() && Usable(stop, terms) && r.slen + maxBuffSz < r.mlen
      requires ReadSoFar(r, text, all, n) && Clear(all, terms, n)
      modifies this`core, r.data
      ensures Valid() && Apart(r) && l <= maxBuffSz
      ensures n + l <= |all| && (l == 0 <==> n == |all|) && core == all[n + l..]
      ensures r.data[..r.slen + l] == text + all[..n + l]
      ensures i <= l && Clear(all, terms, n + i) && (i < l ==> IsLine(all, terms, n + i + 1))
    {
      ghost var rest := core;
      l := ReadBehind(r);
      if l == 0 {
        i := 0;
      } else {
        i := ScanChunk(r, l, stop, terms, rest, text + all[..n]);
      }
      NextChunk(all, terms, n, rest, l, i);
      assert text + all[..n] + rest[..l] == text + (all[..n] + rest[..l]);
    }

    method ScanChunk(
        r: BString, l: nat, stop: Stop, ghost terms: set<byte>, ghost rest: seq<byte>, ghost was: seq<byte>)
      returns (i: nat)
      requires r.Backed() && r.Writable() && r.slen + l < r.mlen && Usable(stop, terms)
      requires l <= |rest| && |was| == r.slen && r.data[..r.slen + l] == was + rest[..l]
      modifies r.data
      ensures r.data[..r.slen + l] == was + rest[..l]
      ensures i <= l && Clear(rest, terms, i) && (i < l ==> rest[i] in terms)
    {
      ghost var read := r.data[..r.slen + l];
      assert forall k :: 0 <= k < l ==> rest[k] == read[r.slen + k] == r.data[r.slen + k];
      i := Scan(r.data, r.slen, l, stop, terms);
    }

    // n characters of all were the line, and it is at the end of r.
    ghost predicate LineRead(r: BString, text: seq<byte>, all: seq<byte>, terms: set<byte>, n: nat)
      requires Valid() && Apart(r) && r.Writable()
      reads this, buff, buff.data, r, r.data
    {
      r.Terminated() && IsLine(all, terms, n) && r.Text() == text + all[..n] && Pending() == all[n..]
    }

    // One round of the loop below.
    method ReadChunk(r: BString, stop: Stop, ghost terms: set<byte>, ghost text: seq<byte>, ghost all: seq<byte>,
                     ghost n: nat)
      returns (progress: Progress, ghost next: nat)
      requires Valid() && Apart(r) && r.Writable() && Usable(stop, terms) && maxBuffSz < buff.mlen
      requires ReadSoFar(r, text, all, n) && Clear(all, terms, n)
      modifies this`core, this`isEOF, buff`slen, buff.data, r, r.data
      ensures Valid() && Apart(r) && r.Writable() && (r.data == old(r.data) || fresh(r.data))
      ensures progress.Done? ==> LineRead(r, text, all, terms, next)
      ensures !progress.Done? ==>
        ReadSoFar(r, text, all, next) && Clear(all, terms, next) && buff.Text() == old(buff.Text())
      ensures progress.More? ==> n < next
      ensures progress.NoRoom? <==> old(r.slen) + maxBuffSz >= INT_MAX
      ensures progress.NoRoom? ==> r.slen == old(r.slen)
    {
      var room := MakeRoom(r);
      if room != OK {
        return NoRoom, n;
      }
      assert buff.Text() == old(buff.Text());
      var l, i := ReadAndScan(r, stop, terms, text, all, n);
      if l == 0 {
        AtEnd(r);
        return Done, n;
      }
      if i < l {
        KeepOverRead(r, l, i + 1, text, all, n);
        return Done, n + i + 1;
      }
      KeepAll(r, l, text, all, n);
      return More, n + l;
    }

    method MakeRoom(r: BString) returns (rc: int)
      requires Valid() && Apart(r) && r.Writable() && maxBuffSz < INT_MAX
      modifies r, r.data
      ensures Valid() && Apart(r) && r.Writable() && (r.data == old(r.data) || fresh(r.data))
      ensures r.Text() == old(r.Text())
      ensures rc == if r.slen + maxBuffSz < INT_MAX then OK else ERR
      ensures rc == OK ==> r.slen + maxBuffSz < r.mlen
    {
      ghost var text := r.Text();
      rc := r.BAlloc(Wrap(r.slen + maxBuffSz + 1));
      assert r.Text() == text;
    }

    // Everything up to the first terminator in what the core stream has left, or all of it, goes behind the
    // text of r; the rest of the last chunk goes to the buffer. Without room for one more chunk it stops before.
    method ReadToStop(r: BString, stop: Stop, ghost terms: set<byte>) returns (progress: Progress, ghost n: nat)
      requires Valid() && Apart(r) && r.Writable() && Usable(stop, terms) && maxBuffSz < buff.mlen
      modifies this`core, this`isEOF, buff`slen, buff.data, r, r.data
      ensures Valid() && Apart(r) && r.Writable() && (r.data == old(r.data) || fresh(r.data))
      ensures progress.Done? ==> LineRead(r, old(r.Text()), old(core), terms, n)
      ensures !progress.Done? ==>
        && ReadSoFar(r, old(r.Text()), old(core), n) && Clear(old(core), terms, n) && buff.Text() == old(buff.Text())
        && r.slen + maxBuffSz >= INT_MAX
      ensures progress.Done? ==> old(r.slen) + maxBuffSz < INT_MAX
    {
      ghost var text, all := r.Text(), core;
      n := 0;
      NothingRead(text, all);
      progress := More;
      while progress.More?
        invariant Valid() && Apart(r) && r.Writable() && (r.data == old(r.data) || fresh(r.data))
        invariant progress.Done? ==> LineRead(r, text, all, terms, n)
        invariant !progress.Done? ==>
          ReadSoFar(r, text, all, n) && Clear(all, terms, n) && buff.Text() == old(buff.Text())
        invariant progress.More? ==> maxBuffSz < buff.mlen
        invariant progress.NoRoom? ==> r.slen + maxBuffSz >= INT_MAX
        invariant progress.Done? || n > 0 ==> old(r.slen) + maxBuffSz < INT_MAX
        decreases progress.More?, |all| - n
      {
        progress, n := ReadChunk(r, stop, terms, text, all, n);
      }
    }

    method KeepAll(r: BString, l: nat, ghost text: seq<byte>, ghost all: seq<byte>, ghost n: nat)
      requires Valid() && Apart(r) && r.Writable() && r.slen + l < r.mlen
      requires n + l <= |all| && core == all[n + l..]
      requires r.data[..r.slen + l] == text + all[..n + l]
      modifies r`slen
      ensures Valid() && Apart(r) && r.Writable() && ReadSoFar(r, text, all, n + l)
    {
      r.slen := r.slen + l;
    }

    method AtEnd(r: BString)
      requires Valid() && Apart(r) && r.Writable() && r.slen < r.mlen && core == []
      modifies this`isEOF, buff`slen, r.data
      ensures Valid() && Apart(r) && r.Terminated()
      ensures r.Text() == old(r.Text()) && Pending() == []
    {
      r.PutTerminator();
      buff.slen := 0;
      isEOF := true;
    }

    // The first i of the l characters behind the text of r belong to it, the others go to the buffer.
    method KeepOverRead(r: BString, l: nat, i: nat, ghost text: seq<byte>, ghost all: seq<byte>, ghost n: nat)
      requires Valid() && Apart(r) && r.Writable() && 0 < i <= l < buff.mlen && r.slen + l < r.mlen
      requires n + l <= |all| && core == all[n + l..] && r.slen == |text| + n
      requires r.data[..r.slen + l] == text + all[..n + l]
      modifies buff`slen, buff.data, r`slen, r.data
      ensures Valid() && Apart(r) && r.Terminated()
      ensures r.Text() == text + all[..n + i] && Pending() == all[n + i..]
    {
      ghost var was, read := r.slen, r.data[..r.slen + l];
      r.slen := r.slen + i;
      buff.slen := l - i;
      MemCopy(buff.data, 0, r.data, r.slen, l - i);
      r.PutTerminator();
      assert buff.Text() == read[was + i..] == all[n + i..n + l];
      assert r.Text() == read[..was + i] == text + all[..n + i];
    }

    // bconcat (r, &x), with x the first k characters in the memory of the buffer
    method CopyBuffered(r: BString, k: nat) returns (rc: int)
      requires Valid() && Apart(r) && r.Writable() && k <= buff.mlen
      modifies r, r.data
      ensures Valid() && Apart(r) && r.Writable() && (r.data == old(r.data) || fresh(r.data))
      ensures rc == if old(r.slen) + k > INT_MAX then ERR else if old(r.slen) + k == INT_MAX then FAULT else OK
      ensures rc == OK ==> r.Terminated() && r.Text() == old(r.Text()) + buff.data[..k]
      ensures rc != OK ==> r.Text() == old(r.Text())
    {
      rc := r.BConcat(ConstString(buff.data, k));
    }

    // The first k characters of the buffer go behind r.
    method TakeBuffered(r: BString, k: nat) returns (rc: int)
      requires Valid() && Apart(r) && r.Writable() && k <= buff.slen
      modifies buff`slen, buff.data, r, r.data
      ensures Valid() && Apart(r) && r.Writable() && (r.data == old(r.data) || fresh(r.data))
      ensures rc == if old(r.slen) + k > INT_MAX then ERR else if old(r.slen) + k == INT_MAX then FAULT else OK
      ensures rc == OK ==>
        r.Terminated() && r.Text() == old(r.Text()) + old(buff.Text())[..k] && buff.Text() == old(buff.Text())[k..]
      ensures rc != OK ==> r.Text() == old(r.Text()) && buff.Text() == old(buff.Text())
    {
      assert buff.data[..k] == buff.Text()[..k];
      rc := CopyBuffered(r, k);
      if rc == OK {
        var _ := buff.BDelete(0, k);
      }
    }

    // The line ends in the buffer, at i. That it may not have been copied is not noticed.
    method LineFromBuffer(r: BString, i: nat, ghost terms: set<byte>) returns (rc: int)
      requires Valid() && Apart(r) && r.Writable() && maxBuffSz < INT_MAX
      requires i < buff.slen && Clear(buff.Text(), terms, i) && buff.Text()[i] in terms
      modifies buff`slen, buff.data, r, r.data
      ensures Valid() && Apart(r) && r.Writable() && (r.data == old(r.data) || fresh(r.data))
      ensures LineOutcome(rc, old(r.Text()), old(buff.Text()), old(core), terms, maxBuffSz,
                          r.Text(), Pending(), r.Terminated())
    {
      ghost var text, held, rest := r.Text(), buff.Text(), core;
      LineInBuffer(held, rest, terms, i);
      EndsAt(held, rest, terms, i);
      hide LineLength, Ends, GaveUp, IsLine;
      var copied := TakeBuffered(r, i + 1);
      return if copied == FAULT then FAULT else OK;
    }

    // The line does not end in the buffer.
    method LineFromCore(r: BString, stop: Stop, ghost terms: set<byte>) returns (rc: int)
      requires Valid() && Apart(r) && r.Writable() && Usable(stop, terms) && maxBuffSz < buff.mlen
      requires Clear(buff.Text(), terms, buff.slen)
      modifies this`core, this`isEOF, buff`slen, buff.data, r, r.data
      ensures Valid() && Apart(r) && r.Writable() && (r.data == old(r.data) || fresh(r.data))
      ensures LineOutcome(rc, old(r.Text()), old(buff.Text()), old(core), terms, maxBuffSz,
                          r.Text(), Pending(), r.Terminated())
    {
      ghost var text, held, rest := r.Text(), buff.Text(), core;
      EndsNowhere(held, terms);
      var rlo := r.slen;
      rc := CopyBuffered(r, buff.slen);
      if rc != OK {
        NothingOutcome(rc, text, held, rest, terms, maxBuffSz);
        return;
      }
      assert r.Text() == text + held;
      hide Ends, LineLength, IsLine, Moved, GaveUp, LineOutcome, Clear, Usable;
      ghost var n;
      var progress;
      progress, n := ReadToStop(r, stop, terms);
      if progress.Done? {
        MovedOutcome(text, held, rest, terms, n, maxBuffSz);
        return if r.slen == rlo then ERR else OK;
      }
      GaveUpOutcome(text, held, rest, terms, n, maxBuffSz);
      return ERR;
    }

    method ReadLine(r: BString, stop: Stop, ghost terms: set<byte>) returns (rc: int)
      requires Valid() && Apart(r) && r.Writable() && Usable(stop, terms)
      modifies this`core, this`isEOF, buff, buff.data, r, r.data
      ensures Valid() && Apart(r) && r.Writable()
      ensures buff.data == old(buff.data) || fresh(buff.data)
      ensures r.data == old(r.data) || fresh(r.data)
      ensures LineOutcome(rc, old(r.Text()), old(buff.Text()), old(core), terms, maxBuffSz,
                          r.Text(), Pending(), r.Terminated())
    {
      if maxBuffSz == INT_MAX {
        // balloc refuses a size that has wrapped around
        return ERR;
      }
      hide LineOutcome, Copied;
      var i := ScanBuffer(stop, terms);
      if i < buff.slen {
        rc := LineFromBuffer(r, i, terms);
      } else {
        rc := LineFromCore(r, stop, terms);
      }
    }

    // Makes room for a sentinel, and looks through what is buffered.
    method ScanBuffer(stop: Stop, ghost terms: set<byte>) returns (i: nat)
      requires Valid() && Usable(stop, terms) && maxBuffSz < INT_MAX
      modifies buff, buff.data
      ensures Valid() && (buff.data == old(buff.data) || fresh(buff.data)) && maxBuffSz < buff.mlen
      ensures buff.slen == old(buff.slen) && buff.Text() == old(buff.Text())
      ensures i <= buff.slen && Clear(buff.Text(), terms, i) && (i < buff.slen ==> buff.Text()[i] in terms)
    {
      ghost var held := buff.Text();
      var _ := buff.BAlloc(maxBuffSz + 1);
      assert buff.Text() == held;
      i := Scan(buff.data, 0, buff.slen, stop, terms);
      assert buff.Text() == held;
    }

    // What is to be copied and read has room behind the text of r.
    ghost predicate LineFits(r: BString, terms: set<byte>)
      requires Valid()
      reads this, buff, buff.data, r
    {
      r.slen + maxBuffSz + LineLength(Pending(), terms) < INT_MAX
    }

    /** bsreadlna: appends the line up to and with the first terminator, or all there is when there is none,
        and leaves the rest, however the core stream is chunked; an error when nothing was left. This is so
        whenever the line fits; what else may come of it is all in LineOutcome. */
    method BSReadLnA(r: BString, terminator: byte) returns (rc: int)
      requires Valid() && Apart(r)
      modifies this`core, this`isEOF, buff, buff.data, r, r.data
      ensures Valid() && Apart(r)
      ensures buff.data == old(buff.data) || fresh(buff.data)
      ensures r.data == old(r.data) || fresh(r.data)
      ensures !old(r.Writable()) ==> rc == ERR && Pending() == old(Pending()) && r.slen == old(r.slen)
      ensures old(r.Writable()) ==>
        r.Writable() && LineOutcome(rc, old(r.Text()), old(buff.Text()), old(core), {terminator}, maxBuffSz,
                                    r.Text(), Pending(), r.Terminated())
      ensures old(r.Writable() && LineFits(r, {terminator})) ==>
        r.Terminated() && LineMoved(rc, old(r.Text()), old(Pending()), {terminator}, r.Text(), Pending())
    {
      if r.mlen <= 0 || r.slen < 0 || r.mlen < r.slen {
        return ERR;
      }
      hide LineOutcome, LineMoved, LineLength;
      ghost var text, held, rest := r.Text(), buff.Text(), core;
      rc := ReadLine(r, Char(terminator), {terminator});
      FittingLine(rc, text, held, rest, {terminator}, maxBuffSz, r.Text(), Pending(), r.Terminated());
    }

    /** bsreadlnsa: the same with a set of terminators, of which there must be one. */
    method BSReadLnSA(r: BString, term: ConstString) returns (rc: int)
      requires Valid() && Apart(r) && term.slen <= term.data.Length
      modifies this`core, this`isEOF, buff, buff.data, r, r.data
      ensures Valid() && Apart(r)
      ensures buff.data == old(buff.data) || fresh(buff.data)
      ensures r.data == old(r.data) || fresh(r.data)
      ensures !old(r.Writable()) || term.slen < 1 ==>
        rc == ERR && Pending() == old(Pending()) && r.slen == old(r.slen)
      ensures old(r.Writable()) && term.slen >= 1 ==>
        r.Writable() && LineOutcome(rc, old(r.Text()), old(buff.Text()), old(core), old(CharSet(Chars(term))),
                                    maxBuffSz, r.Text(), Pending(), r.Terminated())
      ensures term.slen >= 1 && old(r.Writable() && LineFits(r, CharSet(Chars(term)))) ==>
        && r.Terminated()
        && LineMoved(rc, old(r.Text()), old(Pending()), old(CharSet(Chars(term))), r.Text(), Pending())
    {
      if r.mlen <= 0 || r.slen < 0 || r.mlen < r.slen {
        return ERR;
      }
      hide LineOutcome, LineMoved, LineLength;
      if term.slen == 1 {
        assert CharSet(Chars(term)) == {term.data[0]};
        rc := BSReadLnA(r, term.data[0]);
        return;
      }
      if term.slen < 1 {
        return ERR;
      }
      ghost var terms := CharSet(Chars(term));
      ghost var text, held, rest := r.Text(), buff.Text(), core;
      var stop := FieldOf(term);
      rc := ReadLine(r, stop, terms);
      FittingLine(rc, text, held, rest, terms, maxBuffSz, r.Text(), Pending(), r.Terminated());
    }

    // ---------------------------------------------------------------- blocks

    // Of all, the first |r| - |text| characters are in r, the next l in the buffer and the others still in the
    // core stream. The buffer's own length is not kept up to date on the way.
    ghost predicate Halfway(r: BString, l: nat, text: seq<byte>, all: seq<byte>)
      requires Valid() && Apart(r) && r.Writable()
      reads this, buff, buff.data, r, r.data
    {
      var k := r.slen - |text|;
      && l < buff.mlen && 0 <= k <= |all|
      && r.Text() == text + all[..k] && buff.data[..l] + core == all[k..]
    }

    // All of n is there, or all there was.
    ghost predicate Filled(r: BString, n: int, text: seq<byte>, all: seq<byte>)
      requires Valid() && Apart(r) && r.Writable()
      reads this, buff, buff.data, r, r.data
    {
      Moved(text, all, r.Text(), Pending()) && (r.slen == n || (r.slen < n && Pending() == []))
    }

    // What is buffered goes to r.
    method HandOver(r: BString, held: nat, ghost text: seq<byte>, ghost all: seq<byte>)
      requires Valid() && Apart(r) && r.Writable() && Halfway(r, held, text, all) && r.slen + held < INT_MAX
      modifies r, r.data
      ensures Valid() && Apart(r) && r.Terminated() && (r.data == old(r.data) || fresh(r.data))
      ensures r.slen == old(r.slen) + held && |text| <= r.slen <= |text| + |all|
      ensures r.Text() == text + all[..r.slen - |text|] && core == all[r.slen - |text|..]
    {
      ghost var chars := buff.data[..held];
      ghost var k := r.slen - |text|;
      BufferMoves(text, all, k, chars, core);
      var _ := CopyBuffered(r, held);
    }

    // What is buffered goes to r, and a chunk of what is missing from n is read into the buffer.
    method Refill(r: BString, held: nat, n: int, ghost text: seq<byte>, ghost all: seq<byte>) returns (l: nat)
      requires Valid() && Apart(r) && r.Writable() && Halfway(r, held, text, all)
      requires r.slen + held < n && maxBuffSz < buff.mlen && n <= INT_MAX
      modifies this`core, buff.data, r, r.data
      ensures Valid() && Apart(r) && r.Terminated() && (r.data == old(r.data) || fresh(r.data))
      ensures Halfway(r, l, text, all)
      ensures r.slen == old(r.slen) + held && l <= n - r.slen
      ensures |core| == |old(core)| - l && (l == 0 <==> old(core) == [])
    {
      HandOver(r, held, text, all);
      hide Given;
      var want := n - r.slen;
      if want > maxBuffSz {
        want := maxBuffSz;
      }
      ghost var rest := core;
      l := ReadCore(buff.data, 0, want);
      assert buff.data[..l] == rest[..l];
      assert rest[..l] + core == rest;
    }

    // One round of the loop below.
    method FillOrFinish(r: BString, held: nat, n: int, ghost text: seq<byte>, ghost all: seq<byte>,
                        ghost orslen: int, ghost first: nat, ghost size: nat)
      returns (rc: int, done: bool, l: nat)
      requires Valid() && Apart(r) && r.Writable() && Halfway(r, held, text, all) && r.slen < n <= INT_MAX
      requires maxBuffSz < buff.mlen && held + r.slen <= INT_MAX
      requires Spared(orslen, first, size, n, |core|) && r.slen + held + |core| == orslen + first + size
      modifies this`core, this`isEOF, buff`slen, buff.data, r, r.data
      ensures Valid() && Apart(r) && r.Writable() && (r.data == old(r.data) || fresh(r.data))
      ensures rc == OK || (rc == FAULT && done && n == INT_MAX <= orslen + first + size)
      ensures rc == OK && done ==>
        r.Terminated() && Filled(r, n, text, all) && (n == INT_MAX ==> orslen + first + size < n)
      ensures rc == OK && !done ==>
        && Halfway(r, l, text, all) && r.slen < n && r.slen + l <= n && |core| < |old(core)|
        && r.slen + l + |core| == orslen + first + size
      ensures Spared(orslen, first, size, n, |core|)
    {
      if Wrap(held + r.slen) >= n {
        rc := LastPart(r, held, n - r.slen, text, all);
        return rc, true, 0;
      }
      l := Refill(r, held, n, text, all);
      if l <= 0 {
        Exhausted(r, text, all);
        return OK, true, 0;
      }
      return OK, false, l;
    }

    method Exhausted(r: BString, ghost text: seq<byte>, ghost all: seq<byte>)
      requires Valid() && Apart(r) && r.Writable() && Halfway(r, 0, text, all) && core == []
      modifies this`isEOF, buff`slen
      ensures Valid() && Moved(text, all, r.Text(), Pending()) && Pending() == []
    {
      isEOF := true;
      buff.slen := 0;
      assert buff.Text() == [] && buff.data[..0] == [];
    }

    method FillUp(r: BString, n: int, ghost text: seq<byte>, ghost all: seq<byte>, ghost size: nat) returns (rc: int)
      requires Valid() && Apart(r) && r.Writable() && r.slen < n <= INT_MAX && !Overfull(r)
      requires maxBuffSz < buff.mlen
      requires Halfway(r, buff.slen, text, all) && size == |core|
      modifies this`core, this`isEOF, buff`slen, buff.data, r, r.data
      ensures Valid() && Apart(r) && r.Writable() && (r.data == old(r.data) || fresh(r.data))
      ensures rc == if n == INT_MAX <= old(r.slen + buff.slen) + size then FAULT else OK
      ensures rc == OK ==> r.Terminated() && Filled(r, n, text, all)
      ensures Spared(old(r.slen), old(buff.slen), size, n, |core|)
    {
      ghost var orslen, first := r.slen, buff.slen;
      var l: nat := buff.slen;
      var done := false;
      rc := OK;
      while !done
        invariant Valid() && Apart(r) && r.Writable() && (r.data == old(r.data) || fresh(r.data))
        invariant rc == OK || (done && rc == FAULT && n == INT_MAX <= orslen + first + size)
        invariant rc == OK && done ==>
          r.Terminated() && Filled(r, n, text, all) && (n == INT_MAX ==> orslen + first + size < n)
        invariant !done ==>
          && Halfway(r, l, text, all) && r.slen < n && maxBuffSz < buff.mlen && r.slen + l <= INT_MAX
          && r.slen + l + |core| == orslen + first + size
        invariant Spared(orslen, first, size, n, |core|)
        decreases !done, |core|
      {
        rc, done, l := FillOrFinish(r, l, n, text, all, orslen, first, size);
      }
    }

    // What is buffered does not fit behind r. Of the sums that the loop forms only this first one can overflow.
    predicate Overfull(r: BString)
      reads this, buff, r
    {
      buff.slen + r.slen > INT_MAX
    }

    // A text of INT_MAX characters is asked for, and there.
    ghost predicate Unfit(r: BString, n: int)
      requires Valid()
      reads this, buff, buff.data, r
    {
      n == INT_MAX && r.slen + |Pending()| >= n
    }

    method ReadBuffered(r: BString, n: int) returns (rc: int)
      requires Valid() && Apart(r) && r.Writable() && r.slen < n <= INT_MAX && maxBuffSz < buff.mlen
      modifies this`core, this`isEOF, buff`slen, buff.data, r, r.data
      ensures Valid() && Apart(r) && r.Writable() && (r.data == old(r.data) || fresh(r.data))
      ensures old(Overfull(r)) ==> rc == ERR && r.Text() == old(r.Text()) && Pending() == old(Pending())
      ensures !old(Overfull(r)) ==> (rc == FAULT <==> old(Unfit(r, n)))
      ensures !old(Overfull(r)) && rc != FAULT ==>
        && r.Terminated() && Took(old(r.Text()), old(Pending()), r.Text(), Pending(), n - old(r.slen))
        && r.slen - old(r.slen) == AtMost(|old(Pending())|, n - old(r.slen))
        && rc == if old(Pending()) == [] then ERR else OK
      ensures |old(core)| - |core| <= Missing(n - old(r.slen), old(buff.slen))
    {
      if Wrap(buff.slen + r.slen) < 0 {
        // less than n: the loop goes on to bconcat, which refuses
        var refused := r.BConcat(ConstString(buff.data, buff.slen));
        return ERR;
      }
      hide Took;
      rc := ReadFitting(r, n);
    }

    method ReadFitting(r: BString, n: int) returns (rc: int)
      requires Valid() && Apart(r) && r.Writable() && r.slen < n <= INT_MAX && maxBuffSz < buff.mlen && !Overfull(r)
      modifies this`core, this`isEOF, buff`slen, buff.data, r, r.data
      ensures Valid() && Apart(r) && r.Writable() && (r.data == old(r.data) || fresh(r.data))
      ensures rc == FAULT <==> old(Unfit(r, n))
      ensures rc != FAULT ==>
        && r.Terminated() && Took(old(r.Text()), old(Pending()), r.Text(), Pending(), n - old(r.slen))
        && r.slen - old(r.slen) == AtMost(|old(Pending())|, n - old(r.slen))
        && rc == if old(Pending()) == [] then ERR else OK
      ensures |old(core)| - |core| <= Missing(n - old(r.slen), old(buff.slen))
    {
      ghost var text, all := r.Text(), Pending();
      NothingRead(text, all);
      var orslen := r.slen;
      rc := FillUp(r, n, text, all, |core|);
      if rc == FAULT {
        return;
      }
      AsMany(text, all, r.Text(), Pending(), n);
      return if r.slen == orslen then ERR else OK;
    }

    // What is still missing is in the buffer.
    method LastPart(r: BString, l: nat, take: nat, ghost text: seq<byte>, ghost all: seq<byte>) returns (rc: int)
      requires Valid() && Apart(r) && r.Writable() && Halfway(r, l, text, all)
      requires take <= l && r.slen + take <= INT_MAX
      modifies buff`slen, buff.data, r, r.data
      ensures Valid() && Apart(r) && r.Writable() && (r.data == old(r.data) || fresh(r.data))
      ensures rc == if old(r.slen) + take == INT_MAX then FAULT else OK
      ensures rc == OK ==> r.Terminated() && r.slen == old(r.slen) + take && Moved(text, all, r.Text(), Pending())
    {
      ghost var k, chars := r.slen - |text|, buff.data[..l];
      buff.slen := l;
      assert buff.Text() == chars;
      rc := TakeBuffered(r, take);
      PartMoves(text, all, k, chars, core, take);
    }

    method ReadGrown(r: BString, n: int) returns (rc: int)
      requires Valid() && Apart(r) && r.Writable() && r.slen < n <= INT_MAX
      modifies this`core, this`isEOF, buff, buff.data, r, r.data
      ensures Valid() && Apart(r) && r.Writable() && (r.data == old(r.data) || fresh(r.data))
      ensures buff.data == old(buff.data) || fresh(buff.data)
      ensures maxBuffSz == INT_MAX || old(Overfull(r)) ==>
        rc == ERR && r.Text() == old(r.Text()) && Pending() == old(Pending())
      ensures maxBuffSz < INT_MAX && !old(Overfull(r)) ==> (rc == FAULT <==> old(Unfit(r, n)))
      ensures maxBuffSz < INT_MAX && !old(Overfull(r)) && rc != FAULT ==>
        && r.Terminated() && Took(old(r.Text()), old(Pending()), r.Text(), Pending(), n - old(r.slen))
        && r.slen - old(r.slen) == AtMost(|old(Pending())|, n - old(r.slen))
        && rc == if old(Pending()) == [] then ERR else OK
      ensures |old(core)| - |core| <= Missing(n - old(r.slen), old(buff.slen))
    {
      ghost var held := buff.Text();
      rc := buff.BAlloc(Wrap(maxBuffSz + 1));
      if rc != OK {
        return;
      }
      assert buff.Text() == held;
      rc := ReadBuffered(r, n);
    }

    // Straight into r, when the buffer is empty and there is room. Whatever one read gives is the answer.
    method ReadDirect(r: BString, n: int) returns (rc: int)
      requires Valid() && Apart(r) && r.Writable() && r.slen < n < r.mlen && buff.slen == 0
      modifies this`core, this`isEOF, r`slen, r.data
      ensures Valid() && Apart(r) && r.Writable()
      ensures Took(old(r.Text()), old(Pending()), r.Text(), Pending(), n - old(r.slen))
      ensures r.slen - old(r.slen) == Given(chunks, |old(Pending())|, n - old(r.slen))
      ensures |old(core)| - |core| <= Missing(n - old(r.slen), old(buff.slen))
      ensures rc == if old(Pending()) == [] then ERR else OK
      ensures rc == OK ==> r.Terminated()
    {
      ghost var text := r.Text();
      assert buff.Text() == [] && Pending() == core;
      var l := ReadCore(r.data, r.slen, n - r.slen);
      if 0 >= l || l > n - r.slen {
        isEOF := true;
        NothingMoved(text, Pending());
        return ERR;
      }
      r.slen := r.slen + l;
      r.PutTerminator();
      return OK;
    }

    // A read goes straight into r rather than through the buffer.
    predicate Direct(r: BString, n: int)
      reads this, buff, r
    {
      buff.slen == 0 && !isEOF && r.mlen > n
    }

    // The read goes through the buffer, but what is there and in r together passes INT_MAX, or no buffer can be had.
    predicate Stuck(r: BString, n: int)
      reads this, buff, r
    {
      !Direct(r, n) && (maxBuffSz == INT_MAX || Overfull(r))
    }

    // bsreada, its arguments checked
    method ReadUpTo(r: BString, n: int) returns (rc: int)
      requires Valid() && Apart(r) && r.Writable() && r.slen < n <= INT_MAX
      modifies this`core, this`isEOF, buff, buff.data, r, r.data
      ensures Valid() && Apart(r) && r.Writable()
      ensures buff.data == old(buff.data) || fresh(buff.data)
      ensures r.data == old(r.data) || fresh(r.data)
      ensures old(Stuck(r, n)) ==> rc == ERR && r.Text() == old(r.Text()) && Pending() == old(Pending())
      ensures !old(Stuck(r, n)) ==> (rc == FAULT <==> old(Unfit(r, n)))
      ensures !old(Stuck(r, n)) && rc != FAULT ==>
        && Took(old(r.Text()), old(Pending()), r.Text(), Pending(), n - old(r.slen))
        && r.slen - old(r.slen) == (if old(Direct(r, n)) then Given(chunks, |old(Pending())|, n - old(r.slen))
                                    else AtMost(|old(Pending())|, n - old(r.slen)))
        && rc == (if old(Pending()) == [] then ERR else OK)
        && (rc == OK ==> r.Terminated())
      ensures |old(core)| - |core| <= Missing(n - old(r.slen), old(buff.slen))
    {
      if buff.slen == 0 {
        assert buff.Text() == [];
        if isEOF {
          NothingMoved(r.Text(), Pending());
          return ERR;
        }
        if r.mlen > n {
          rc := ReadDirect(r, n);
          return;
        }
      }
      rc := ReadGrown(r, n);
    }

    /** bsreada: between them, what it appends and what it leaves are the stream as it was. It takes n
        characters, or all when there are fewer, except that with nothing buffered and room in r it passes on
        whatever one read of the core stream gives; and of the core stream it never takes more than what was
        missing. When it is stuck it reports an error, though there may be characters to read. */
    method BSReadA(r: BString, n: CInt) returns (rc: int)
      requires Valid() && Apart(r)
      modifies this`core, this`isEOF, buff, buff.data, r, r.data
      ensures Valid() && Apart(r)
      ensures buff.data == old(buff.data) || fresh(buff.data)
      ensures r.data == old(r.data) || fresh(r.data)
      ensures !old(r.Writable()) || n <= 0 || n > INT_MAX - old(r.slen) ==>
        rc == ERR && r.slen == old(r.slen) && Pending() == old(Pending())
      ensures old(r.Writable()) && 0 < n <= INT_MAX - old(r.slen) ==>
        var all, k := old(Pending()), r.slen - old(r.slen);
        var direct := old(buff.slen) == 0 && !old(isEOF) && old(r.mlen) > n + old(r.slen);
        var stuck := !direct && (maxBuffSz == INT_MAX || old(buff.slen) + old(r.slen) > INT_MAX);
        && r.Writable() && |old(core)| - |core| <= (if n > old(buff.slen) then n - old(buff.slen) else 0)
        && (stuck ==> rc == ERR && r.Text() == old(r.Text()) && Pending() == all)
        && (!stuck ==> (rc == FAULT <==> n + old(r.slen) == INT_MAX && |all| >= n))
        && (!stuck && rc != FAULT ==>
              && Took(old(r.Text()), all, r.Text(), Pending(), n)
              && k == (if direct then Given(chunks, |all|, n) else if |all| < n then |all| else n)
              && rc == (if all == [] then ERR else OK)
              && (rc == OK ==> r.Terminated()))
    {
      if r.mlen <= 0 || r.slen < 0 || r.mlen < r.slen || n <= 0 {
        return ERR;
      }
      if n > INT_MAX - r.slen {
        return ERR;
      }
      hide Took, Given;
      rc := ReadUpTo(r, n + r.slen);
    }

    /** bsunread: the characters will be read before all that was pending. */
    method BSUnRead(b: ConstString) returns (rc: int)
      requires Valid() && b.slen <= b.data.Length && b.data != buff.data
      modifies buff, buff.data
      ensures Valid() && (buff.data == old(buff.data) || fresh(buff.data))
      ensures rc == if b.slen >= 0 && old(buff.slen) + b.slen < INT_MAX then OK else ERR
      ensures rc == OK ==> Pending() == old(Chars(b)) + old(Pending())
      ensures rc == ERR ==> Pending() == old(Pending())
    {
      rc := buff.BInsertBlk(0, b.data, b.slen, 63);
    }
  }

  /** Two halves of the range of an int, one in the buffer and one in r, and a single character asked for: an error,
      with nothing read. */
  method OverfullRead(s: BStream, r: BString) returns (rc: int)
    requires s.Valid() && s.Apart(r) && r.Writable() && s.buff.slen == HALF_RANGE && r.slen == HALF_RANGE
    modifies s`core, s`isEOF, s.buff, s.buff.data, r, r.data
    ensures s.Valid() && s.Apart(r) && r.slen >= 0
    ensures rc == ERR && r.Text() == old(r.Text()) && s.Pending() == old(s.Pending()) != []
  {
    rc := s.BSReadA(r, 1);
  }

  /** A line in the buffer that would not fit behind r: no error, and nothing read. */
  method UnfitLine(s: BStream, r: BString) returns (rc: int)
    requires s.Valid() && s.Apart(r) && r.Writable() && r.slen == INT_MAX - 1 && s.maxBuffSz < INT_MAX
    requires s.buff.slen == 2 && s.buff.Text()[0] != 10 && s.buff.Text()[1] == 10
    modifies s`core, s`isEOF, s.buff, s.buff.data, r, r.data
    ensures s.Valid() && s.Apart(r) && r.slen >= 0
    ensures rc == OK && r.Text() == old(r.Text()) && s.Pending() == old(s.Pending())
  {
    EndsAt(s.buff.Text(), s.core, {10}, 1);
    rc := s.BSReadLnA(r, 10);
  }

  /** No terminator in the buffer, and no room behind it for a chunk: what was buffered is in r, and will be read once
      more. */
  method LineReadTwice(s: BStream, r: BString) returns (rc: int)
    requires s.Valid() && s.Apart(r) && r.Writable() && s.maxBuffSz == 1024 && r.slen == INT_MAX - 1024
    requires s.buff.slen == 1 && s.buff.Text()[0] != 10
    modifies s`core, s`isEOF, s.buff, s.buff.data, r, r.data
    ensures s.Valid() && s.Apart(r) && r.slen >= 0
    ensures rc == ERR && |r.Text()| > old(|r.Text()|) && s.Pending() != []
    ensures old(s.buff.Text()) <= s.Pending() && r.Text()[old(r.slen)] == old(s.buff.Text()[0])
  {
    ghost var text, held, rest := r.Text(), s.buff.Text(), s.core;
    EndsNowhere(held, {10});
    LineGoesOn(held, rest, {10}, LineLength(held + rest, {10}));
    rc := s.BSReadLnA(r, 10);
  }

  // From a core stream of size characters no more was read, leaving left, than a request up to n lacked when
  // the text had orslen and the buffer first.
  ghost predicate Spared(orslen: int, first: nat, size: nat, n: int, left: nat) {
    left <= size && (left < size ==> orslen + first + (size - left) <= n)
  }

  // How many characters a request for n lacks when held are at hand.
  function Missing(n: int, held: int): int {
    if n > held then n - held else 0
  }

  // At least one character was taken if there was one, and no more than n.
  ghost predicate Took(text: seq<byte>, stream: seq<byte>, textAfter: seq<byte>, streamAfter: seq<byte>, n: int) {
    && Moved(text, stream, textAfter, streamAfter)
    && |textAfter| - |text| <= n
    && (|textAfter| == |text| <==> stream == [])
  }

  /** What was taken is the front of the stream, and is behind the text; what was not is left. */
  lemma TookMeans(text: seq<byte>, stream: seq<byte>, textAfter: seq<byte>, streamAfter: seq<byte>, n: int)
    requires Took(text, stream, textAfter, streamAfter, n)
    ensures var k := |textAfter| - |text|;
      && 0 <= k <= n && k <= |stream| && textAfter == text + stream[..k] && streamAfter == stream[k..]
      && (k == 0 <==> stream == [])
  {
  }

  lemma AsMany(text: seq<byte>, all: seq<byte>, textAfter: seq<byte>, left: seq<byte>, n: int)
    requires |text| < n && Moved(text, all, textAfter, left) && (|textAfter| == n || (|textAfter| < n && left == []))
    ensures Took(text, all, textAfter, left, n - |text|) && |textAfter| - |text| == AtMost(|all|, n - |text|)
  {
    var k := |textAfter| - |text|;
    assert left == [] ==> k == |all|;
  }

  lemma NothingRead(text: seq<byte>, all: seq<byte>)
    ensures text + all[..0] == text && all[0..] == all
  {
  }

  function AtMost(have: nat, n: int): int {
    if have < n then have else n
  }

  /** One read may give less than was asked for and is there, namely exactly when both are two or more. */
  lemma ShortReadIff(left: nat, n: nat)
    requires n > 0
    ensures (exists chunks: nat -> nat :: Given(chunks, left, n) < AtMost(left, n)) <==> left >= 2 && n >= 2
  {
    if left >= 2 && n >= 2 {
      var ones := (k: nat) => 1;
      assert Given(ones, left, n) == 1;
    }
  }

  lemma NothingMoved(text: seq<byte>, stream: seq<byte>)
    ensures Moved(text, stream, text, stream)
  {
    assert text == text + stream[..0];
  }

  lemma BufferMoves(text: seq<byte>, all: seq<byte>, k: nat, chars: seq<byte>, rest: seq<byte>)
    requires k <= |all| && chars + rest == all[k..]
    ensures k + |chars| <= |all| && all[k + |chars|..] == rest
    ensures text + all[..k] + chars == text + all[..k + |chars|]
  {
    assert all == all[..k] + (chars + rest);
    assert all[..k] + chars == all[..k + |chars|];
    assert text + all[..k] + chars == text + (all[..k] + chars);
  }

  lemma PartMoves(text: seq<byte>, all: seq<byte>, k: nat, chars: seq<byte>, rest: seq<byte>, take: nat)
    requires k <= |all| && chars + rest == all[k..] && take <= |chars|
    ensures k + take <= |all|
    ensures text + all[..k] + chars[..take] == text + all[..k + take]
    ensures chars[take..] + rest == all[k + take..]
  {
    assert all == all[..k] + (chars + rest);
    assert all[..k] + chars[..take] == all[..k + take];
    assert text + all[..k] + chars[..take] == text + (all[..k] + chars[..take]);
  }

  // k characters went from the front of a stream to the end of a text: nothing is lost, repeated or reordered.
  ghost predicate Moved(text: seq<byte>, stream: seq<byte>, textAfter: seq<byte>, streamAfter: seq<byte>) {
    var k := |textAfter| - |text|;
    0 <= k <= |stream| && textAfter == text + stream[..k] && streamAfter == stream[k..]
  }

  // The line of the stream went to the end of the text, and its rest is left.
  ghost predicate LineMoved(rc: int, text: seq<byte>, stream: seq<byte>, terms: set<byte>,
                            textAfter: seq<byte>, left: seq<byte>)
  {
    && Moved(text, stream, textAfter, left)
    && IsLine(stream, terms, |textAfter| - |text|)
    && rc == if stream == [] then ERR else OK
  }

  // What was buffered, and perhaps more, went to the text, but what was buffered is still to be read as well.
  ghost predicate GaveUp(rc: int, text: seq<byte>, held: seq<byte>, rest: seq<byte>,
                         textAfter: seq<byte>, left: seq<byte>)
  {
    rc == ERR && exists m: nat :: m <= |rest| && textAfter == text + held + rest[..m] && left == held + rest[m..]
  }

  // What a reader of lines makes of a text, what is held in the buffer, and the rest of the stream: nothing when no
  // buffer can be had or the text has no room for what it is to take from the buffer, an error unless the line ends
  // there; else the line, unless a chunk of the given size has no room behind the text before the line is complete.
  ghost predicate LineOutcome(rc: int, text: seq<byte>, held: seq<byte>, rest: seq<byte>, terms: set<byte>, size: int,
                              textAfter: seq<byte>, left: seq<byte>, terminated: bool)
  {
    var first := |text| + LineLength(held, terms);
    if size == INT_MAX then rc == ERR && textAfter == text && left == held + rest
    else if first > INT_MAX then
      rc == (if Ends(held, terms) then OK else ERR) && textAfter == text && left == held + rest
    else if first == INT_MAX then rc == FAULT
    else
      || (&& terminated && (Ends(held, terms) || |text| + |held| + size < INT_MAX)
          && LineMoved(rc, text, held + rest, terms, textAfter, left))
      || (&& !Ends(held, terms) && |text| + size + LineLength(held + rest, terms) >= INT_MAX
          && |textAfter| + size >= INT_MAX && GaveUp(rc, text, held, rest, textAfter, left))
  }

  lemma FittingLine(rc: int, text: seq<byte>, held: seq<byte>, rest: seq<byte>, terms: set<byte>, size: int,
                    textAfter: seq<byte>, left: seq<byte>, terminated: bool)
    requires LineOutcome(rc, text, held, rest, terms, size, textAfter, left, terminated) && size > 0
    ensures |text| + size + LineLength(held + rest, terms) < INT_MAX ==>
      terminated && LineMoved(rc, text, held + rest, terms, textAfter, left)
  {
    FirstPartOfLine(held, rest, terms);
  }

  /** The line is the front of the stream up to and with its first terminator, or all of it; it is behind the text, and
      the rest is left. */
  lemma LineMovedMeans(rc: int, text: seq<byte>, stream: seq<byte>, terms: set<byte>, textAfter: seq<byte>,
                       left: seq<byte>)
    requires LineMoved(rc, text, stream, terms, textAfter, left)
    ensures var n := |textAfter| - |text|;
      && 0 <= n <= |stream| && textAfter == text + stream[..n] && left == stream[n..]
      && (forall i :: 0 <= i < n - 1 ==> stream[i] !in terms)
      && (n < |stream| ==> n > 0 && stream[n - 1] in terms)
    ensures rc == if stream == [] then ERR else OK
  {
  }

  /** A line fits if there is room behind the text for a chunk, and for the whole stream or all up to any one
      terminator. */
  lemma LineFitsIf(s: BStream, r: BString, terms: set<byte>, i: nat)
    requires s.Valid() && i <= |s.Pending()| && (i < |s.Pending()| ==> s.Pending()[i] in terms)
    requires r.slen + s.maxBuffSz + i + (if i < |s.Pending()| then 1 else 0) < INT_MAX
    ensures s.LineFits(r, terms)
  {
    var n := LineLength(s.Pending(), terms);
    assert i < |s.Pending()| ==> n <= i + 1;
  }

  /** What comes of reading a line in every case, by the first terminator that is buffered, at i, or by there being
      none. */
  lemma OutcomeMeans(rc: int, text: seq<byte>, held: seq<byte>, rest: seq<byte>, terms: set<byte>, size: CInt,
                     textAfter: seq<byte>, left: seq<byte>, terminated: bool, i: nat)
    requires LineOutcome(rc, text, held, rest, terms, size, textAfter, left, terminated)
    requires i <= |held| && (forall k :: 0 <= k < i ==> held[k] !in terms) && (i < |held| ==> held[i] in terms)
    ensures size == INT_MAX ==> rc == ERR && textAfter == text && left == held + rest
    ensures size < INT_MAX && i < |held| ==>
      && (|text| + i + 1 > INT_MAX ==> rc == OK && textAfter == text && left == held + rest)
      && (|text| + i + 1 == INT_MAX ==> rc == FAULT)
      && (|text| + i + 1 < INT_MAX ==>
            rc == OK && terminated && textAfter == text + held[..i + 1] && left == held[i + 1..] + rest)
    ensures size < INT_MAX && i == |held| ==>
      && (|text| + i > INT_MAX ==> rc == ERR && textAfter == text && left == held + rest)
      && (|text| + i == INT_MAX ==> rc == FAULT)
      && (|text| + i < INT_MAX <= |text| + i + size ==>
            && rc == ERR
            && exists m: nat :: m <= |rest| && textAfter == text + held + rest[..m] && left == held + rest[m..])
  {
    if i < |held| {
      LineInBuffer(held, rest, terms, i);
      EndsAt(held, rest, terms, i);
      if size < INT_MAX && |text| + i + 1 < INT_MAX {
        LineIsUnique(held + rest, terms, i + 1, |textAfter| - |text|);
      }
    } else {
      EndsNowhere(held, terms);
    }
  }

  lemma FirstPartOfLine(held: seq<byte>, rest: seq<byte>, terms: set<byte>)
    ensures LineLength(held, terms) <= LineLength(held + rest, terms)
  {
    var n := LineLength(held, terms);
    if i :| 0 <= i < |held| && i == n - 1 && held[i] in terms {
      EndsAt(held, rest, terms, i);
    } else {
      LineGoesOn(held, rest, terms, LineLength(held + rest, terms));
    }
  }

  lemma NothingOutcome(rc: int, text: seq<byte>, held: seq<byte>, rest: seq<byte>, terms: set<byte>, size: int)
    requires !Ends(held, terms) && LineLength(held, terms) == |held| && size < INT_MAX
    requires |text| + |held| >= INT_MAX && rc == if |text| + |held| > INT_MAX then ERR else FAULT
    ensures LineOutcome(rc, text, held, rest, terms, size, text, held + rest, false)
    ensures LineOutcome(rc, text, held, rest, terms, size, text, held + rest, true)
  {
  }

  lemma MovedOutcome(text: seq<byte>, held: seq<byte>, rest: seq<byte>, terms: set<byte>, n: nat, size: int)
    requires Clear(held, terms, |held|) && IsLine(rest, terms, n) && 0 < size && |text| + |held| + size < INT_MAX
    ensures var rc := if |held| + n == 0 then ERR else OK;
      LineOutcome(rc, text, held, rest, terms, size, text + held + rest[..n], rest[n..], true)
  {
    EndsNowhere(held, terms);
    LineBeyondBuffer(text, held, rest, terms, n);
    EmptyLine(held + rest, terms, |held| + n);
  }

  lemma GaveUpOutcome(text: seq<byte>, held: seq<byte>, rest: seq<byte>, terms: set<byte>, n: nat, size: int)
    requires Clear(held, terms, |held|) && Clear(rest, terms, n) && size < INT_MAX && |text| + |held| < INT_MAX
    requires |text| + |held| + n + size >= INT_MAX
    ensures forall terminated ::
      LineOutcome(ERR, text, held, rest, terms, size, text + held + rest[..n], held + rest[n..], terminated)
  {
    EndsNowhere(held, terms);
    var all := held + rest;
    assert forall k :: 0 <= k < |held| + n ==> all[k] == if k < |held| then held[k] else rest[k - |held|];
    ClearWithinLine(all, terms, |held| + n, LineLength(all, terms));
    assert GaveUp(ERR, text, held, rest, text + held + rest[..n], held + rest[n..]);
  }

  lemma LineInBuffer(held: seq<byte>, rest: seq<byte>, terms: set<byte>, i: nat)
    requires Clear(held, terms, i) && i < |held| && held[i] in terms
    ensures IsLine(held + rest, terms, i + 1)
    ensures (held + rest)[..i + 1] == held[..i + 1] && (held + rest)[i + 1..] == held[i + 1..] + rest
  {
  }

  lemma LineBeyondBuffer(text: seq<byte>, held: seq<byte>, rest: seq<byte>, terms: set<byte>, n: nat)
    requires Clear(held, terms, |held|) && IsLine(rest, terms, n)
    ensures IsLine(held + rest, terms, |held| + n)
    ensures Moved(text, held + rest, text + held[..|held|] + rest[..n], rest[n..])
  {
    var all := held + rest;
    assert text + held[..|held|] + rest[..n] == text + all[..|held| + n];
    forall k | 0 <= k < |held| + n - 1 ensures all[k] !in terms {
      assert k >= |held| ==> all[k] == rest[k - |held|];
    }
    assert all[..|held| + n] == held + rest[..n];
  }
}
