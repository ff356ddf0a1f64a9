/** The three branches of findreplaceengine, each refining ReplaceAll. */
module ReplaceEngine {
  import opened Capacity
  import opened BStrings
  import opened Search
  import opened Replace

  // Part-way through an in-place pass: the buffer holds finished text up to done, and the rest of the
  // original string s, untouched, from pos on.
  ghost predicate Under(
      buffer: seq<byte>, s: seq<byte>, done: nat, pos: nat, f: seq<byte>, r: seq<byte>, goal: seq<byte>)
    requires |f| > 0
  {
    && done <= pos <= |s| <= |buffer|
    && (forall k :: pos <= k < |s| ==> buffer[k] == s[k])
    && buffer[..done] + ReplaceFrom(s, pos, f, r) == goal
  }

  lemma CopiedFront(r: seq<byte>, s: seq<byte>, dst: nat, t: seq<byte>)
    requires Copied(r, s, dst, t)
    ensures r[..dst] == s[..dst] && r[..dst + |t|] == s[..dst] + t
  {
  }

  lemma TwoCopiesFront(b: seq<byte>, moved: seq<byte>, b': seq<byte>, done: nat, t: seq<byte>, r: seq<byte>)
    requires Copied(moved, b, done, t) && Copied(b', moved, done + |t|, r)
    ensures b'[..done + |t| + |r|] == b[..done] + t + r
  {
    CopiedFront(moved, b, done, t);
    CopiedFront(b', moved, done + |t|, r);
  }

  lemma TwoCopiesBack(b: seq<byte>, moved: seq<byte>, b': seq<byte>, done: nat, t: seq<byte>, r: seq<byte>, k: nat)
    requires Copied(moved, b, done, t) && Copied(b', moved, done + |t|, r) && done + |t| + |r| <= k < |b|
    ensures b'[k] == b[k]
  {
  }

  // Moving the text before the next occurrence down to the finished part, and r after it.
  lemma PassOne(buffer: seq<byte>, moved: seq<byte>, b': seq<byte>, s: seq<byte>,
                done: nat, pos: nat, i: nat, f: seq<byte>, r: seq<byte>, goal: seq<byte>)
    requires |f| > 0 && |r| <= |f| && Under(buffer, s, done, pos, f, r, goal)
    requires i == FirstFrom(s, pos, f)
    requires Copied(moved, buffer, done, buffer[pos..i]) && Copied(b', moved, done + (i - pos), r)
    ensures Under(b', s, done + (i - pos) + |r|, i + |f|, f, r, goal)
  {
    var t := buffer[pos..i];
    assert t == s[pos..i];
    TwoCopiesFront(buffer, moved, b', done, t, r);
    forall k | i + |f| <= k < |s| ensures b'[k] == s[k] {
      TwoCopiesBack(buffer, moved, b', done, t, r, k);
    }
    Regroup(buffer[..done], t, r, ReplaceFrom(s, i + |f|, f, r));
  }

  lemma Regroup(a: seq<byte>, b: seq<byte>, c: seq<byte>, d: seq<byte>)
    ensures a + b + c + d == a + (b + c + d)
  {
  }

  lemma Finished(buffer: seq<byte>, s: seq<byte>, pos: nat, f: seq<byte>, r: seq<byte>, goal: seq<byte>)
    requires |f| > 0 && Under(buffer, s, pos, pos, f, r, goal) && FirstFrom(s, pos, f) == ERR
    ensures buffer[..|s|] == goal
  {
    assert buffer[..|s|] == buffer[..pos] + s[pos..];
  }

  lemma Beginning(buffer: seq<byte>, s: seq<byte>, pos: nat, f: seq<byte>, r: seq<byte>, goal: seq<byte>)
    requires |f| > 0 && pos + |f| <= |s| <= |buffer| && buffer[..|s|] == s && goal == ReplaceAll(s, pos, f, r)
    ensures Under(buffer, s, pos, pos, f, r, goal)
  {
    assert buffer[..pos] == s[..pos];
    forall k | 0 <= k < |s| ensures buffer[k] == s[k] {
      assert buffer[k] == buffer[..|s|][k];
    }
  }

  // What searching the buffer from pos finds is what searching s finds.
  lemma FoundInBuffer(buffer: seq<byte>, s: seq<byte>, pos: nat, f: seq<byte>, i: int)
    requires pos <= |s| <= |buffer| && forall k :: pos <= k < |s| ==> buffer[k] == s[k]
    requires IsFirstMatch(buffer[..|s|], pos, f, i)
    ensures i == FirstFrom(s, pos, f)
  {
    FirstMatchIsUnique(buffer[..|s|], pos, f, i);
    assert buffer[..|s|][pos..] == s[pos..];
    SameSuffixSameFirst(buffer[..|s|], s, pos, f);
  }

  // instr (b, pos, auxf), in a buffer that still agrees with s from pos on
  method FindNext(data: array<byte>, slen: CInt, pos: int, find: ConstString, ghost s: seq<byte>) returns (i: int)
    requires 0 <= pos <= slen == |s| <= data.Length && 0 < find.slen <= find.data.Length
    requires forall k :: pos <= k < |s| ==> data[k] == s[k]
    ensures i == FirstFrom(s, pos, Chars(find))
  {
    i := BInStr(ConstString(data, slen), pos, find);
    FoundInBuffer(data[..], s, pos, Chars(find), i);
  }

  method ReplaceEqual(b: BString, find: ConstString, repl: ConstString, start: int)
    requires b.Backed() && 0 <= b.slen && find.data != b.data && repl.data != b.data
    requires 0 < find.slen <= find.data.Length && repl.slen == find.slen && repl.slen <= repl.data.Length
    requires 0 <= start <= b.slen - find.slen
    modifies b.data
    ensures b.Text() == ReplaceAll(old(b.Text()), start, Chars(find), Chars(repl))
    ensures b.data[b.slen..] == old(b.data[b.slen..])
  {
    ghost var s, f, r := b.Text(), Chars(find), Chars(repl);
    ghost var goal := ReplaceAll(s, start, f, r);
    var pos := start;
    Beginning(b.data[..], s, pos, f, r, goal);
    var i := FindNext(b.data, b.slen, pos, find, s);
    while i >= 0
      invariant 0 <= pos && Under(b.data[..], s, pos, pos, f, r, goal)
      invariant f == Chars(find) && r == Chars(repl) && i == FirstFrom(s, pos, f)
      invariant b.data[|s|..] == old(b.data[|s|..])
      decreases |s| - pos
    {
      OverwriteOne(b.data, find, repl, i, s, pos, f, r, goal);
      pos := i + find.slen;
      i := FindNext(b.data, b.slen, pos, find, s);
    }
    Finished(b.data[..], s, pos, f, r, goal);
  }

  method OverwriteOne(data: array<byte>, find: ConstString, repl: ConstString, i: int,
                      ghost s: seq<byte>, ghost pos: nat, ghost f: seq<byte>, ghost r: seq<byte>, ghost goal: seq<byte>)
    requires find.data != data && 0 <= find.slen <= find.data.Length && f == Chars(find)
    requires repl.data != data && 0 <= repl.slen <= repl.data.Length && r == Chars(repl) && |f| == |r| > 0
    requires Under(data[..], s, pos, pos, f, r, goal) && i == FirstFrom(s, pos, f) != ERR
    modifies data
    ensures f == Chars(find) && r == Chars(repl) && data[|s|..] == old(data[|s|..])
    ensures Under(data[..], s, i + find.slen, i + find.slen, f, r, goal)
  {
    ghost var buffer := data[..];
    MemCopy(data, i, repl.data, 0, repl.slen);
    assert Copied(buffer, buffer, pos, buffer[pos..i]);
    PassOne(buffer, buffer, data[..], s, pos, pos, i, f, r, goal);
  }

  method ReplaceShrinking(b: BString, find: ConstString, repl: ConstString, start: int)
    requires b.Backed() && 0 <= b.slen && find.data != b.data && repl.data != b.data
    requires 0 <= repl.slen < find.slen <= find.data.Length && repl.slen <= repl.data.Length
    requires 0 <= start <= b.slen - find.slen
    modifies b`slen, b.data
    ensures b.Backed() && 0 <= b.slen <= old(b.slen)
    ensures if b.slen < old(b.slen) then b.data[b.slen] == 0 else b.data[..] == old(b.data[..])
    ensures b.Text() == ReplaceAll(old(b.Text()), start, Chars(find), Chars(repl))
  {
    ghost var s, f, r := b.Text(), Chars(find), Chars(repl);
    var acc, pos := ShrinkLoop(b.data, b.slen, find, repl, start, s);
    ghost var goal := ReplaceAll(s, start, f, r);
    if acc != 0 {
      CloseUp(b, acc, pos, pos - acc, s, f, r, goal);
    } else {
      Finished(b.data[..], s, pos, f, r, goal);
    }
  }

  method ShrinkLoop(data: array<byte>, slen: CInt, find: ConstString, repl: ConstString, start: int, ghost s: seq<byte>)
    returns (acc: int, pos: int)
    requires find.data != data && repl.data != data && 0 <= slen <= data.Length && s == data[..slen]
    requires 0 <= repl.slen < find.slen <= find.data.Length && repl.slen <= repl.data.Length
    requires 0 <= start <= slen - find.slen
    modifies data
    ensures 0 <= acc <= pos && FirstFrom(s, pos, Chars(find)) == ERR && (acc == 0 ==> data[..] == old(data[..]))
    ensures Under(data[..], s, pos - acc, pos, Chars(find), Chars(repl), ReplaceAll(s, start, Chars(find), Chars(repl)))
    ensures Chars(find) == old(Chars(find)) && Chars(repl) == old(Chars(repl))
  {
    hide ReplaceAll, FirstFrom, Copied;
    ghost var f, r := Chars(find), Chars(repl);
    ghost var goal := ReplaceAll(s, start, f, r);
    var delta := find.slen - repl.slen;
    pos, acc := start, 0;
    ghost var done: nat := pos;
    Beginning(data[..], s, pos, f, r, goal);
    var i := FindNext(data, slen, pos, find, s);
    while i >= 0
      invariant 0 <= acc && 0 <= done == pos - acc && (acc == 0 ==> data[..] == old(data[..]))
      invariant Under(data[..], s, done, pos, f, r, goal)
      invariant f == Chars(find) && r == Chars(repl) && i == FirstFrom(s, pos, f)
      decreases |s| - pos
    {
      MoveOne(data, find, repl, i, acc, s, done, pos, f, r, goal);
      done := done + (i - pos) + repl.slen;
      acc := acc + delta;
      pos := i + find.slen;
      i := FindNext(data, slen, pos, find, s);
    }
  }

  method MoveDown(data: array<byte>, dst: nat, src: nat, n: nat)
    requires dst <= src && src + n <= data.Length
    modifies data
    ensures Copied(data[..], old(data[..]), dst, old(data[..])[src..src + n])
  {
    if src - dst != 0 && n > 0 {
      MemMove(data, dst, src, n);
    }
  }

  method MoveOne(data: array<byte>, find: ConstString, repl: ConstString, i: int, acc: nat,
                 ghost s: seq<byte>, ghost done: nat, pos: nat, ghost f: seq<byte>, ghost r: seq<byte>,
                 ghost goal: seq<byte>)
    requires find.data != data && 0 <= find.slen <= find.data.Length && f == Chars(find)
    requires repl.data != data && 0 <= repl.slen <= repl.data.Length && r == Chars(repl)
    requires |f| > repl.slen && done == pos - acc
    requires Under(data[..], s, done, pos, f, r, goal) && i == FirstFrom(s, pos, f) != ERR
    modifies data
    ensures f == Chars(find) && r == Chars(repl)
    ensures Under(data[..], s, done + (i - pos) + repl.slen, i + find.slen, f, r, goal)
  {
    hide ReplaceFrom, FirstFrom;
    ghost var buffer := data[..];
    MoveDown(data, pos - acc, pos, i - pos);
    ghost var moved := data[..];
    assert Copied(moved, buffer, done, buffer[pos..i]);
    PutRepl(data, repl, i - acc);
    PassOne(buffer, moved, data[..], s, done, pos, i, f, r, goal);
  }

  method PutRepl(data: array<byte>, repl: ConstString, dst: nat)
    requires repl.data != data && 0 <= repl.slen <= repl.data.Length && dst + repl.slen <= data.Length
    modifies data
    ensures Copied(data[..], old(data[..]), dst, Chars(repl))
  {
    if repl.slen != 0 {
      MemCopy(data, dst, repl.data, 0, repl.slen);
    }
  }

  // The text after the last occurrence is moved down, and the string ends there.
  method CloseUp(b: BString, acc: nat, pos: nat, ghost done: nat,
                 ghost s: seq<byte>, ghost f: seq<byte>, ghost r: seq<byte>, ghost goal: seq<byte>)
    requires b.Backed() && b.slen == |s| && 0 < acc && done == pos - acc && |f| > 0
    requires Under(b.data[..], s, done, pos, f, r, goal) && FirstFrom(s, pos, f) == ERR
    modifies b`slen, b.data
    ensures b.slen == |s| - acc && b.data[b.slen] == 0 && b.Text() == goal
  {
    ghost var buffer := b.data[..];
    if b.slen > pos {
      MemMove(b.data, pos - acc, pos, b.slen - pos);
    }
    assert buffer[pos..|s|] == s[pos..];
    assert Copied(b.data[..], buffer, done, s[pos..]);
    CopiedFront(b.data[..], buffer, done, s[pos..]);
    b.slen := b.slen - acc;
    ghost var text := b.Text();
    b.data[b.slen] := 0;
    assert b.Text() == text;
  }
}
