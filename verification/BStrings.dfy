/** bstrlib's growable strings: the header with its buffer, length and capacity, and the edits made in place. */
module BStrings {
  import opened Capacity

  type byte = c: int | 0 <= c < 256

  const OK := 0
  const ERR := -1
  // No code of the library: here it goes on to access memory outside the buffer.
  const FAULT := -2

  // const_bstring: characters that are only read, be they a whole string or a stretch of one.
  datatype ConstString = ConstString(data: array<byte>, slen: CInt)

  ghost function Chars(b: ConstString): seq<byte>
    requires 0 <= b.slen <= b.data.Length
    reads b.data
  {
    b.data[..b.slen]
  }

  // r is s with t written over it at dst
  ghost predicate Copied(r: seq<byte>, s: seq<byte>, dst: nat, t: seq<byte>) {
    && dst + |t| <= |s| == |r|
    && forall k :: 0 <= k < |s| ==> r[k] == if dst <= k < dst + |t| then t[k - dst] else s[k]
  }

  // memmove within one buffer
  method MemMove(a: array<byte>, dst: nat, src: nat, n: nat)
    requires dst + n <= a.Length && src + n <= a.Length
    modifies a
    ensures Copied(a[..], old(a[..]), dst, old(a[..])[src..src + n])
  {
    forall k | 0 <= k < n {
      a[dst + k] := a[src + k];
    }
  }

  // memcpy between two buffers
  method MemCopy(a: array<byte>, dst: nat, from: array<byte>, src: nat, n: nat)
    requires a != from && dst + n <= a.Length && src + n <= from.Length
    modifies a
    ensures Copied(a[..], old(a[..]), dst, from[..][src..src + n])
  {
    forall k | 0 <= k < n {
      a[dst + k] := from[src + k];
    }
  }

  method MemSet(a: array<byte>, dst: nat, c: byte, n: nat)
    requires dst + n <= a.Length
    modifies a
    ensures Copied(a[..], old(a[..]), dst, Fill(c, n))
  {
    forall k | 0 <= k < n {
      a[dst + k] := c;
    }
  }

  function Fill(c: byte, n: nat): (r: seq<byte>)
    ensures |r| == n && forall i :: 0 <= i < n ==> r[i] == c
  {
    seq(n, _ => c)
  }

  // ---------------------------------------------------------------- what the edits mean

  // s, made at least n long
  function Padded(s: seq<byte>, n: nat, fill: byte): seq<byte> {
    if |s| < n then s + Fill(fill, n - |s|) else s
  }

  function Deleted(s: seq<byte>, pos: int, len: int): seq<byte> {
    var p := if pos < 0 then 0 else pos;
    var n := if pos < 0 then len + pos else len;
    if n <= 0 || p >= |s| then s
    else if p + n >= |s| then s[..p]
    else s[..p] + s[p + n..]
  }

  function Inserted(s: seq<byte>, pos: nat, t: seq<byte>, fill: byte): seq<byte> {
    var padded := Padded(s, pos, fill);
    padded[..pos] + t + padded[pos..]
  }

  // s with the section of length len at pos, as far as there is one, replaced by t
  function Replaced(s: seq<byte>, pos: nat, len: nat, t: seq<byte>, fill: byte): seq<byte> {
    var padded := Padded(s, pos, fill);
    padded[..pos] + t + if pos + len <= |padded| then padded[pos + len..] else []
  }

  // t written over s from pos on
  function Overwritten(s: seq<byte>, pos: nat, t: seq<byte>, fill: byte): seq<byte> {
    Replaced(s, pos, |t|, t, fill)
  }

  // What bsetstr returns for k characters to be written at pos into a string of slen characters. When it does not
  // grow and fills its buffer, the terminator goes to data[mlen].
  function SetCode(slen: nat, mlen: nat, pos: nat, k: nat): int {
    if pos + k >= INT_MAX then ERR
    else if slen < mlen || pos + k >= slen || (pos + k + 1 == slen && slen < HALF_RANGE) then OK
    else FAULT
  }

  // What breplace returns for a section of len characters at pos, to be replaced by k, in a string of slen
  // characters.
  function ReplaceCode(slen: nat, mlen: nat, pos: nat, len: nat, k: nat): int {
    var t := slen + k - len;
    if pos + len > INT_MAX then ERR
    else if pos + len >= slen then SetCode(slen, mlen, pos, k)
    else if k < len || (k == len && slen < mlen) then OK
    else if k == len then FAULT
    else if t > INT_MAX then ERR
    else if t < HALF_RANGE || t < mlen then OK
    else FAULT
  }

  // s over and over, for len characters
  function Patterned(s: seq<byte>, len: nat): (r: seq<byte>)
    requires s != []
    ensures |r| == len && forall i :: 0 <= i < len ==> r[i] == s[i % |s|]
  {
    seq(len, i requires 0 <= i => s[i % |s|])
  }

  lemma FirstPeriod(buffer: seq<byte>, s: seq<byte>)
    requires 0 < |s| <= |buffer| && buffer[..|s|] == s
    ensures forall k :: 0 <= k < |s| ==> buffer[k] == s[k % |s|]
  {
    forall k | 0 <= k < |s| ensures buffer[k] == s[k % |s|] {
      assert buffer[..|s|][k] == s[k] && k % |s| == k;
    }
  }

  lemma OnePeriodOn(i: nat, d: nat)
    requires 0 < d <= i
    ensures (i - d) % d == i % d
  {
    var k, apart := i / d - (i - d) / d - 1, (i - d) % d - i % d;
    Remainder(i, d);
    Remainder(i - d, d);
    assert k * d == apart;
    NoMultipleWithin(k, d, apart);
  }

  lemma Remainder(i: nat, d: nat)
    requires d > 0
    ensures i == (i / d) * d + i % d
  {
  }

  lemma NoMultipleWithin(k: int, d: int, x: int)
    requires k * d == x && -d < x < d
    ensures x == 0
  {
    assert k >= 1 ==> (k - 1) * d >= 0;
    assert k <= -1 ==> (-k - 1) * d >= 0;
  }

  // A buffer s holds the text was; a copy or two within it leave the edited text in the buffer r.

  lemma Appended(s: seq<byte>, was: seq<byte>, t: seq<byte>, r: seq<byte>)
    requires |was| + |t| <= |s| && s[..|was|] == was && Copied(r, s, |was|, t)
    ensures r[..|was| + |t|] == was + t
  {
  }

  lemma DeletesInPlace(s: seq<byte>, was: seq<byte>, pos: nat, len: nat, r: seq<byte>)
    requires |was| <= |s| && s[..|was|] == was && pos + len < |was| && len > 0
    requires Copied(r, s, pos, s[pos + len..|was|])
    ensures r[..|was| - len] == Deleted(was, pos, len)
  {
  }

  lemma InsertsInPlace(s: seq<byte>, was: seq<byte>, pos: nat, t: seq<byte>, fill: byte, moved: seq<byte>, r: seq<byte>)
    requires pos <= |was| && |was| + |t| <= |s| && s[..|was|] == was
    requires Copied(moved, s, pos + |t|, s[pos..|was|]) && Copied(r, moved, pos, t)
    ensures r[..|was| + |t|] == Inserted(was, pos, t, fill)
  {
  }

  lemma InsertsPastEnd(
      s: seq<byte>, was: seq<byte>, pos: nat, t: seq<byte>, fill: byte, filled: seq<byte>, r: seq<byte>)
    requires |was| < pos && pos + |t| <= |s| && s[..|was|] == was
    requires Copied(filled, s, |was|, Fill(fill, pos - |was|)) && Copied(r, filled, pos, t)
    ensures r[..pos + |t|] == Inserted(was, pos, t, fill)
  {
  }

  lemma OverwritesInPlace(s: seq<byte>, was: seq<byte>, pos: nat, t: seq<byte>, fill: byte, r: seq<byte>)
    requires pos <= |was| <= |s| && pos + |t| <= |s| && s[..|was|] == was
    requires Copied(r, s, pos, t)
    ensures r[..if pos + |t| > |was| then pos + |t| else |was|] == Overwritten(was, pos, t, fill)
  {
  }

  lemma ReplacesInPlace(
      s: seq<byte>, was: seq<byte>, pos: nat, len: nat, t: seq<byte>, fill: byte, moved: seq<byte>, r: seq<byte>)
    requires pos + len <= |was| && |was| + |t| - len <= |s| && |was| <= |s| && s[..|was|] == was
    requires Copied(moved, s, pos + |t|, s[pos + len..|was|]) && Copied(r, moved, pos, t)
    ensures r[..|was| + |t| - len] == Replaced(was, pos, len, t, fill)
  {
  }

  // A section that reaches the end is overwritten, and what then is left of it cut off.
  lemma CutToEnd(was: seq<byte>, pos: nat, len: nat, t: seq<byte>, fill: byte)
    requires |was| <= pos + len
    ensures var r := Overwritten(was, pos, t, fill);
      pos + |t| <= |r| && r[..pos + |t|] == Replaced(was, pos, len, t, fill)
  {
  }

  /** Deleting what was inserted gives the string back. */
  lemma DeleteUndoesInsert(s: seq<byte>, pos: nat, t: seq<byte>, fill: byte)
    requires pos <= |s|
    ensures Deleted(Inserted(s, pos, t, fill), pos, |t|) == s
  {
    var r := Inserted(s, pos, t, fill);
    assert r == s[..pos] + t + s[pos..];
    if pos + |t| < |r| {
      assert r[pos + |t|..] == s[pos..];
    }
  }

  /** Replacing is deleting and then inserting, as long as the section starts within the string. */
  lemma ReplaceIsDeleteInsert(s: seq<byte>, pos: nat, len: nat, t: seq<byte>, fill: byte)
    requires pos <= |s|
    ensures Replaced(s, pos, len, t, fill) == Inserted(Deleted(s, pos, len), pos, t, fill)
  {
    var d := Deleted(s, pos, len);
    if len > 0 && pos < |s| && pos + len < |s| {
      assert d[pos..] == s[pos + len..];
    }
    assert d[..pos] == s[..pos];
  }

  // What the edits leave at every position.

  lemma InsertedAt(s: seq<byte>, pos: nat, t: seq<byte>, fill: byte)
    ensures var r := Inserted(s, pos, t, fill);
      && |r| == (if pos > |s| then pos else |s|) + |t|
      && r[pos..pos + |t|] == t
      && (forall k :: 0 <= k < pos ==> r[k] == if k < |s| then s[k] else fill)
      && (forall k :: pos <= k < |s| ==> r[k + |t|] == s[k])
  {
  }

  // What lies from pos up to pos + len goes, as far as it lies within the string.
  lemma DeletedIs(s: seq<byte>, pos: int, len: int)
    ensures var from, to := if pos < 0 then 0 else pos, if pos + len < |s| then pos + len else |s|;
      Deleted(s, pos, len) == if from < to then s[..from] + s[to..] else s
  {
    if 0 <= pos < |s| && pos + len >= |s| {
      assert s[|s|..] == [];
      assert s[..pos] + [] == s[..pos];
    }
    if pos < 0 && len + pos >= |s| {
      assert s[..0] + s[|s|..] == s[..0];
    }
  }

  lemma ReplacedAt(s: seq<byte>, pos: nat, len: nat, t: seq<byte>, fill: byte)
    ensures var r := Replaced(s, pos, len, t, fill);
      && |r| == pos + |t| + (if pos + len < |s| then |s| - (pos + len) else 0)
      && r[pos..pos + |t|] == t
      && (forall k :: 0 <= k < pos ==> r[k] == if k < |s| then s[k] else fill)
      && (forall k :: pos + len <= k < |s| ==> r[k - len + |t|] == s[k])
  {
  }

  lemma OverwrittenAt(s: seq<byte>, pos: nat, t: seq<byte>, fill: byte)
    ensures var r := Overwritten(s, pos, t, fill);
      && |r| == (if pos + |t| < |s| then |s| else pos + |t|)
      && r[pos..pos + |t|] == t
      && (forall k :: 0 <= k < |r| && !(pos <= k < pos + |t|) ==> r[k] == if k < |s| then s[k] else fill)
  {
  }

  /** What a string holds, and what makes it one to be worked on, by its fields. */
  lemma StringFields(b: BString)
    ensures b.Backed() <==> b.slen <= b.data.Length && b.mlen <= b.data.Length
    ensures b.Writable() <==> 0 <= b.slen <= b.mlen && 0 < b.mlen
    ensures b.Terminated() <==> 0 <= b.slen < b.mlen <= b.data.Length && b.data[b.slen] == 0
    ensures 0 <= b.slen <= b.data.Length ==> b.Text() == b.data[..b.slen] == Chars(ConstString(b.data, b.slen))
  {
  }

  // ---------------------------------------------------------------- the string

  class BString {
    var data: array<byte>
    var slen: CInt
    var mlen: CInt

    // The buffer is as large as the header says.
    ghost predicate Backed()
      reads this
    {
      slen <= data.Length && mlen <= data.Length
    }

    // What the operations check before they write.
    predicate Writable()
      reads this
    {
      0 <= slen <= mlen && 0 < mlen
    }

    ghost predicate Terminated()
      reads this, data
    {
      0 <= slen < mlen <= data.Length && data[slen] == 0
    }

    ghost function Text(): seq<byte>
      requires 0 <= slen <= data.Length
      reads this, data
    {
      data[..slen]
    }

    // bfromcstr ("")
    constructor Empty()
      ensures Backed() && Terminated() && fresh(data) && Text() == []
    {
      slen, mlen := 0, 8;
      data := new byte[8](_ => 0);
    }

    /** There is room for as many characters as asked for; whether there is room for one more, which the
        terminator needs, is stated exactly. */
    method BAlloc(olen: CInt) returns (rc: int)
      requires Backed()
      modifies this, data
      ensures Backed() && (data == old(data) || fresh(data))
      ensures rc == if old(Writable()) && olen > 0 then OK else ERR
      ensures slen == old(slen)
      ensures rc == ERR ==> data == old(data) && mlen == old(mlen) && data[..] == old(data[..])
      ensures rc == OK ==>
        && Writable() && Text() == old(Text())
        && mlen >= old(mlen) && mlen >= olen
        && (mlen > olen <==> olen < HALF_RANGE || old(mlen) > olen)
        && (olen < old(mlen) ==> mlen == old(mlen))
        && (old(Terminated()) ==> Terminated())
    {
      if slen < 0 || mlen <= 0 || mlen < slen || olen <= 0 {
        return ERR;
      }
      if olen >= mlen {
        var len := SnapUpSize(olen);
        if len <= mlen {
          return OK;
        }
        // realloc keeps the whole buffer, a new block only the string
        var kept := if 7 * mlen < 8 * slen then mlen else slen;
        var x := new byte[len];
        MemCopy(x, 0, data, 0, kept);
        assert x[..slen] == old(data[..slen]);
        data := x;
        mlen := len;
        data[slen] := 0;
      }
      return OK;
    }

    /** A sum past INT_MAX is refused; one of exactly INT_MAX passes the test, and the terminator then belongs
        at a place that no buffer has. */
    method BConcat(b1: ConstString) returns (rc: int)
      requires Backed() && b1.slen <= b1.data.Length && b1.data != data
      modifies this, data
      ensures Backed() && (data == old(data) || fresh(data))
      ensures rc == OK || rc == ERR || rc == FAULT
      ensures rc == OK <==> old(Writable()) && 0 <= b1.slen && old(slen) + b1.slen < INT_MAX
      ensures rc == FAULT <==> 0 <= old(slen) <= old(mlen) && 0 <= b1.slen && old(slen) + b1.slen == INT_MAX
      ensures rc != OK ==> slen == old(slen) && mlen == old(mlen) && data == old(data) && data[..] == old(data[..])
      ensures rc == OK ==> Terminated() && mlen >= old(mlen) && Text() == old(Text()) + Chars(b1)
    {
      var d: int, len: int := slen, b1.slen;
      if d < 0 || mlen - d < 0 || len < 0 || Wrap(d + len) < 0 {
        return ERR;
      }
      if mlen <= Wrap(d + len + 1) {
        var r := BAlloc(Wrap(d + len + 1));
        if r != OK {
          return ERR;
        }
      }
      // data[d + len] is to be written
      if d + len >= mlen {
        return FAULT;
      }
      PutBehind(b1);
      return OK;
    }

    method PutBehind(b1: ConstString)
      requires Backed() && Writable() && 0 <= b1.slen <= b1.data.Length && b1.data != data && slen + b1.slen < mlen
      modifies this`slen, data
      ensures Terminated() && Text() == old(Text()) + Chars(b1)
    {
      ghost var buffer, was, more := data[..], Text(), Chars(b1);
      MemCopy(data, slen, b1.data, 0, b1.slen);
      Appended(buffer, was, more, data[..]);
      assert data[..slen + b1.slen] == was + more;
      data[slen + b1.slen] := 0;
      slen := slen + b1.slen;
      assert data[..slen] == was + more;
    }

    method BConChar(c: byte) returns (rc: int)
      requires Backed()
      modifies this, data
      ensures Backed() && (data == old(data) || fresh(data))
      ensures rc == if old(Writable()) && old(slen) + 2 <= INT_MAX then OK else ERR
      ensures rc == ERR ==> slen == old(slen) && data[..] == old(data[..])
      ensures rc == OK ==> Terminated() && Text() == old(Text()) + [c]
    {
      var d: int := slen;
      if d < 0 || mlen - d < 0 {
        return ERR;
      }
      var r := BAlloc(Wrap(d + 2));
      if r != OK {
        return ERR;
      }
      data[d] := c;
      data[d + 1] := 0;
      slen := slen + 1;
      return OK;
    }

    // b->data[b->slen] = 0
    method PutTerminator()
      requires 0 <= slen < mlen <= data.Length
      modifies data
      ensures Terminated() && Text() == old(Text())
    {
      data[slen] := 0;
    }

    /** The section is clamped to the string, on condition that the two sums that clamp it fit an int; when one
        does not, the outcome is never the right one. */
    method BDelete(pos: CInt, len: CInt) returns (rc: int)
      requires Backed()
      modifies this`slen, data
      ensures Backed() && slen <= old(slen)
      ensures !old(Writable()) ==> rc == ERR && slen == old(slen) && data[..] == old(data[..])
      ensures old(Writable()) ==>
        var fits := if pos < 0 then pos + len >= -0x8000_0000
                    else len <= 0 || pos >= old(slen) || pos + len <= INT_MAX;
        var code := if len >= 0 && pos + len >= 0 then OK else ERR;
        && (fits ==>
              && rc == code && Writable()
              && Text() == (if rc == OK then Deleted(old(Text()), pos, len) else old(Text()))
              && (old(Terminated()) || slen < old(slen) ==> Terminated()))
        && (!fits ==>
              && (rc != code || slen != |Deleted(old(Text()), pos, len)|)
              && (pos >= 0 && old(slen) <= HALF_RANGE ==> rc == FAULT))
    {
      var p, n := pos, len;
      if p < 0 {
        n := Wrap(n + p);
        p := 0;
      }
      if n < 0 || slen < 0 || mlen < slen || mlen <= 0 {
        return ERR;
      }
      if n > 0 && p < slen {
        var next := Wrap(p + n);
        if next >= slen {
          slen := p;
        } else {
          rc := CutOut(p, n, next);
          if rc != OK {
            return;
          }
        }
        PutTerminator();
      }
      return OK;
    }

    // The section ends before the string does, or seems to.
    method CutOut(p: CInt, n: CInt, next: CInt) returns (rc: int)
      requires Backed() && Writable() && 0 <= p < slen && n > 0 && next == Wrap(p + n) < slen
      modifies this`slen, data
      ensures slen <= old(slen) && (rc == OK || rc == FAULT)
      ensures next >= 0 ==> rc == OK && Writable() && slen < mlen && Text() == Deleted(old(Text()), p, n)
      ensures next < 0 && rc == OK ==> 0 <= slen == old(slen) - n && old(slen) > HALF_RANGE
    {
      var rest := Wrap(slen - next);
      // data[next] is to be read
      if rest > 0 && next < 0 {
        return FAULT;
      }
      if rest > 0 {
        ghost var buffer, was := data[..], Text();
        MemMove(data, p, next, rest);
        DeletesInPlace(buffer, was, p, n, data[..]);
      }
      slen := slen - n;
      // data[slen] is to be written
      return if slen < 0 then FAULT else OK;
    }

    /** Refused too when the new end, or the place of the terminator after it, does not fit an int. */
    method BInsertBlk(pos: CInt, blk: array<byte>, len: CInt, fill: byte) returns (rc: int)
      requires Backed() && len <= blk.Length && blk != data
      modifies this, data
      ensures Backed() && (data == old(data) || fresh(data))
      ensures rc == if old(Writable()) && 0 <= pos && 0 <= len && old(slen) + len < INT_MAX && pos + len < INT_MAX
                    then OK else ERR
      ensures rc == ERR ==> slen == old(slen) && mlen == old(mlen) && data == old(data) && data[..] == old(data[..])
      ensures rc == OK ==> Terminated() && mlen >= old(mlen) && Text() == Inserted(old(Text()), pos, blk[..len], fill)
    {
      if pos < 0 || len < 0 || slen < 0 || mlen <= 0 || mlen < slen {
        return ERR;
      }
      var d, l := Wrap(slen + len), Wrap(pos + len);
      if d < 0 || l < 0 {
        return ERR;
      }
      if l > d {
        rc := InsertPastEnd(pos, blk, len, fill);
      } else {
        rc := InsertWithin(pos, blk, len, fill);
      }
      if rc == OK {
        PutTerminator();
      }
    }

    method InsertPastEnd(pos: CInt, blk: array<byte>, len: CInt, fill: byte) returns (rc: int)
      requires Backed() && Writable() && blk != data && 0 <= len <= blk.Length
      requires slen < pos && pos + len <= INT_MAX
      modifies this, data
      ensures Backed() && (data == old(data) || fresh(data))
      ensures rc == if pos + len < INT_MAX then OK else ERR
      ensures rc == ERR ==> slen == old(slen) && mlen == old(mlen) && data == old(data) && data[..] == old(data[..])
      ensures rc == OK ==> slen == pos + len < mlen && mlen >= old(mlen)
      ensures rc == OK ==> Text() == Inserted(old(Text()), pos, blk[..len], fill)
    {
      rc := BAlloc(Wrap(pos + len + 1));
      if rc == OK {
        FillUpTo(pos, blk, len, fill);
      }
    }

    method FillUpTo(pos: CInt, blk: array<byte>, len: CInt, fill: byte)
      requires Backed() && Writable() && blk != data && 0 <= len <= blk.Length
      requires slen < pos && pos + len < mlen
      modifies this`slen, data
      ensures slen == pos + len && Text() == Inserted(old(Text()), pos, blk[..len], fill)
    {
      ghost var buffer, was := data[..], Text();
      MemSet(data, slen, fill, pos - slen);
      slen := pos + len;
      ghost var filled := data[..];
      MemCopy(data, pos, blk, 0, len);
      InsertsPastEnd(buffer, was, pos, blk[..len], fill, filled, data[..]);
    }

    method InsertWithin(pos: CInt, blk: array<byte>, len: CInt, ghost fill: byte) returns (rc: int)
      requires Backed() && Writable() && blk != data && 0 <= len <= blk.Length
      requires 0 <= pos <= slen && slen + len <= INT_MAX
      modifies this, data
      ensures Backed() && (data == old(data) || fresh(data))
      ensures rc == if old(slen) + len < INT_MAX then OK else ERR
      ensures rc == ERR ==> slen == old(slen) && mlen == old(mlen) && data == old(data) && data[..] == old(data[..])
      ensures rc == OK ==> 0 <= slen < mlen && mlen >= old(mlen)
      ensures rc == OK ==> Text() == Inserted(old(Text()), pos, blk[..len], fill)
    {
      rc := BAlloc(Wrap(slen + len + 1));
      if rc == OK {
        OpenUp(pos, blk, len, fill);
      }
    }

    method OpenUp(pos: CInt, blk: array<byte>, len: CInt, ghost fill: byte)
      requires Backed() && Writable() && blk != data && 0 <= len <= blk.Length
      requires 0 <= pos <= slen && slen + len < mlen
      modifies this`slen, data
      ensures slen == old(slen) + len && Text() == Inserted(old(Text()), pos, blk[..len], fill)
    {
      ghost var buffer, was := data[..], Text();
      MemMove(data, pos + len, pos, slen - pos);
      slen := slen + len;
      ghost var moved := data[..];
      MemCopy(data, pos, blk, 0, len);
      InsertsInPlace(buffer, was, pos, blk[..len], fill, moved, data[..]);
    }

    /** Refused when the new end does not fit an int with one to spare. */
    method BSetStr(pos: CInt, b1: ConstString, fill: byte) returns (rc: int)
      requires Backed() && b1.slen <= b1.data.Length && b1.data != data
      modifies this, data
      ensures Backed() && (data == old(data) || fresh(data))
      ensures rc == OK || rc == ERR || rc == FAULT
      ensures rc == ERR <==> !old(Writable()) || pos < 0 || b1.slen < 0 || pos + b1.slen >= INT_MAX
      ensures rc != ERR ==>
        (rc == FAULT <==> && old(slen) == old(mlen) && pos + b1.slen < old(slen)
                          && (pos + b1.slen + 1 < old(slen) || old(slen) >= HALF_RANGE))
      ensures rc == ERR ==> slen == old(slen) && mlen == old(mlen) && data == old(data) && data[..] == old(data[..])
      ensures rc != ERR ==> Writable() && Text() == Overwritten(old(Text()), pos, Chars(b1), fill)
      ensures rc == OK ==> Terminated()
      ensures rc == FAULT ==> slen == mlen
    {
      if pos < 0 || slen < 0 || mlen < slen || mlen <= 0 || b1.slen < 0 {
        return ERR;
      }
      hide Overwritten;
      var d: int := Wrap(pos + b1.slen);
      var grown := BAlloc(Wrap(d + 1));
      if grown != OK {
        return ERR;
      }
      WriteAt(pos, b1, fill);
      // data[slen] is to be written
      if slen >= mlen {
        return FAULT;
      }
      PutTerminator();
      return OK;
    }

    method WriteAt(pos: CInt, b1: ConstString, fill: byte)
      requires Backed() && b1.data != data && 0 <= b1.slen <= b1.data.Length
      requires 0 <= pos && 0 <= slen <= mlen && pos + b1.slen < mlen
      modifies this`slen, data
      ensures slen == (if pos + b1.slen > old(slen) then pos + b1.slen else old(slen))
      ensures 0 <= slen && Text() == Overwritten(old(Text()), pos, Chars(b1), fill)
    {
      hide Overwritten;
      if pos > slen {
        WritePastEnd(pos, b1, fill);
      } else {
        WriteWithin(pos, b1, fill);
      }
    }

    method WritePastEnd(pos: CInt, b1: ConstString, fill: byte)
      requires Backed() && b1.data != data && 0 <= b1.slen <= b1.data.Length
      requires 0 <= slen < pos && pos + b1.slen < mlen
      modifies this`slen, data
      ensures slen == pos + b1.slen && Text() == Overwritten(old(Text()), pos, Chars(b1), fill)
    {
      ghost var was, buffer := Text(), data[..];
      MemSet(data, slen, fill, pos - slen);
      ghost var filled := data[..];
      MemCopy(data, pos, b1.data, 0, b1.slen);
      InsertsPastEnd(buffer, was, pos, Chars(b1), fill, filled, data[..]);
      slen := pos + b1.slen;
    }

    method WriteWithin(pos: CInt, b1: ConstString, ghost fill: byte)
      requires Backed() && b1.data != data && 0 <= b1.slen <= b1.data.Length
      requires 0 <= pos <= slen <= mlen && pos + b1.slen < mlen
      modifies this`slen, data
      ensures slen == (if pos + b1.slen > old(slen) then pos + b1.slen else old(slen))
      ensures 0 <= slen && Text() == Overwritten(old(Text()), pos, Chars(b1), fill)
    {
      ghost var was, buffer := Text(), data[..];
      MemCopy(data, pos, b1.data, 0, b1.slen);
      OverwritesInPlace(buffer, was, pos, Chars(b1), fill, data[..]);
      if pos + b1.slen > slen {
        slen := pos + b1.slen;
      }
    }

    /** The string end to end, over and over, for len characters. */
    method BPattern(len: CInt) returns (rc: int)
      requires Backed()
      modifies this, data
      ensures Backed() && (data == old(data) || fresh(data))
      ensures rc == if old(Writable()) && old(slen) > 0 && 0 <= len < INT_MAX then OK else ERR
      ensures rc == ERR ==> slen == old(slen) && data[..] == old(data[..])
      ensures rc == OK ==> Terminated() && Text() == Patterned(old(Text()), len)
    {
      var d: int := if slen < 0 then 0 else slen;
      if d <= 0 || len < 0 {
        return ERR;
      }
      ghost var was := data[..slen];
      var grown := BAlloc(Wrap((len as int) + 1));
      if grown != OK {
        return ERR;
      }
      if len > 0 && d == 1 {
        rc := RepeatOne(len);
        return;
      }
      Repeat(d, len, was);
      data[len] := 0;
      slen := len;
      assert Text() == Patterned(was, len);
      return OK;
    }

    // bsetstr (b, len, NULL, b->data[0])
    method RepeatOne(len: CInt) returns (rc: int)
      requires Backed() && slen == 1 && 0 < len < mlen
      modifies this, data
      ensures Backed() && (data == old(data) || fresh(data))
      ensures rc == OK && Terminated() && Text() == Patterned(old(Text()), len)
    {
      var none := new byte[0];
      rc := BSetStr(len, ConstString(none, 0), data[0]);
      assert forall i :: 0 <= i < len ==> i % 1 == 0;
    }

    method Repeat(d: nat, len: nat, ghost was: seq<byte>)
      requires 0 < d == |was| <= data.Length && data[..d] == was && len <= data.Length
      modifies data
      ensures data[..len] == Patterned(was, len)
    {
      var i := d;
      FirstPeriod(data[..], was);
      while i < len
        invariant d <= i && (i <= len || i == d)
        invariant forall k :: 0 <= k < i ==> data[k] == was[k % d]
      {
        OnePeriodOn(i, d);
        data[i] := data[i - d];
        i := i + 1;
      }
    }

    /** Whether it is refused, and whether it has room for the terminator, are stated exactly: when there is text
        after the section and it grows, the request is for the characters alone, which is one too few unless it
        is rounded up or the buffer is larger already. The terminator then goes to data[mlen], as it may in a
        string that filled its buffer before. */
    method BReplace(pos: CInt, len: CInt, b2: ConstString, fill: byte) returns (rc: int)
      requires Backed() && b2.slen <= b2.data.Length && b2.data != data
      modifies this, data
      ensures Backed() && (data == old(data) || fresh(data))
      ensures rc == OK || rc == ERR || rc == FAULT
      ensures rc == ERR <==>
        || !old(Writable()) || pos < 0 || len < 0 || b2.slen < 0 || pos + len > INT_MAX
        || (pos + len >= old(slen) && pos + b2.slen >= INT_MAX)
        || (pos + len < old(slen) && old(slen) + b2.slen - len > INT_MAX)
      ensures rc != ERR && pos + len >= old(slen) ==>
        (rc == FAULT <==> && old(slen) == old(mlen) && pos + b2.slen < old(slen)
                          && (pos + b2.slen + 1 < old(slen) || old(slen) >= HALF_RANGE))
      ensures rc != ERR && pos + len < old(slen) ==>
        var t := old(slen) + b2.slen - len;
        (rc == FAULT <==> t >= old(mlen) && (b2.slen == len || (b2.slen > len && t >= HALF_RANGE)))
      ensures rc == ERR ==> slen == old(slen) && mlen == old(mlen) && data == old(data) && data[..] == old(data[..])
      ensures rc == OK ==> Terminated()
      ensures rc == FAULT ==> slen == mlen
      ensures rc != ERR ==>
        && Writable()
        && Text() == (if rc == OK || pos + len < old(slen) then Replaced(old(Text()), pos, len, Chars(b2), fill)
                      else Overwritten(old(Text()), pos, Chars(b2), fill))
    {
      if pos < 0 || len < 0 {
        return ERR;
      }
      if pos > INT_MAX - len {
        return ERR;
      }
      if slen < 0 || b2.slen < 0 || mlen < slen || mlen <= 0 {
        return ERR;
      }
      if pos + len >= slen {
        rc := ReplaceTail(pos, len, b2, fill);
      } else {
        rc := ReplaceMiddle(pos, len, b2, fill);
      }
    }

    // the section reaches the end of the string
    method ReplaceTail(pos: CInt, len: CInt, b2: ConstString, fill: byte) returns (rc: int)
      requires Backed() && Writable() && b2.data != data && 0 <= b2.slen <= b2.data.Length && 0 <= pos && 0 <= len
      requires slen <= pos + len
      modifies this, data
      ensures Backed() && (data == old(data) || fresh(data))
      ensures rc == SetCode(old(slen), old(mlen), pos, b2.slen)
      ensures rc == ERR ==> slen == old(slen) && mlen == old(mlen) && data == old(data) && data[..] == old(data[..])
      ensures rc == OK ==> Terminated() && Text() == Replaced(old(Text()), pos, len, Chars(b2), fill)
      ensures rc == FAULT ==> Writable() && slen == mlen && Text() == Overwritten(old(Text()), pos, Chars(b2), fill)
    {
      ghost var was := Text();
      rc := BSetStr(pos, b2, fill);
      if rc < 0 {
        return;
      }
      ghost var text := Text();
      CutToEnd(was, pos, len, Chars(b2), fill);
      hide Overwritten, Replaced;
      if pos + b2.slen < slen {
        slen := pos + b2.slen;
        data[slen] := 0;
      }
      assert Text() == text[..pos + b2.slen];
    }

    // there is text after the section
    method ReplaceMiddle(pos: CInt, len: CInt, b2: ConstString, ghost fill: byte) returns (rc: int)
      requires Backed() && Writable() && b2.data != data && 0 <= b2.slen <= b2.data.Length && 0 <= pos && 0 <= len
      requires pos + len < slen
      modifies this, data
      ensures Backed() && (data == old(data) || fresh(data))
      ensures rc == ReplaceCode(old(slen), old(mlen), pos, len, b2.slen)
      ensures rc == ERR ==> slen == old(slen) && mlen == old(mlen) && data == old(data) && data[..] == old(data[..])
      ensures rc != ERR ==> Writable() && Text() == Replaced(old(Text()), pos, len, Chars(b2), fill)
      ensures rc == OK ==> Terminated()
      ensures rc == FAULT ==> slen == mlen
    {
      if b2.slen > len {
        var grown := BAlloc(Wrap(slen + b2.slen - len));
        if grown != OK {
          return ERR;
        }
      }
      ReplaceWithRoom(pos, len, b2, fill);
      // data[slen] is to be written
      if slen >= mlen {
        return FAULT;
      }
      PutTerminator();
      return OK;
    }

    // What stands behind a section moves to where the replacement will end.
    method MoveTail(to: nat, from: nat)
      requires Backed() && from <= slen && to + slen - from <= data.Length
      modifies data
      ensures Copied(data[..], old(data[..]), to, old(Text())[from..])
    {
      assert data[..][from..slen] == Text()[from..];
      if to != from {
        MemMove(data, to, from, slen - from);
      }
    }

    method ReplaceWithRoom(pos: CInt, len: CInt, b2: ConstString, ghost fill: byte)
      requires Backed() && Writable() && b2.data != data && 0 <= b2.slen <= b2.data.Length && 0 <= pos && 0 <= len
      requires pos + len < slen && slen + b2.slen - len <= mlen
      modifies this`slen, data
      ensures slen == old(slen) + b2.slen - len <= mlen
      ensures 0 <= slen && Text() == Replaced(old(Text()), pos, len, Chars(b2), fill)
    {
      ghost var was, buffer := Text(), data[..];
      MoveTail(pos + b2.slen, pos + len);
      ghost var moved := data[..];
      MemCopy(data, pos, b2.data, 0, b2.slen);
      ReplacesInPlace(buffer, was, pos, len, Chars(b2), fill, moved, data[..]);
      slen := slen + b2.slen - len;
    }
  }

  /** Deleting everything from the second of five characters on, by way of a length of INT_MAX, accesses memory
      in front of the buffer. */
  method DeletingToTheEnd(b: BString) returns (rc: int)
    requires b.Backed() && b.Writable() && b.slen == 5
    modifies b, b.data
    ensures rc == FAULT
  {
    rc := b.BDelete(1, INT_MAX);
  }

  /** A string of 2^30 - 1 characters in a buffer of 2^30: putting one character in front of it leaves no place for
      the terminator. */
  method ReplacingAtCapacity(b: BString, b2: ConstString) returns (rc: int)
    requires b.Backed() && b.mlen == HALF_RANGE && b.slen == HALF_RANGE - 1
    requires b2.slen == 1 <= b2.data.Length && b2.data != b.data
    modifies b, b.data
    ensures rc == FAULT && b.slen == b.mlen == HALF_RANGE
  {
    rc := b.BReplace(0, 0, b2, 0);
  }
}
