/** The expanding branch of findreplaceengine: find every occurrence, make room once, and move the pieces
    apart from the right. */
module ReplaceGrowing {
  import opened Capacity
  import opened BStrings
  import opened Replace
  import opened ReplaceEngine

  function Times(n: nat, g: nat): nat {
    if n == 0 then 0 else Times(n - 1, g) + g
  }

  // Where the search goes on after the occurrences ms.
  function Next(ms: seq<nat>, start: nat, flen: nat): nat {
    if ms == [] then start else ms[|ms| - 1] + flen
  }

  // Each of ms is the first occurrence from the end of the one before.
  ghost predicate Chain(s: seq<byte>, start: nat, f: seq<byte>, ms: seq<nat>) {
    ms == [] ||
    var k := |ms| - 1;
    Chain(s, start, f, ms[..k]) && ms[k] == FirstFrom(s, Next(ms[..k], start, |f|), f)
  }

  // The finished text from start to the end of the last of ms.
  ghost function Done(s: seq<byte>, start: nat, f: seq<byte>, r: seq<byte>, ms: seq<nat>): (t: seq<byte>)
    requires start <= |s| && Chain(s, start, f, ms)
    ensures Next(ms, start, |f|) <= |s|
  {
    if ms == [] then []
    else
      var k := |ms| - 1;
      Done(s, start, f, r, ms[..k]) + s[Next(ms[..k], start, |f|)..ms[k]] + r
  }

  lemma {:induction false} DoneIsReplaced(s: seq<byte>, start: nat, f: seq<byte>, r: seq<byte>, ms: seq<nat>)
    requires |f| > 0 && start <= |s| && Chain(s, start, f, ms)
    ensures Next(ms, start, |f|) <= |s|
    ensures ReplaceFrom(s, start, f, r) == Done(s, start, f, r, ms) + ReplaceFrom(s, Next(ms, start, |f|), f, r)
  {
    if ms == [] {
      assert [] + ReplaceFrom(s, start, f, r) == ReplaceFrom(s, start, f, r);
    } else {
      var k := |ms| - 1;
      var from := Next(ms[..k], start, |f|);
      DoneIsReplaced(s, start, f, r, ms[..k]);
      hide ReplaceFrom, FirstFrom;
      ReplaceFromStep(s, from, f, r);
      Regroup(Done(s, start, f, r, ms[..k]), s[from..ms[k]], r, ReplaceFrom(s, ms[k] + |f|, f, r));
    }
  }

  lemma ReplaceFromStep(s: seq<byte>, pos: nat, f: seq<byte>, r: seq<byte>)
    requires |f| > 0 && pos <= |s| && FirstFrom(s, pos, f) != ERR
    ensures var i := FirstFrom(s, pos, f);
      ReplaceFrom(s, pos, f, r) == s[pos..i] + r + ReplaceFrom(s, i + |f|, f, r)
  {
  }

  lemma {:induction false} DoneLength(s: seq<byte>, start: nat, f: seq<byte>, r: seq<byte>, ms: seq<nat>)
    requires |f| <= |r| && start <= |s| && Chain(s, start, f, ms)
    ensures start <= Next(ms, start, |f|) <= |s|
    ensures |Done(s, start, f, r, ms)| == Next(ms, start, |f|) - start + Times(|ms|, |r| - |f|)
  {
    if ms != [] {
      DoneLength(s, start, f, r, ms[..|ms| - 1]);
    }
  }

  // How often f occurs from pos on, left to right and without overlaps.
  ghost function Occurrences(s: seq<byte>, pos: nat, f: seq<byte>): nat
    requires |f| > 0
    decreases |s| - pos
  {
    var i := FirstFrom(s, pos, f);
    if i == ERR then 0 else 1 + Occurrences(s, i + |f|, f)
  }

  /** That is one less than there are pieces between them. */
  lemma {:induction false} OccurrencesBetweenPieces(s: seq<byte>, pos: nat, f: seq<byte>)
    requires |f| > 0 && pos <= |s|
    ensures |Pieces(s[pos..], f)| == Occurrences(s, pos, f) + 1
    decreases |s| - pos
  {
    FirstInSuffix(s, pos, f);
    var i := FirstFrom(s, pos, f);
    if i != ERR {
      OccurrencesBetweenPieces(s, i + |f|, f);
      assert s[pos..][i - pos + |f|..] == s[i + |f|..];
    }
  }

  lemma {:induction false} ChainCounts(s: seq<byte>, start: nat, f: seq<byte>, ms: seq<nat>)
    requires |f| > 0 && Chain(s, start, f, ms)
    ensures Occurrences(s, start, f) == |ms| + Occurrences(s, Next(ms, start, |f|), f)
  {
    if ms != [] {
      ChainCounts(s, start, f, ms[..|ms| - 1]);
    }
  }

  lemma {:induction false} TimesMonotone(m: nat, n: nat, g: nat)
    requires m <= n
    ensures Times(m, g) <= Times(n, g)
  {
    if m < n {
      TimesMonotone(m, n - 1, g);
    }
  }

  lemma {:induction false} ReplacedLength(s: seq<byte>, pos: nat, f: seq<byte>, r: seq<byte>)
    requires 0 < |f| <= |r| && pos <= |s|
    ensures |ReplaceFrom(s, pos, f, r)| == |s| - pos + Times(Occurrences(s, pos, f), |r| - |f|)
    decreases |s| - pos
  {
    var i := FirstFrom(s, pos, f);
    if i != ERR {
      ReplacedLength(s, i + |f|, f, r);
    }
  }

  /** Each occurrence makes the result longer by as much as the replacement is. */
  lemma ResultLength(s: seq<byte>, pos: nat, f: seq<byte>, r: seq<byte>)
    requires 0 < |f| <= |r| && pos + |f| <= |s|
    ensures |ReplaceAll(s, pos, f, r)| == |s| + Times(Occurrences(s, pos, f), |r| - |f|)
  {
    ReplacedLength(s, pos, f, r);
  }

  lemma ChainExtends(s: seq<byte>, start: nat, f: seq<byte>, ms: seq<nat>, m: nat)
    requires Chain(s, start, f, ms) && m == FirstFrom(s, Next(ms, start, |f|), f)
    ensures Chain(s, start, f, ms + [m]) && Next(ms + [m], start, |f|) == m + |f|
  {
    assert (ms + [m])[..|ms|] == ms;
  }

  // ---------------------------------------------------------------- finding

  const STATIC_COUNT := 32
  // (INT_MAX / sizeof (int *)) / 2
  const GROW_LIMIT := 134217727

  // 2^27: as many places are more than the limit, and as many matches too many
  const MATCH_LIMIT := 0x800_0000

  // The sizes the array goes through.
  ghost predicate IsSize(mlen: int) {
    exists k: nat :: k <= 27 && mlen == Pow2(k)
  }

  lemma SizeValues()
    ensures IsSize(STATIC_COUNT) && Pow2(27) == MATCH_LIMIT
  {
    assert Pow2(5) == 32;
    assert Pow2(16) == 0x1_0000;
    assert Pow2(24) == 0x100_0000;
    assert Pow2(27) == MATCH_LIMIT;
  }

  lemma NextSize(mlen: int)
    requires IsSize(mlen)
    ensures 0 < mlen <= MATCH_LIMIT
    ensures mlen <= GROW_LIMIT ==> IsSize(mlen + mlen)
    ensures mlen > GROW_LIMIT ==> mlen == MATCH_LIMIT
  {
    var k: nat :| k <= 27 && mlen == Pow2(k);
    SizeValues();
    Pow2Monotone(0, k);
    Pow2Monotone(k, 27);
    if k < 27 {
      assert mlen + mlen == Pow2(k + 1);
      Pow2Monotone(k + 1, 27);
    }
  }

  // Stores one more match, doubling the array once its last place but one is taken.
  method Store(d: array<nat>, mlen: int, n: nat, pos: nat) returns (rc: int, t: array<nat>, size: int)
    requires n < mlen <= d.Length && IsSize(mlen)
    modifies d
    ensures t == d || fresh(t)
    ensures rc == if n + 1 >= MATCH_LIMIT then ERR else OK
    ensures rc == ERR ==> t == d && t[..n] == old(d[..n]) && size == mlen
    ensures rc == OK ==> n + 1 < size <= t.Length && t[..n + 1] == old(d[..n]) + [pos] && IsSize(size)
  {
    NextSize(mlen);
    t, size := d, mlen;
    if n >= mlen - 1 {
      if mlen > GROW_LIMIT {
        return ERR, t, size;
      }
      size := mlen + mlen;
      t := new nat[size];
      forall k | 0 <= k < n {
        t[k] := d[k];
      }
    }
    t[n] := pos;
    return OK, t, size;
  }

  // The array for the matches outgrows the address space, or their growth an int.
  ghost predicate TooMany(n: nat, growth: nat) {
    n >= MATCH_LIMIT || Times(n, growth) > INT_MAX
  }

  lemma {:induction false} TimesIsProduct(n: nat, g: nat)
    ensures Times(n, g) == n * g
  {
    if n > 0 {
      TimesIsProduct(n - 1, g);
      assert n * g == (n - 1) * g + g;
    }
  }

  lemma TooManyMeans(n: nat, growth: nat)
    ensures TooMany(n, growth) <==> n >= 0x800_0000 || n * growth > 0x7FFF_FFFF
  {
    TimesIsProduct(n, growth);
  }

  lemma StillTooMany(m: nat, n: nat, growth: nat)
    requires m <= n && TooMany(m, growth)
    ensures TooMany(n, growth)
  {
    TimesMonotone(m, n, growth);
  }

  method AddMatch(d: array<nat>, mlen: int, n: nat, pos: nat, acc: int, growth: nat,
                  ghost s: seq<byte>, ghost start: nat, ghost f: seq<byte>, ghost ms: seq<nat>)
    returns (rc: int, t: array<nat>, size: int, total: int)
    requires |ms| == n < mlen <= d.Length && d[..n] == ms && |f| > 0 && IsSize(mlen)
    requires Chain(s, start, f, ms) && pos == FirstFrom(s, Next(ms, start, |f|), f)
    requires acc == Times(n, growth) <= INT_MAX && 0 < growth <= INT_MAX
    modifies d
    ensures t == d || fresh(t)
    ensures rc == if TooMany(n + 1, growth) then ERR else OK
    ensures Chain(s, start, f, ms + [pos]) && Next(ms + [pos], start, |f|) == pos + |f|
    ensures rc == OK ==>
      n + 1 < size <= t.Length && t[..n + 1] == ms + [pos] && IsSize(size) && total == Times(n + 1, growth)
  {
    ChainExtends(s, start, f, ms, pos);
    rc, t, size := Store(d, mlen, n, pos);
    total := Wrap(acc + growth);
    assert Times(n + 1, growth) == acc + growth;
    if total < 0 {
      rc := ERR;
    }
  }

  /** Collects all occurrences in an array with room for one more entry, and the total growth. Fails exactly when
      there are 2^27 or more, or the growth does not fit an int. */
  method FindMatches(data: array<byte>, slen: CInt, find: ConstString, start: int, growth: int, ghost s: seq<byte>)
    returns (rc: int, d: array<nat>, n: nat, acc: int)
    requires 0 < find.slen <= find.data.Length
    requires 0 <= start <= slen - find.slen && 0 < growth <= INT_MAX && slen <= data.Length && s == data[..slen]
    ensures fresh(d)
    ensures rc == if TooMany(Occurrences(s, start, Chars(find)), growth) then ERR else OK
    ensures rc == OK ==>
      && n < d.Length && Chain(s, start, Chars(find), d[..n])
      && FirstFrom(s, Next(d[..n], start, find.slen), Chars(find)) == ERR
      && acc == Times(n, growth) <= INT_MAX
  {
    hide Chain, Times, TooMany, IsSize, Occurrences, FirstFrom;
    ghost var f := Chars(find);
    ghost var ms: seq<nat> := [];
    var mlen := STATIC_COUNT;
    SizeValues();
    NothingFound(s, start, f, growth);
    d := new nat[STATIC_COUNT + 1];
    n, acc := 0, 0;
    ghost var next: nat := start;
    var pos := FindNext(data, slen, start, find, s);
    while pos >= 0
      invariant fresh(d) && |ms| == n < mlen <= d.Length && d[..n] == ms && IsSize(mlen)
      invariant Chain(s, start, f, ms) && next == Next(ms, start, |f|) <= slen && pos == FirstFrom(s, next, f)
      invariant acc == Times(n, growth) <= INT_MAX && !TooMany(n, growth)
      decreases slen - next
    {
      rc, d, mlen, acc := AddMatch(d, mlen, n, pos, acc, growth, s, start, f, ms);
      if rc != OK {
        ChainCounts(s, start, f, ms + [pos]);
        StillTooMany(n + 1, Occurrences(s, start, f), growth);
        return;
      }
      ms, next := ms + [pos], pos + find.slen;
      n := n + 1;
      NotTooMany(n, growth);
      pos := FindNext(data, slen, pos + find.slen, find, s);
    }
    AllFound(s, start, f, ms);
    return OK, d, n, acc;
  }

  lemma AllFound(s: seq<byte>, start: nat, f: seq<byte>, ms: seq<nat>)
    requires |f| > 0 && Chain(s, start, f, ms) && FirstFrom(s, Next(ms, start, |f|), f) == ERR
    ensures Occurrences(s, start, f) == |ms|
  {
    ChainCounts(s, start, f, ms);
  }

  lemma NothingFound(s: seq<byte>, start: nat, f: seq<byte>, growth: nat)
    ensures Chain(s, start, f, []) && Times(0, growth) == 0 && !TooMany(0, growth)
  {
  }

  lemma NotTooMany(n: nat, growth: nat)
    requires !TooMany(n, growth)
    ensures Times(n, growth) <= INT_MAX
  {
  }

  // ---------------------------------------------------------------- moving

  // With the occurrences ms still to be treated, s stands untouched up to end, and what is finished stands
  // at the end of the buffer, acc further on than it stood in s.
  ghost predicate Spread(buffer: seq<byte>, s: seq<byte>, start: nat, f: seq<byte>, r: seq<byte>, ms: seq<nat>,
                         end: nat, acc: nat, goal: seq<byte>)
  {
    && start <= |s| && Chain(s, start, f, ms) && Next(ms, start, |f|) <= end <= |s|
    && end + acc <= |goal| <= |buffer|
    && (forall k :: 0 <= k < end ==> buffer[k] == s[k])
    && goal == s[..start] + Done(s, start, f, r, ms) + s[Next(ms, start, |f|)..end] + buffer[end + acc..|goal|]
  }

  // What one round of the loop writes: the text after an occurrence, further on, and r before it.
  ghost predicate Shifted(
      buffer: seq<byte>, moved: seq<byte>, b': seq<byte>, after: nat, end: nat, acc: nat, r: seq<byte>)
  {
    && after <= end <= |buffer| && |r| <= after + acc
    && Copied(moved, buffer, after + acc, buffer[after..end])
    && Copied(b', moved, after + acc - |r|, r)
  }

  lemma ShiftedTail(buffer: seq<byte>, moved: seq<byte>, b': seq<byte>, s: seq<byte>, after: nat, end: nat, acc: nat,
                    r: seq<byte>, hi: nat)
    requires Shifted(buffer, moved, b', after, end, acc, r) && end <= |s| && end + acc <= hi <= |buffer|
    requires forall k :: 0 <= k < end ==> buffer[k] == s[k]
    ensures b'[after + acc - |r|..hi] == r + s[after..end] + buffer[end + acc..hi]
    ensures forall k :: 0 <= k < after + acc - |r| ==> b'[k] == buffer[k]
  {
    assert buffer[after..end] == s[after..end];
    TwoCopiesTail(buffer, moved, b', after + acc, s[after..end], r, hi);
  }

  lemma SpreadGoal(buffer: seq<byte>, s: seq<byte>, start: nat, f: seq<byte>, r: seq<byte>, ms: seq<nat>,
                   end: nat, acc: nat, goal: seq<byte>, tail: seq<byte>)
    requires ms != [] && Spread(buffer, s, start, f, r, ms, end, acc, goal)
    requires tail == r + s[ms[|ms| - 1] + |f|..end] + buffer[end + acc..|goal|]
    ensures
      var k := |ms| - 1;
      && Next(ms[..k], start, |f|) <= ms[k]
      && goal == s[..start] + Done(s, start, f, r, ms[..k]) + s[Next(ms[..k], start, |f|)..ms[k]] + tail
  {
    var k := |ms| - 1;
    LastDone(s, start, f, r, ms);
    Reassociate(s[..start], Done(s, start, f, r, ms[..k]), s[Next(ms[..k], start, |f|)..ms[k]], r,
                s[ms[k] + |f|..end], buffer[end + acc..|goal|]);
  }

  lemma SpreadOne(buffer: seq<byte>, moved: seq<byte>, b': seq<byte>, s: seq<byte>, start: nat,
                  f: seq<byte>, r: seq<byte>, ms: seq<nat>, i: nat, end: nat, acc: nat, goal: seq<byte>)
    requires 0 < |f| <= |r| && i < |ms| && Spread(buffer, s, start, f, r, ms[..i + 1], end, acc, goal)
    requires acc >= |r| - |f| && Shifted(buffer, moved, b', ms[i] + |f|, end, acc, r)
    ensures Spread(b', s, start, f, r, ms[..i], ms[i], acc - (|r| - |f|), goal)
  {
    var m := ms[i];
    assert ms[..i + 1][..i] == ms[..i];
    assert m + (acc - (|r| - |f|)) == m + |f| + acc - |r|;
    ShiftedTail(buffer, moved, b', s, m + |f|, end, acc, r, |goal|);
    SpreadGoal(buffer, s, start, f, r, ms[..i + 1], end, acc, goal, b'[m + |f| + acc - |r|..|goal|]);
  }

  lemma LastDone(s: seq<byte>, start: nat, f: seq<byte>, r: seq<byte>, ms: seq<nat>)
    requires ms != [] && start <= |s| && Chain(s, start, f, ms)
    ensures
      var k := |ms| - 1;
      Next(ms[..k], start, |f|) <= ms[k] && Done(s, start, f, r, ms) ==
        Done(s, start, f, r, ms[..k]) + s[Next(ms[..k], start, |f|)..ms[k]] + r
  {
  }

  lemma Reassociate(a: seq<byte>, b: seq<byte>, c: seq<byte>, d: seq<byte>, e: seq<byte>, g: seq<byte>)
    ensures a + (b + c + d) + e + g == a + b + c + (d + e + g)
  {
  }

  lemma TwoCopiesTail(b: seq<byte>, moved: seq<byte>, b': seq<byte>, dst: nat, t: seq<byte>, r: seq<byte>, hi: nat)
    requires |r| <= dst && dst + |t| <= hi <= |b|
    requires Copied(moved, b, dst, t) && Copied(b', moved, dst - |r|, r)
    ensures b'[dst - |r|..hi] == r + t + b[dst + |t|..hi]
    ensures forall k :: 0 <= k < dst - |r| ==> b'[k] == b[k]
  {
  }

  lemma AllDone(s: seq<byte>, start: nat, f: seq<byte>, r: seq<byte>, ms: seq<nat>)
    requires 0 < |f| <= |r| && start + |f| <= |s|
    requires Chain(s, start, f, ms) && FirstFrom(s, Next(ms, start, |f|), f) == ERR
    ensures Next(ms, start, |f|) <= |s|
    ensures ReplaceAll(s, start, f, r) == s[..start] + Done(s, start, f, r, ms) + s[Next(ms, start, |f|)..|s|] + []
    ensures |ReplaceAll(s, start, f, r)| == |s| + Times(|ms|, |r| - |f|)
  {
    hide ReplaceFrom, FirstFrom, Chain, Done;
    DoneIsReplaced(s, start, f, r, ms);
    DoneLength(s, start, f, r, ms);
    NoneFurther(s, Next(ms, start, |f|), f, r);
    Assemble(s[..start], Done(s, start, f, r, ms), s[Next(ms, start, |f|)..]);
  }

  lemma NoneFurther(s: seq<byte>, pos: nat, f: seq<byte>, r: seq<byte>)
    requires |f| > 0 && pos <= |s| && FirstFrom(s, pos, f) == ERR
    ensures ReplaceFrom(s, pos, f, r) == s[pos..]
  {
  }

  lemma Assemble(a: seq<byte>, b: seq<byte>, c: seq<byte>)
    ensures a + (b + c) == a + b + c + []
  {
  }

  lemma SpreadBegins(
      buffer: seq<byte>, s: seq<byte>, start: nat, f: seq<byte>, r: seq<byte>, ms: seq<nat>, acc: nat, goal: seq<byte>)
    requires 0 < |f| <= |r| && start + |f| <= |s| && |goal| <= |buffer| && |s| <= |buffer| && buffer[..|s|] == s
    requires Chain(s, start, f, ms) && FirstFrom(s, Next(ms, start, |f|), f) == ERR
    requires goal == ReplaceAll(s, start, f, r) && acc == Times(|ms|, |r| - |f|)
    ensures Spread(buffer, s, start, f, r, ms, |s|, acc, goal)
  {
    AllDone(s, start, f, r, ms);
    assert buffer[|s| + acc..|goal|] == [];
    forall k | 0 <= k < |s| ensures buffer[k] == s[k] {
      assert buffer[k] == buffer[..|s|][k];
    }
  }

  lemma SpreadEnds(buffer: seq<byte>, s: seq<byte>, start: nat, f: seq<byte>, r: seq<byte>, end: nat, goal: seq<byte>)
    requires Spread(buffer, s, start, f, r, [], end, 0, goal)
    ensures buffer[..|goal|] == goal
  {
    assert s[..start] + [] + s[start..end] == s[..end];
    assert buffer[..end] == s[..end];
  }

  // One round of the moving loop.
  method ShiftOne(data: array<byte>, find: ConstString, repl: ConstString, after: nat, end: nat, acc: nat,
                  ghost growth: nat, ghost s: seq<byte>, ghost start: nat, ghost f: seq<byte>, ghost r: seq<byte>,
                  ghost ms: seq<nat>, ghost i: nat, ghost goal: seq<byte>)
    requires find.data != data && 0 <= find.slen <= find.data.Length && f == Chars(find)
    requires repl.data != data && 0 <= repl.slen <= repl.data.Length && r == Chars(repl)
    requires 0 < |f| <= |r| && i < |ms| && after == ms[i] + |f| && acc >= growth == |r| - |f|
    requires Spread(data[..], s, start, f, r, ms[..i + 1], end, acc, goal)
    modifies data
    ensures f == Chars(find) && r == Chars(repl)
    ensures Spread(data[..], s, start, f, r, ms[..i], ms[i], acc - growth, goal)
  {
    ghost var buffer := data[..];
    var l := end - after;
    if l != 0 {
      MemMove(data, after + acc, after, l);
    }
    ghost var moved := data[..];
    assert Copied(moved, buffer, after + acc, buffer[after..end]);
    PutRepl(data, repl, after + acc - repl.slen);
    SpreadOne(buffer, moved, data[..], s, start, f, r, ms, i, end, acc, goal);
  }

  // d holds the matches ms, and after them the length of the string.
  ghost predicate Sentinel(d: array<nat>, ms: seq<nat>, slen: nat)
    reads d
  {
    |ms| < d.Length && d[|ms|] == slen && forall k :: 0 <= k < |ms| ==> d[k] == ms[k]
  }

  method SpreadOut(data: array<byte>, find: ConstString, repl: ConstString, d: array<nat>, n: nat, total: int,
                   ghost s: seq<byte>, ghost start: nat, ghost f: seq<byte>, ghost r: seq<byte>, ghost ms: seq<nat>,
                   ghost goal: seq<byte>)
    requires find.data != data && 0 < find.slen <= find.data.Length && f == Chars(find)
    requires repl.data != data && find.slen < repl.slen <= repl.data.Length && r == Chars(repl)
    requires |ms| == n && Sentinel(d, ms, |s|) && total == Times(n, repl.slen - find.slen)
    requires Spread(data[..], s, start, f, r, ms, |s|, total, goal)
    modifies data
    ensures |goal| <= data.Length && data[..|goal|] == goal
  {
    var acc, i, growth := total, n, repl.slen - find.slen;
    ghost var end := |s|;
    assert ms[..n] == ms;
    while i > 0
      invariant 0 <= i <= n && Sentinel(d, ms, |s|) && end == d[i]
      invariant f == Chars(find) && r == Chars(repl) && acc == Times(i, growth)
      invariant Spread(data[..], s, start, f, r, ms[..i], end, acc, goal)
    {
      assert acc == Times(i - 1, growth) + growth;
      i := i - 1;
      ShiftOne(data, find, repl, d[i] + find.slen, d[i + 1], acc, growth, s, start, f, r, ms, i, goal);
      end := ms[i];
      acc := acc - growth;
    }
    SpreadEnds(data[..], s, start, f, r, end, goal);
  }

  method ReplaceExpanding(b: BString, find: ConstString, repl: ConstString, start: int) returns (rc: int)
    requires b.Backed() && b.Writable() && find.data != b.data && repl.data != b.data
    requires 0 < find.slen <= find.data.Length && find.slen < repl.slen <= repl.data.Length && repl.slen <= INT_MAX
    requires 0 <= start <= b.slen - find.slen
    modifies b, b.data
    ensures b.Backed() && 0 <= b.slen && (rc == OK || rc == ERR)
    ensures rc == OK ==> b.Terminated() && b.Text() == old(ReplaceAll(b.Text(), start, Chars(find), Chars(repl)))
    ensures rc == ERR ==> b.slen == old(b.slen) && b.Text() == old(b.Text())
    ensures rc == ERR <==>
      || old(Occurrences(b.Text(), start, Chars(find))) >= MATCH_LIMIT
      || |old(ReplaceAll(b.Text(), start, Chars(find), Chars(repl)))| >= INT_MAX
  {
    hide ReplaceAll, FirstFrom, Chain, Times, Occurrences;
    ghost var s, f, r := b.Text(), Chars(find), Chars(repl);
    ResultLength(s, start, f, r);
    var r0, d, n, acc := FindMatches(b.data, b.slen, find, start, repl.slen - find.slen, s);
    if r0 != OK {
      return ERR;
    }
    AllDone(s, start, f, r, d[..n]);
    rc := MakeRoomAndSpread(b, find, repl, d, n, acc, start, s, f, r, d[..n], ReplaceAll(s, start, f, r));
  }

  // A sum that does not fit an int is negative, and refused.
  method MakeRoom(b: BString, acc: nat) returns (rc: int)
    requires b.Backed() && b.Writable() && acc <= INT_MAX
    modifies b, b.data
    ensures b.Backed() && b.slen == old(b.slen) && (b.data == old(b.data) || fresh(b.data))
    ensures b.Writable() && b.Text() == old(b.Text()) && (rc == OK || rc == ERR)
    ensures rc == OK ==> b.slen + acc < b.mlen
    ensures rc == ERR <==> b.slen + acc >= INT_MAX
  {
    ghost var text := b.Text();
    rc := b.BAlloc(Wrap(b.slen + acc + 1));
    assert b.Text() == text;
  }

  method MakeRoomAndSpread(b: BString, find: ConstString, repl: ConstString, d: array<nat>, n: nat, acc: int,
                           ghost start: nat, ghost s: seq<byte>, ghost f: seq<byte>, ghost r: seq<byte>,
                           ghost ms: seq<nat>, ghost goal: seq<byte>)
    returns (rc: int)
    requires b.Backed() && b.Writable() && s == b.Text()
    requires find.data != b.data && 0 < find.slen <= find.data.Length && f == Chars(find)
    requires repl.data != b.data && find.slen < repl.slen <= repl.data.Length && r == Chars(repl)
    requires n < d.Length && ms == d[..n] && start + |f| <= |s|
    requires Chain(s, start, f, ms) && FirstFrom(s, Next(ms, start, |f|), f) == ERR
    requires acc == Times(n, repl.slen - find.slen) <= INT_MAX
    requires |goal| == |s| + acc && goal == ReplaceAll(s, start, f, r)
    modifies b, b.data, d
    ensures b.Backed() && 0 <= b.slen && (rc == OK || rc == ERR)
    ensures rc == OK ==> b.Terminated() && b.Text() == goal
    ensures rc == ERR ==> b.slen == old(b.slen) && b.Text() == s
    ensures rc == ERR <==> |goal| >= INT_MAX
  {
    hide ReplaceAll, FirstFrom, Chain, Times, Next;
    d[n] := b.slen;
    rc := MakeRoom(b, acc);
    if rc == OK {
      assert Chars(find) == f && Chars(repl) == r;
      SpreadBegins(b.data[..], s, start, f, r, ms, acc, goal);
      SpreadOut(b.data, find, repl, d, n, acc, s, start, f, r, ms, goal);
      b.slen := b.slen + acc;
      b.PutTerminator();
    }
  }

  /** Every occurrence of find from pos on is replaced, left to right and without overlaps, whichever of the
      three branches does it. Where it fails the string is as it was; on proper arguments it fails exactly when the
      replacement is the longer one and there are 2^27 occurrences or more, or a result that does not fit. */
  method FindReplaceEngine(b: BString, find: ConstString, repl: ConstString, pos: int) returns (rc: int)
    requires b.Backed()
    requires find.data != b.data && repl.data != b.data
    requires find.slen <= find.data.Length && repl.slen <= repl.data.Length
    modifies b, b.data
    ensures b.Backed() && (rc == OK || rc == ERR)
    ensures !old(b.Writable()) || pos < 0 || find.slen <= 0 || repl.slen < 0 ==>
      rc == ERR && b.slen == old(b.slen) && b.data[..] == old(b.data[..])
    ensures old(b.Writable()) && 0 <= pos && 0 < find.slen && 0 <= repl.slen ==>
      && 0 <= b.slen
      && b.Text() == (if rc == OK then old(ReplaceAll(b.Text(), pos, Chars(find), Chars(repl))) else old(b.Text()))
      && (rc == OK && old(b.Terminated()) ==> b.Terminated())
      && (pos + find.slen > old(b.slen) ==> b.Text() == old(b.Text()))
      && (rc == ERR <==>
            && find.slen < repl.slen && pos + find.slen <= old(b.slen)
            && (|| old(Occurrences(b.Text(), pos, Chars(find))) >= MATCH_LIMIT
                || |old(ReplaceAll(b.Text(), pos, Chars(find), Chars(repl)))| >= INT_MAX))
  {
    if pos < 0 || find.slen <= 0 || b.mlen <= 0 || b.slen > b.mlen || b.slen < 0 || repl.slen < 0 {
      return ERR;
    }
    if pos > b.slen - find.slen {
      return OK;
    }
    var delta := find.slen - repl.slen;
    if delta == 0 {
      ReplaceEqual(b, find, repl, pos);
      rc := OK;
    } else if delta > 0 {
      ReplaceShrinking(b, find, repl, pos);
      rc := OK;
    } else {
      rc := ReplaceExpanding(b, find, repl, pos);
    }
  }
}
