/** binstr: substring search by greedy embedding, with an unrolled step and a jump back into the loop. */
module Search {
  import opened BStrings

  // pat stands at position p of s.
  ghost predicate MatchAt(s: seq<byte>, p: int, pat: seq<byte>) {
    0 <= p && p + |pat| <= |s| && s[p..p + |pat|] == pat
  }

  // r is the least position from pos on at which pat stands, ERR when there is none.
  ghost predicate IsFirstMatch(s: seq<byte>, pos: int, pat: seq<byte>, r: int) {
    if r == ERR then forall p :: pos <= p ==> !MatchAt(s, p, pat)
    else pos <= r && MatchAt(s, r, pat) && forall p :: pos <= p < r ==> !MatchAt(s, p, pat)
  }

  /** The text at the position found is the pattern, and at no position before it, or at none at all. */
  lemma FirstMatchMeans(s: seq<byte>, pos: nat, pat: seq<byte>, r: int, q: nat)
    requires IsFirstMatch(s, pos, pat, r)
    ensures r != -1 ==> pos <= r && r + |pat| <= |s| && s[r..r + |pat|] == pat
    ensures pos <= q && (r == -1 || q < r) && q + |pat| <= |s| ==> s[q..q + |pat|] != pat
  {
    if pos <= q && (r == ERR || q < r) {
      assert !MatchAt(s, q, pat);
    }
  }

  // When every match still possible reaches beyond position i with its first j characters, none can end
  // before the pattern's remaining characters fit.
  ghost predicate Beyond(s: seq<byte>, pos: int, pat: seq<byte>, i: int, j: int) {
    forall p :: pos <= p && MatchAt(s, p, pat) ==> p + j >= i
  }

  lemma BeyondMismatch(s: seq<byte>, pos: int, pat: seq<byte>, i: int, j: int)
    requires Beyond(s, pos, pat, i, j) && 0 <= i < |s| && 0 <= j < |pat| && s[i] != pat[j]
    ensures Beyond(s, pos, pat, i + 1, j)
  {
    forall p | pos <= p && MatchAt(s, p, pat) ensures p + j >= i + 1 {
      assert s[p..p + |pat|][j] == s[p + j];
    }
  }

  lemma BeyondStart(s: seq<byte>, pos: int, pat: seq<byte>)
    ensures Beyond(s, pos, pat, pos, 0)
  {
  }

  lemma BeyondRestart(s: seq<byte>, pos: int, pat: seq<byte>, i: int, j: int)
    requires Beyond(s, pos, pat, i, j)
    ensures Beyond(s, pos, pat, i - j, 0)
  {
  }

  // One character more of the string for one more of the pattern.
  lemma BeyondAdvance(s: seq<byte>, pos: int, pat: seq<byte>, i: int, j: int)
    requires Beyond(s, pos, pat, i, j)
    ensures Beyond(s, pos, pat, i + 1, j + 1)
  {
  }

  lemma BeyondFound(s: seq<byte>, pos: int, pat: seq<byte>, i: int, j: int)
    requires Beyond(s, pos, pat, i, j) && pos <= i - j && i - j != -1 && Begun(s, i - j, pat, |pat|)
    ensures IsFirstMatch(s, pos, pat, i - j)
  {
  }

  // With no room left for the rest of the pattern, or only for a last character that is not there, no match is left.
  lemma BeyondEnd(s: seq<byte>, pos: int, pat: seq<byte>, i: int, j: int)
    requires Beyond(s, pos, pat, i, j) && 0 <= j < |pat| && |s| - 1 <= i && 0 <= i
    requires i == |s| - 1 && j == |pat| - 1 ==> s[i] != pat[j]
    ensures IsFirstMatch(s, pos, pat, ERR)
  {
    if i == |s| - 1 && j == |pat| - 1 {
      BeyondMismatch(s, pos, pat, i, j);
    }
  }

  // The first j characters of pat stand at position p of s.
  ghost predicate Begun(s: seq<byte>, p: int, pat: seq<byte>, j: nat) {
    0 <= p && j <= |pat| && p + j <= |s| && forall k :: 0 <= k < j ==> s[p + k] == pat[k]
  }

  lemma OneMore(s: seq<byte>, p: int, pat: seq<byte>, j: nat)
    requires j < |pat| && 0 <= p && p + j < |s| && s[p + j] == pat[j]
    requires j > 0 ==> Begun(s, p, pat, j)
    ensures Begun(s, p, pat, j + 1)
  {
  }

  /** A position from 0 up is the least one at which the pattern occurs contiguously from pos on;
      a negative result means there is no such position. A start outside the string finds nothing, not
      even an empty pattern. */
  method BInStr(b1: ConstString, pos: int, b2: ConstString) returns (r: int)
    requires b1.slen <= b1.data.Length && b2.slen <= b2.data.Length
    ensures b1.slen < 0 || b2.slen < 0 || pos < 0 || pos > b1.slen ==> r == ERR
    ensures 0 <= b1.slen && 0 <= b2.slen && 0 <= pos <= b1.slen ==> IsFirstMatch(Chars(b1), pos, Chars(b2), r)
  {
    if b1.slen < 0 || b2.slen < 0 {
      return ERR;
    }
    if b1.slen == pos {
      return if b2.slen == 0 then pos else ERR;
    }
    if b1.slen < pos || pos < 0 {
      return ERR;
    }
    if b2.slen == 0 {
      return pos;
    }
    if b1.slen - b2.slen + 1 <= pos {
      return ERR;
    }
    if b1.data == b2.data && pos == 0 {
      return 0;
    }
    if b2.slen == 1 {
      r := SearchOne(b1, pos, b2);
    } else {
      r := SearchMany(b1, pos, b2);
    }
  }

  method SearchOne(b1: ConstString, pos: int, b2: ConstString) returns (r: int)
    requires 0 <= pos < b1.slen <= b1.data.Length && b2.slen == 1 <= b2.data.Length
    ensures IsFirstMatch(Chars(b1), pos, Chars(b2), r)
  {
    var i := pos;
    while i < b1.slen
      invariant pos <= i <= b1.slen
      invariant forall p :: pos <= p < i ==> !MatchAt(Chars(b1), p, Chars(b2))
    {
      if b2.data[0] == b1.data[i] {
        return i;
      }
      assert Chars(b1)[i..i + 1][0] == b1.data[i];
      i := i + 1;
    }
    return ERR;
  }

  /** The loop embeds the pattern greedily, as a subsequence. Each restart begins later than the one before,
      and skips no match, because a greedy embedding ends earliest. */
  method SearchMany(b1: ConstString, pos: int, b2: ConstString) returns (r: int)
    requires 0 <= pos && 2 <= b2.slen <= b2.data.Length && pos + b2.slen <= b1.slen <= b1.data.Length
    ensures IsFirstMatch(Chars(b1), pos, Chars(b2), r)
  {
    ghost var s, pat := Chars(b1), Chars(b2);
    var i, j, ii, ll, lf := pos, 0, -1, b2.slen, b1.slen - 1;
    var c0 := b2.data[0];
    var c1 := c0;
    ghost var start := pos;
    BeyondStart(s, pos, pat);
    hide Beyond, Begun, IsFirstMatch;
    // The jump to N0 after the do-while loop re-enters it, so the two together are one loop here.
    while true
      invariant pos <= start <= i <= lf + 1 && 0 <= j < ll && c1 == pat[j]
      invariant j == 0 ==> start == i
      invariant j > 0 ==> start <= ii && ii + j <= i
      invariant j > 0 && i == ii + j ==> Begun(s, ii, pat, j)
      invariant Beyond(s, pos, pat, i, j)
      decreases lf - start, lf + 1 - i
    {
      if i < lf {
        if c1 != b1.data[i] {
          BeyondMismatch(s, pos, pat, i, j);
          if c1 != b1.data[1 + i] {
            BeyondMismatch(s, pos, pat, i + 1, j);
            i := i + 2;
            if j == 0 {
              start := i;
            }
            continue;
          }
          i := i + 1;
          if j == 0 {
            start := i;
          }
        }
        if j == 0 {
          ii := i;
        }
        if i == ii + j {
          OneMore(s, ii, pat, j);
        }
        BeyondAdvance(s, pos, pat, i, j);
        j := j + 1;
        i := i + 1;
        if j < ll {
          c1 := b2.data[j];
          continue;
        }
      } else if !(i == lf && ll == j + 1 && c1 == b1.data[i]) {
        BeyondEnd(s, pos, pat, i, j);
        break;
      }
      // N0
      if i == ii + j {
        if j < ll {
          OneMore(s, ii, pat, j);
        }
        BeyondFound(s, pos, pat, i, j);
        return ii;
      }
      BeyondRestart(s, pos, pat, i, j);
      i := i - j;
      j := 0;
      c1 := c0;
      start := i;
    }
    return ERR;
  }
}
