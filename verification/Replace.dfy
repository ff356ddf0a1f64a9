/** findreplaceengine: one meaning, three algorithms, each working in place. */
module Replace {
  import opened BStrings
  import opened Search

  // ---------------------------------------------------------------- what replacing means

  lemma {:induction false} FirstExists(s: seq<byte>, pos: nat, pat: seq<byte>) returns (r: int)
    ensures IsFirstMatch(s, pos, pat, r)
    decreases |s| - pos
  {
    if pos + |pat| > |s| {
      r := ERR;
    } else if s[pos..pos + |pat|] == pat {
      r := pos;
    } else {
      r := FirstExists(s, pos + 1, pat);
    }
  }

  // The one position that binstr may return.
  ghost function FirstFrom(s: seq<byte>, pos: nat, pat: seq<byte>): (r: int)
    ensures r == ERR || (pos <= r && r + |pat| <= |s|)
  {
    assert exists r :: IsFirstMatch(s, pos, pat, r) by {
      var r := FirstExists(s, pos, pat);
    }
    var r :| IsFirstMatch(s, pos, pat, r);
    r
  }

  // Left to right, without overlaps: the text from pos on with every f become r.
  ghost function ReplaceFrom(s: seq<byte>, pos: nat, f: seq<byte>, r: seq<byte>): seq<byte>
    requires pos <= |s| && |f| > 0
    decreases |s| - pos
  {
    var i := FirstFrom(s, pos, f);
    if i == ERR then s[pos..] else s[pos..i] + r + ReplaceFrom(s, i + |f|, f, r)
  }

  ghost function ReplaceAll(s: seq<byte>, pos: nat, f: seq<byte>, r: seq<byte>): seq<byte>
    requires |f| > 0
  {
    if pos + |f| > |s| then s else s[..pos] + ReplaceFrom(s, pos, f, r)
  }

  function Joined(pieces: seq<seq<byte>>, sep: seq<byte>): seq<byte> {
    if pieces == [] then []
    else if |pieces| == 1 then pieces[0]
    else pieces[0] + sep + Joined(pieces[1..], sep)
  }

  // The stretches between the occurrences of f, taken left to right without overlaps.
  ghost function Pieces(s: seq<byte>, f: seq<byte>): (p: seq<seq<byte>>)
    requires |f| > 0
    ensures p != []
    decreases |s|
  {
    var i := FirstFrom(s, 0, f);
    if i == ERR then [s] else [s[..i]] + Pieces(s[i + |f|..], f)
  }

  // Each piece ends where f first occurs in it and what follows, and there is none in the last.
  ghost predicate CutAt(pieces: seq<seq<byte>>, f: seq<byte>) {
    && pieces != []
    && if |pieces| == 1 then FirstFrom(pieces[0], 0, f) == ERR
       else FirstFrom(pieces[0] + f, 0, f) == |pieces[0]| && CutAt(pieces[1..], f)
  }

  lemma FirstFromIsFirst(s: seq<byte>, pos: nat, pat: seq<byte>)
    ensures IsFirstMatch(s, pos, pat, FirstFrom(s, pos, pat))
  {
  }

  lemma FirstMatchIsUnique(s: seq<byte>, pos: nat, pat: seq<byte>, r: int)
    requires IsFirstMatch(s, pos, pat, r)
    ensures r == FirstFrom(s, pos, pat)
  {
    FirstFromIsFirst(s, pos, pat);
  }

  // Where f is found from pos on depends only on the text from pos on.
  lemma FirstInSuffix(s: seq<byte>, pos: nat, pat: seq<byte>)
    requires pos <= |s|
    ensures FirstFrom(s, pos, pat) ==
      if FirstFrom(s[pos..], 0, pat) == ERR then ERR else pos + FirstFrom(s[pos..], 0, pat)
  {
    var t := s[pos..];
    var k := FirstFrom(t, 0, pat);
    FirstFromIsFirst(t, 0, pat);
    forall p | pos <= p ensures MatchAt(s, p, pat) <==> MatchAt(t, p - pos, pat) {
      if p + |pat| <= |s| {
        assert s[p..p + |pat|] == t[p - pos..p - pos + |pat|];
      }
    }
    FirstMatchIsUnique(s, pos, pat, if k == ERR then ERR else pos + k);
  }

  lemma SameSuffixSameFirst(s: seq<byte>, t: seq<byte>, pos: nat, pat: seq<byte>)
    requires pos <= |s| == |t| && s[pos..] == t[pos..]
    ensures FirstFrom(s, pos, pat) == FirstFrom(t, pos, pat)
  {
    FirstInSuffix(s, pos, pat);
    FirstInSuffix(t, pos, pat);
  }

  lemma JoinedCons(x: seq<byte>, rest: seq<seq<byte>>, sep: seq<byte>)
    requires rest != []
    ensures Joined([x] + rest, sep) == x + sep + Joined(rest, sep)
  {
    assert ([x] + rest)[1..] == rest;
  }

  lemma {:induction false} PiecesRejoin(s: seq<byte>, f: seq<byte>)
    requires |f| > 0
    ensures Joined(Pieces(s, f), f) == s
    decreases |s|
  {
    var i := FirstFrom(s, 0, f);
    if i != ERR {
      var tail := s[i + |f|..];
      PiecesRejoin(tail, f);
      JoinedCons(s[..i], Pieces(tail, f), f);
      FirstFromIsFirst(s, 0, f);
      assert s == s[..i] + f + tail;
    }
  }

  lemma PiecesFound(s: seq<byte>, f: seq<byte>, r: seq<byte>)
    requires |f| > 0 && FirstFrom(s, 0, f) != ERR
    ensures var i := FirstFrom(s, 0, f);
      Joined(Pieces(s, f), r) == s[..i] + r + Joined(Pieces(s[i + |f|..], f), r)
  {
    var i := FirstFrom(s, 0, f);
    JoinedCons(s[..i], Pieces(s[i + |f|..], f), r);
  }

  lemma NoPieceFound(s: seq<byte>, f: seq<byte>, r: seq<byte>)
    requires |f| > 0 && FirstFrom(s, 0, f) == ERR
    ensures Joined(Pieces(s, f), r) == s
  {
  }

  lemma {:induction false} ReplaceFromSuffix(s: seq<byte>, pos: nat, f: seq<byte>, r: seq<byte>)
    requires pos <= |s| && |f| > 0
    ensures ReplaceFrom(s, pos, f, r) == Joined(Pieces(s[pos..], f), r)
    decreases |s| - pos
  {
    hide Pieces, Joined, FirstFrom;
    FirstInSuffix(s, pos, f);
    var i := FirstFrom(s, pos, f);
    if i == ERR {
      NoPieceFound(s[pos..], f, r);
    } else {
      PiecesFound(s[pos..], f, r);
      SuffixParts(s, pos, i, i + |f|);
      ReplaceFromSuffix(s, i + |f|, f, r);
    }
  }

  lemma SuffixParts(s: seq<byte>, pos: nat, i: nat, next: nat)
    requires pos <= i <= next <= |s|
    ensures s[pos..][..i - pos] == s[pos..i] && s[pos..][next - pos..] == s[next..]
  {
  }

  lemma FirstInPiece(s: seq<byte>, f: seq<byte>)
    requires FirstFrom(s, 0, f) != ERR
    ensures FirstFrom(s[..FirstFrom(s, 0, f)] + f, 0, f) == FirstFrom(s, 0, f)
  {
    var i := FirstFrom(s, 0, f);
    FirstFromIsFirst(s, 0, f);
    var t := s[..i] + f;
    assert t == s[..i + |f|];
    forall p | 0 <= p < i ensures !MatchAt(t, p, f) {
      if p + |f| <= |t| {
        assert t[p..p + |f|] == s[p..p + |f|];
        assert !MatchAt(s, p, f);
      }
    }
    assert t[i..i + |f|] == f;
    FirstMatchIsUnique(t, 0, f, i);
  }

  lemma {:induction false} PiecesAreCut(s: seq<byte>, f: seq<byte>)
    requires |f| > 0
    ensures CutAt(Pieces(s, f), f)
    decreases |s|
  {
    var i := FirstFrom(s, 0, f);
    if i != ERR {
      FirstInPiece(s, f);
      var rest := Pieces(s[i + |f|..], f);
      PiecesAreCut(s[i + |f|..], f);
      assert ([s[..i]] + rest)[1..] == rest;
    }
  }

  // The first f in a + f + b is where it first is in a + f.
  lemma FirstWithMore(a: seq<byte>, f: seq<byte>, b: seq<byte>)
    requires |f| > 0 && FirstFrom(a + f, 0, f) == |a|
    ensures FirstFrom(a + f + b, 0, f) == |a|
  {
    var t, s := a + f, a + f + b;
    FirstFromIsFirst(t, 0, f);
    forall p | 0 <= p < |a| ensures !MatchAt(s, p, f) {
      assert !MatchAt(t, p, f);
      assert p + |f| <= |t| ==> s[p..p + |f|] == t[p..p + |f|];
    }
    assert s[|a|..|a| + |f|] == f;
    FirstMatchIsUnique(s, 0, f, |a|);
  }

  lemma PiecesCons(first: seq<byte>, f: seq<byte>, tail: seq<byte>)
    requires |f| > 0 && FirstFrom(first + f, 0, f) == |first|
    ensures Pieces(first + f + tail, f) == [first] + Pieces(tail, f)
  {
    var s := first + f + tail;
    FirstWithMore(first, f, tail);
    assert s[|first| + |f|..] == tail;
    assert s[..|first|] == first;
  }

  /** The pieces are the only way to cut s at leftmost occurrences of f, so this says what replacing does
      without saying how: cut s there, and join what is left with r instead. */
  lemma {:induction false} CutIsUnique(s: seq<byte>, f: seq<byte>, pieces: seq<seq<byte>>)
    requires |f| > 0 && CutAt(pieces, f) && Joined(pieces, f) == s
    ensures pieces == Pieces(s, f)
    decreases |pieces|
  {
    if |pieces| == 1 {
      assert pieces == [s];
    } else {
      var first, rest := pieces[0], pieces[1..];
      var tail := Joined(rest, f);
      CutIsUnique(tail, f, rest);
      PiecesCons(first, f, tail);
      assert pieces == [first] + rest;
    }
  }

  /** Replace-all, characterised: the result for s from pos on is the one and only cut of s[pos..] at
      leftmost occurrences of f, joined with r. */
  lemma ReplaceAllIsRejoin(s: seq<byte>, pos: nat, f: seq<byte>, r: seq<byte>, pieces: seq<seq<byte>>)
    requires |f| > 0 && pos <= |s| && CutAt(pieces, f) && Joined(pieces, f) == s[pos..]
    ensures ReplaceAll(s, pos, f, r) == s[..pos] + Joined(pieces, r)
  {
    CutIsUnique(s[pos..], f, pieces);
    ReplaceFromSuffix(s, pos, f, r);
    if pos + |f| > |s| {
      assert FirstFrom(s[pos..], 0, f) == ERR;
      assert s == s[..pos] + s[pos..];
    }
  }

  /** Where there is no room for f any more, and beyond the end of s, nothing is replaced. */
  lemma NothingToReplace(s: seq<byte>, pos: nat, f: seq<byte>, r: seq<byte>)
    requires |f| > 0 && pos + |f| > |s|
    ensures ReplaceAll(s, pos, f, r) == s
  {
  }
}
