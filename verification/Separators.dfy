/** When splitting at a substring does what one would expect, though the search passes over the position right
    behind every separator it finds. */
module Separators {
  import opened BStrings
  import opened Search
  import opened Replace
  import opened Cutting

  // No occurrence directly follows another: of the pieces between them, none but the outer two is empty.
  ghost predicate NoneAdjacent(pieces: seq<seq<byte>>) {
    forall k :: 0 < k < |pieces| - 1 ==> pieces[k] != []
  }

  // The same for the pieces after an occurrence, where the first counts too.
  ghost predicate NoneEmpty(pieces: seq<seq<byte>>) {
    forall k :: 0 <= k < |pieces| - 1 ==> pieces[k] != []
  }

  lemma NoneEmptyCons(x: seq<byte>, rest: seq<seq<byte>>)
    requires rest != []
    ensures NoneEmpty([x] + rest) <==> x != [] && NoneEmpty(rest)
    ensures NoneAdjacent([x] + rest) <==> NoneEmpty(rest)
  {
    var all := [x] + rest;
    assert all[0] == x && forall k :: 0 <= k < |rest| ==> all[k + 1] == rest[k];
    if NoneEmpty(rest) {
      forall k | 0 < k < |all| - 1 ensures all[k] != [] {
        assert all[k] == rest[k - 1];
      }
    }
    if NoneAdjacent(all) {
      forall k | 0 <= k < |rest| - 1 ensures rest[k] != [] {
        assert rest[k] == all[k + 1];
      }
    }
  }

  // The pieces of the text from p on.
  ghost function PiecesFrom(s: seq<byte>, sep: seq<byte>, p: nat): (r: seq<seq<byte>>)
    requires p <= |s| && sep != []
    ensures r != []
    decreases |s| - p
  {
    var m := FirstFrom(s, p, sep);
    if m == ERR then [s[p..]] else [s[p..m]] + PiecesFrom(s, sep, m + |sep|)
  }

  lemma {:induction false} PiecesFromIs(s: seq<byte>, sep: seq<byte>, p: nat)
    requires p <= |s| && sep != []
    ensures PiecesFrom(s, sep, p) == Pieces(s[p..], sep)
    decreases |s| - p
  {
    FirstInSuffix(s, p, sep);
    var m := FirstFrom(s, p, sep);
    if m != ERR {
      SuffixParts(s, p, m, m + |sep|);
      PiecesFromIs(s, sep, m + |sep|);
    }
  }

  lemma SameTail(x: seq<byte>, a: seq<seq<byte>>, b: seq<seq<byte>>)
    requires b != []
    ensures [x] + a == [x] + b <==> a == b
    ensures NoneEmpty([x] + b) <==> x != [] && NoneEmpty(b)
    ensures NoneAdjacent([x] + b) <==> NoneEmpty(b)
  {
    assert ([x] + a)[1..] == a && ([x] + b)[1..] == b;
    NoneEmptyCons(x, b);
  }

  // Both cut at the same place.
  lemma BothCutHere(s: seq<byte>, sep: seq<byte>, p: nat, i: nat, m: nat)
    requires p <= |s| && p <= i && sep != [] && FirstFrom(s, p, sep) == FirstFrom(s, i, sep) == m
    ensures p <= m && m + |sep| <= |s|
    ensures StringEntries(s, sep, p, i) == [s[p..m]] + StringEntries(s, sep, m + |sep|, m + |sep| + 1)
    ensures PiecesFrom(s, sep, p) == [s[p..m]] + PiecesFrom(s, sep, m + |sep|)
  {
    hide FirstFrom, StringEntries;
    StringEntriesStep(s, sep, p, i);
  }

  lemma LaterSearch(s: seq<byte>, sep: seq<byte>, p: nat)
    requires FirstFrom(s, p, sep) != p
    ensures FirstFrom(s, p + 1, sep) == FirstFrom(s, p, sep)
  {
    FirstFromIsFirst(s, p, sep);
    FirstMatchIsUnique(s, p + 1, sep, FirstFrom(s, p, sep));
  }

  // A separator right at p is missed: the entry is not empty there, the piece is.
  lemma MissedHere(s: seq<byte>, sep: seq<byte>, p: nat)
    requires p <= |s| && sep != [] && FirstFrom(s, p, sep) == p
    ensures StringEntries(s, sep, p, p + 1) != PiecesFrom(s, sep, p)
    ensures !NoneEmpty(PiecesFrom(s, sep, p))
  {
    StringEntriesStep(s, sep, p, p + 1);
    NoneEmptyCons(s[p..p], PiecesFrom(s, sep, p + |sep|));
    assert StringEntries(s, sep, p, p + 1)[0] != [] && PiecesFrom(s, sep, p)[0] == [];
  }

  // After both have cut at m, they agree when they do so from there on.
  lemma CutsAgree(s: seq<byte>, sep: seq<byte>, p: nat, i: nat, m: nat, next: nat)
    requires p <= |s| && p <= i && sep != [] && FirstFrom(s, p, sep) == FirstFrom(s, i, sep) == m && next == m + |sep|
    ensures next <= |s|
    ensures StringEntries(s, sep, p, i) == PiecesFrom(s, sep, p)
      <==> StringEntries(s, sep, next, next + 1) == PiecesFrom(s, sep, next)
    ensures NoneEmpty(PiecesFrom(s, sep, p)) <==> p != m && NoneEmpty(PiecesFrom(s, sep, next))
    ensures NoneAdjacent(PiecesFrom(s, sep, p)) <==> NoneEmpty(PiecesFrom(s, sep, next))
  {
    hide FirstFrom, StringEntries, PiecesFrom, NoneEmpty, NoneAdjacent;
    BothCutHere(s, sep, p, i, m);
    SameTail(s[p..m], StringEntries(s, sep, next, next + 1), PiecesFrom(s, sep, next));
  }

  lemma {:induction false} TailSplitsCleanly(s: seq<byte>, sep: seq<byte>, p: nat)
    requires p <= |s| && sep != []
    ensures StringEntries(s, sep, p, p + 1) == PiecesFrom(s, sep, p) <==> NoneEmpty(PiecesFrom(s, sep, p))
    decreases |s| - p
  {
    hide FirstFrom, StringEntries;
    var m := FirstFrom(s, p, sep);
    if m == p {
      MissedHere(s, sep, p);
    } else {
      LaterSearch(s, sep, p);
      if m == ERR {
        StringEntriesStep(s, sep, p, p + 1);
      } else {
        CutsAgree(s, sep, p, p + 1, m, m + |sep|);
        TailSplitsCleanly(s, sep, m + |sep|);
      }
    }
  }

  lemma LoopSplitsCleanly(s: seq<byte>, sep: seq<byte>)
    requires sep != []
    ensures StringEntries(s, sep, 0, 0) == PiecesFrom(s, sep, 0) <==> NoneAdjacent(PiecesFrom(s, sep, 0))
  {
    hide FirstFrom, StringEntries;
    var m := FirstFrom(s, 0, sep);
    if m == ERR {
      StringEntriesStep(s, sep, 0, 0);
    } else {
      CutsAgree(s, sep, 0, 0, m, m + |sep|);
      TailSplitsCleanly(s, sep, m + |sep|);
    }
  }

  // A single character goes to bsplitcb, which looks at every position.
  lemma NextIsFirst(s: seq<byte>, c: byte, p: nat, i: nat)
    requires p <= |s| && IsNextSeparator(s, {c}, p, i)
    ensures FirstFrom(s, p, [c]) == if i < |s| then i else ERR
  {
    forall q | p <= q ensures MatchAt(s, q, [c]) <==> q < |s| && s[q] == c {
      if q < |s| {
        assert s[q..q + 1] == [s[q]];
      }
    }
    FirstMatchIsUnique(s, p, [c], if i < |s| then i else ERR);
  }

  lemma {:induction false} CharacterSplitsCleanly(s: seq<byte>, c: byte, p: nat)
    requires p <= |s|
    ensures CutEntries(s, {c}, p) == PiecesFrom(s, [c], p)
    decreases |s| - p
  {
    var i := CutsStep(s, {c}, p);
    NextIsFirst(s, c, p, i);
    if i < |s| {
      CharacterSplitsCleanly(s, c, i + 1);
    }
  }

  /** Splitting at a substring cuts at its leftmost occurrences exactly when it is a single character or none of
      them directly follows another. */
  lemma SplitsCleanlyIff(s: seq<byte>, sep: seq<byte>)
    requires sep != []
    ensures AllStringEntries(s, sep) == Pieces(s, sep) <==> |sep| == 1 || NoneAdjacent(Pieces(s, sep))
  {
    PiecesFromIs(s, sep, 0);
    assert s[0..] == s;
    if |sep| == 1 {
      assert sep == [sep[0]];
      CharacterSplitsCleanly(s, sep[0], 0);
    } else {
      LoopSplitsCleanly(s, sep);
    }
  }

  /** Of two separators in a row, each of two characters or more, the second comes back as an entry. */
  lemma AdjacentMissed(sep: seq<byte>)
    requires |sep| > 1
    ensures AllStringEntries(sep + sep, sep) == [[], sep]
  {
    var s, k := sep + sep, |sep|;
    assert s[0..k] == sep && s[k..] == sep;
    FirstMatchIsUnique(s, 0, sep, 0);
    FirstMatchIsUnique(s, k + 1, sep, ERR);
    StringEntriesStep(s, sep, 0, 0);
    StringEntriesStep(s, sep, k, k + 1);
    assert s[0..0] == [];
  }

  // ---------------------------------------------------------------- no separator in an entry

  // An occurrence at p, where an entry starts, that overlaps no later one: the entry runs over all of it.
  ghost predicate Swallowed(s: seq<byte>, sep: seq<byte>, p: nat) {
    MatchAt(s, p, sep) && (FirstFrom(s, p + 1, sep) == ERR || FirstFrom(s, p + 1, sep) >= p + |sep|)
  }

  // The entry at p swallows no occurrence, and neither do those after it.
  ghost predicate NoneSwallowed(s: seq<byte>, sep: seq<byte>, p: nat)
    requires p <= |s| && sep != []
    decreases |s| - p
  {
    var m := FirstFrom(s, p + 1, sep);
    !Swallowed(s, sep, p) && (m == ERR || NoneSwallowed(s, sep, m + |sep|))
  }

  // The same for a whole string. Nothing can be swallowed at its start, where the search has passed over nothing.
  ghost predicate SwallowsNothing(s: seq<byte>, sep: seq<byte>)
    requires sep != []
  {
    var m := FirstFrom(s, 0, sep);
    |sep| == 1 || m == ERR || NoneSwallowed(s, sep, m + |sep|)
  }

  ghost predicate Free(entry: seq<byte>, sep: seq<byte>) {
    FirstFrom(entry, 0, sep) == ERR
  }

  ghost predicate NoneContains(entries: seq<seq<byte>>, sep: seq<byte>) {
    forall k {:trigger Free(entries[k], sep)} :: 0 <= k < |entries| ==> Free(entries[k], sep)
  }

  lemma NoneContainsMeans(entries: seq<seq<byte>>, sep: seq<byte>, k: nat, q: nat)
    requires NoneContains(entries, sep) && k < |entries| && q + |sep| <= |entries[k]|
    ensures entries[k][q..q + |sep|] != sep
  {
    assert Free(entries[k], sep);
    FirstFromIsFirst(entries[k], 0, sep);
    assert !MatchAt(entries[k], q, sep);
  }

  lemma SomeContains(entries: seq<seq<byte>>, sep: seq<byte>) returns (k: nat, q: nat)
    requires !NoneContains(entries, sep)
    ensures k < |entries| && q + |sep| <= |entries[k]| && entries[k][q..q + |sep|] == sep
  {
    k :| 0 <= k < |entries| && !Free(entries[k], sep);
    q := FirstFrom(entries[k], 0, sep);
    FirstFromIsFirst(entries[k], 0, sep);
  }

  lemma NoneContainsCons(x: seq<byte>, rest: seq<seq<byte>>, sep: seq<byte>)
    ensures NoneContains([x] + rest, sep) <==> Free(x, sep) && NoneContains(rest, sep)
  {
    var all := [x] + rest;
    if NoneContains(all, sep) {
      assert Free(all[0], sep);
      forall k | 0 <= k < |rest| ensures Free(rest[k], sep) {
        assert Free(all[k + 1], sep);
      }
    }
    if Free(x, sep) && NoneContains(rest, sep) {
      forall k | 0 <= k < |all| ensures Free(all[k], sep) {
        assert k > 0 ==> Free(rest[k - 1], sep);
      }
    }
  }

  lemma StretchOfStretch(s: seq<byte>, p: nat, e: nat, x: nat, n: nat)
    requires p <= e <= |s| && x + n <= e - p
    ensures s[p..e][x..x + n] == s[p + x..p + x + n]
  {
    var t := s[p..e];
    var a, b := t[x..x + n], s[p + x..p + x + n];
    assert |a| == |b|;
    forall k | 0 <= k < n ensures a[k] == b[k] {
      assert t[x + k] == s[p + x + k];
    }
  }

  // sep occurs in the stretch from p to e exactly where it occurs in s without reaching beyond e.
  lemma OccursWithin(s: seq<byte>, sep: seq<byte>, p: nat, e: nat, q: nat)
    requires p <= e <= |s| && p <= q
    ensures MatchAt(s[p..e], q - p, sep) <==> MatchAt(s, q, sep) && q + |sep| <= e
  {
    if q + |sep| <= e {
      StretchOfStretch(s, p, e, q - p, |sep|);
    }
  }

  // An entry from p to the first occurrence behind p contains none but the one at p itself.
  lemma EntryContains(s: seq<byte>, sep: seq<byte>, p: nat, e: nat)
    requires p <= e <= |s| && sep != []
    requires var m := FirstFrom(s, p + 1, sep); e == if m == ERR then |s| else m
    ensures Free(s[p..e], sep) <==> !Swallowed(s, sep, p)
  {
    var entry := s[p..e];
    FirstFromIsFirst(s, p + 1, sep);
    FirstFromIsFirst(entry, 0, sep);
    if Swallowed(s, sep, p) {
      OccursWithin(s, sep, p, e, p);
      assert MatchAt(entry, 0, sep);
    } else {
      var k := FirstFrom(entry, 0, sep);
      if k != ERR {
        OccursWithin(s, sep, p, e, p + k);
      }
    }
  }

  // An entry up to the first occurrence in the string contains none.
  lemma FirstEntryContainsNone(s: seq<byte>, sep: seq<byte>, e: nat)
    requires e <= |s| && sep != [] && e == if FirstFrom(s, 0, sep) == ERR then |s| else FirstFrom(s, 0, sep)
    ensures Free(s[0..e], sep)
  {
    var k := FirstFrom(s[0..e], 0, sep);
    FirstFromIsFirst(s, 0, sep);
    FirstFromIsFirst(s[0..e], 0, sep);
    if k != ERR {
      OccursWithin(s, sep, 0, e, k);
    }
  }

  lemma LastContainsNone(s: seq<byte>, sep: seq<byte>, p: nat)
    requires p <= |s| && sep != [] && FirstFrom(s, p + 1, sep) == ERR
    ensures NoneContains(StringEntries(s, sep, p, p + 1), sep) <==> !Swallowed(s, sep, p)
  {
    hide FirstFrom, StringEntries, Swallowed;
    StringEntriesStep(s, sep, p, p + 1);
    EntryContains(s, sep, p, |s|);
    assert s[p..] == s[p..|s|];
    assert Free([s[p..]][0], sep) <==> Free(s[p..], sep);
  }

  lemma NextContainsNone(s: seq<byte>, sep: seq<byte>, p: nat, m: nat, next: nat)
    requires p <= |s| && sep != [] && FirstFrom(s, p + 1, sep) == m && next == m + |sep|
    ensures NoneContains(StringEntries(s, sep, p, p + 1), sep) <==>
            !Swallowed(s, sep, p) && NoneContains(StringEntries(s, sep, next, next + 1), sep)
  {
    hide FirstFrom, StringEntries, Swallowed, NoneContains;
    StringEntriesStep(s, sep, p, p + 1);
    EntryContains(s, sep, p, m);
    NoneContainsCons(s[p..m], StringEntries(s, sep, next, next + 1), sep);
  }

  lemma {:induction false} TailContainsNoneIff(s: seq<byte>, sep: seq<byte>, p: nat)
    requires p <= |s| && sep != []
    ensures NoneContains(StringEntries(s, sep, p, p + 1), sep) <==> NoneSwallowed(s, sep, p)
    decreases |s| - p
  {
    hide FirstFrom, StringEntries, NoneContains;
    var m := FirstFrom(s, p + 1, sep);
    if m == ERR {
      LastContainsNone(s, sep, p);
    } else {
      NextContainsNone(s, sep, p, m, m + |sep|);
      TailContainsNoneIff(s, sep, m + |sep|);
    }
  }

  lemma LoopContainsNoneIff(s: seq<byte>, sep: seq<byte>)
    requires |sep| > 1
    ensures NoneContains(StringEntries(s, sep, 0, 0), sep) <==> SwallowsNothing(s, sep)
  {
    hide FirstFrom, StringEntries, NoneSwallowed;
    var m := FirstFrom(s, 0, sep);
    StringEntriesStep(s, sep, 0, 0);
    if m == ERR {
      FirstEntryContainsNone(s, sep, |s|);
      assert s[0..] == s[0..|s|];
      assert Free([s[0..]][0], sep);
    } else {
      var next := m + |sep|;
      FirstEntryContainsNone(s, sep, m);
      NoneContainsCons(s[0..m], StringEntries(s, sep, next, next + 1), sep);
      TailContainsNoneIff(s, sep, next);
    }
  }

  /** No entry contains the separator exactly when each one that directly follows another is overlapped by a later
      one, or it is a single character. */
  lemma NoSeparatorLeftIff(s: seq<byte>, sep: seq<byte>)
    requires sep != []
    ensures NoneContains(AllStringEntries(s, sep), sep) <==> SwallowsNothing(s, sep)
  {
    if |sep| == 1 {
      SplitsCleanlyIff(s, sep);
      PiecesAreCut(s, sep);
      PiecesAreClean(Pieces(s, sep), sep);
    } else {
      LoopContainsNoneIff(s, sep);
    }
  }

  lemma OccursInLonger(s: seq<byte>, sep: seq<byte>, k: nat, more: seq<byte>)
    ensures MatchAt(s, k, sep) ==> MatchAt(s + more, k, sep)
  {
    if k + |sep| <= |s| {
      assert (s + more)[k..k + |sep|] == s[k..k + |sep|];
    }
  }

  lemma {:induction false} PiecesAreClean(pieces: seq<seq<byte>>, sep: seq<byte>)
    requires sep != [] && CutAt(pieces, sep)
    ensures NoneContains(pieces, sep)
    decreases |pieces|
  {
    var first := pieces[0];
    if |pieces| > 1 {
      var t, k := first + sep, FirstFrom(first, 0, sep);
      FirstFromIsFirst(t, 0, sep);
      FirstFromIsFirst(first, 0, sep);
      if k != ERR {
        OccursInLonger(first, sep, k, sep);
      }
      PiecesAreClean(pieces[1..], sep);
      NoneContainsCons(first, pieces[1..], sep);
      assert pieces == [first] + pieces[1..];
    }
  }

  // No end of sep is also a beginning, so that its occurrences never overlap.
  ghost predicate Unbordered(sep: seq<byte>) {
    forall j :: 0 < j < |sep| ==> sep[j..] != sep[..|sep| - j]
  }

  // As when all characters of it are different.
  lemma DistinctIsUnbordered(sep: seq<byte>)
    requires forall i, j :: 0 <= i < j < |sep| ==> sep[i] != sep[j]
    ensures Unbordered(sep)
  {
    forall j | 0 < j < |sep| ensures sep[j..] != sep[..|sep| - j] {
      assert sep[j..][0] == sep[j] && sep[..|sep| - j][0] == sep[0];
    }
  }

  lemma Overlap(s: seq<byte>, sep: seq<byte>, p: nat, j: nat)
    requires MatchAt(s, p, sep) && MatchAt(s, p + j, sep) && 0 < j < |sep|
    ensures sep[j..] == sep[..|sep| - j]
  {
    var a, b := s[p..p + |sep|], s[p + j..p + j + |sep|];
    forall k | 0 <= k < |sep| - j ensures sep[j..][k] == sep[..|sep| - j][k] {
      assert a[j + k] == s[p + j + k] == b[k];
    }
  }

  lemma NoOverlap(s: seq<byte>, sep: seq<byte>, p: nat, q: nat)
    requires Unbordered(sep) && MatchAt(s, p, sep) && MatchAt(s, q, sep) && p < q
    ensures q >= p + |sep|
  {
    if q < p + |sep| {
      Overlap(s, sep, p, q - p);
    }
  }

  lemma DoubleIs(s: seq<byte>, sep: seq<byte>, q: nat)
    ensures MatchAt(s, q, sep + sep) <==> MatchAt(s, q, sep) && MatchAt(s, q + |sep|, sep)
  {
    if q + 2 * |sep| <= |s| {
      assert s[q..q + |sep + sep|] == s[q..q + |sep|] + s[q + |sep|..q + |sep| + |sep|];
      assert (sep + sep)[..|sep|] == sep && (sep + sep)[|sep|..] == sep;
    }
  }

  ghost predicate NoDouble(s: seq<byte>, sep: seq<byte>, p: nat) {
    forall q: nat {:trigger MatchAt(s, q, sep + sep)} :: p <= q ==> !MatchAt(s, q, sep + sep)
  }

  // With the first occurrence at m, a double one is there or beyond it.
  lemma DoubleAfter(s: seq<byte>, sep: seq<byte>, p: nat, m: nat)
    requires sep != [] && Unbordered(sep) && IsFirstMatch(s, p, sep, m)
    ensures NoDouble(s, sep, p) <==> !MatchAt(s, m + |sep|, sep) && NoDouble(s, sep, m + |sep|)
  {
    DoubleIs(s, sep, m);
    if !MatchAt(s, m + |sep|, sep) && NoDouble(s, sep, m + |sep|) {
      forall q: nat | p <= q ensures !MatchAt(s, q, sep + sep) {
        DoubleIs(s, sep, q);
        if m < q && MatchAt(s, q, sep) {
          NoOverlap(s, sep, m, q);
        }
      }
    }
  }

  lemma {:induction false} SwallowedIsDouble(s: seq<byte>, sep: seq<byte>, p: nat)
    requires p <= |s| && |sep| > 1 && Unbordered(sep)
    ensures NoneSwallowed(s, sep, p) <==> !MatchAt(s, p, sep) && NoDouble(s, sep, p)
    decreases |s| - p
  {
    var m := FirstFrom(s, p + 1, sep);
    FirstFromIsFirst(s, p + 1, sep);
    if MatchAt(s, p, sep) {
      if m != ERR {
        NoOverlap(s, sep, p, m);
      }
    } else {
      DoubleIs(s, sep, p);
      if m == ERR {
        forall q: nat | p <= q ensures !MatchAt(s, q, sep + sep) {
          DoubleIs(s, sep, q);
        }
      } else {
        DoubleAfter(s, sep, p, m);
        SwallowedIsDouble(s, sep, m + |sep|);
      }
    }
  }

  lemma NothingSwallowedIffNoDouble(s: seq<byte>, sep: seq<byte>)
    requires |sep| > 1 && Unbordered(sep)
    ensures SwallowsNothing(s, sep) <==> NoDouble(s, sep, 0)
  {
    hide MatchAt, NoneSwallowed, Unbordered;
    var m := FirstFrom(s, 0, sep);
    FirstFromIsFirst(s, 0, sep);
    if m == ERR {
      forall q: nat ensures !MatchAt(s, q, sep + sep) {
        DoubleIs(s, sep, q);
      }
    } else {
      hide IsFirstMatch, NoDouble;
      DoubleAfter(s, sep, 0, m);
      SwallowedIsDouble(s, sep, m + |sep|);
    }
  }

  /** For a separator whose occurrences cannot overlap that comes down to the separator not being there twice in a
      row anywhere. */
  lemma NoSeparatorLeftIffNoDouble(s: seq<byte>, sep: seq<byte>)
    requires |sep| > 1 && Unbordered(sep)
    ensures NoneContains(AllStringEntries(s, sep), sep) <==> NoDouble(s, sep, 0)
  {
    hide SwallowsNothing, NoneContains, AllStringEntries, NoDouble;
    NoSeparatorLeftIff(s, sep);
    NothingSwallowedIffNoDouble(s, sep);
  }

  lemma TwoOf(s: seq<byte>, a: byte, p: nat)
    requires p + 2 <= |s| && s[p] == s[p + 1] == a
    ensures MatchAt(s, p, [a, a])
  {
    assert s[p..p + 2] == [s[p], s[p + 1]];
  }

  lemma FoundInFive(a: byte)
    ensures FirstFrom([a, a, a, a, a], 0, [a, a]) == 0 && FirstFrom([a, a, a, a, a], 3, [a, a]) == 3
    ensures FirstFrom([a, a, a, a, a], 6, [a, a]) == ERR
  {
    var s, sep := [a, a, a, a, a], [a, a];
    TwoOf(s, a, 0);
    TwoOf(s, a, 3);
    FirstMatchIsUnique(s, 0, sep, 0);
    FirstMatchIsUnique(s, 3, sep, 3);
    FirstMatchIsUnique(s, 6, sep, ERR);
  }

  lemma FiveEntries(a: byte)
    ensures AllStringEntries([a, a, a, a, a], [a, a]) == [[], [a], []]
  {
    var s, sep := [a, a, a, a, a], [a, a];
    assert AllStringEntries(s, sep) == StringEntries(s, sep, 0, 0);
    hide FirstFrom, StringEntries, AllStringEntries;
    FoundInFive(a);
    StringEntriesStep(s, sep, 0, 0);
    StringEntriesStep(s, sep, 2, 3);
    StringEntriesStep(s, sep, 5, 6);
    assert s[0..0] == [] && s[2..3] == [a] && s[5..] == [];
  }

  lemma ShortFree(entry: seq<byte>, sep: seq<byte>)
    requires |entry| < |sep|
    ensures Free(entry, sep)
  {
    FirstMatchIsUnique(entry, 0, sep, ERR);
  }

  /** Occurrences that overlap can make good for it: five times a character, split at two of it. */
  lemma OverlapHides(a: byte)
    ensures AllStringEntries([a, a, a, a, a], [a, a]) == [[], [a], []]
    ensures !NoneAdjacent(Pieces([a, a, a, a, a], [a, a])) && SwallowsNothing([a, a, a, a, a], [a, a])
  {
    hide AllStringEntries, Pieces, NoneAdjacent, SwallowsNothing, Free;
    var s, sep := [a, a, a, a, a], [a, a];
    FiveEntries(a);
    FiveCut(s, sep, a);
    NoSeparatorLeftIff(s, sep);
    ShortFree([], sep);
    ShortFree([a], sep);
  }

  lemma FiveCut(s: seq<byte>, sep: seq<byte>, a: byte)
    requires s == [a, a, a, a, a] && sep == [a, a]
    ensures !NoneAdjacent(Pieces(s, sep))
  {
    SplitsCleanlyIff(s, sep);
    TwoOf(s, a, 0);
    TwoOf(s, a, 2);
    FirstMatchIsUnique(s, 0, sep, 0);
    FirstMatchIsUnique(s, 2, sep, 2);
    assert s[0..] == s;
    PiecesFromIs(s, sep, 0);
    assert PiecesFrom(s, sep, 0)[1] == s[2..2];
  }
}
