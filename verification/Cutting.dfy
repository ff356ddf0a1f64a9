/** What splitting a string at separators means, and that joining undoes it. */
module Cutting {
  import opened BStrings
  import opened Search
  import opened Replace

  // One call of the split callback: where the entry starts, and its characters.
  datatype Call = Call(ofs: nat, entry: seq<byte>)

  function Entries(calls: seq<Call>): seq<seq<byte>> {
    if calls == [] then [] else [calls[0].entry] + Entries(calls[1..])
  }

  lemma EntriesCons(call: Call, calls: seq<Call>)
    ensures Entries([call] + calls) == [call.entry] + Entries(calls)
  {
    assert ([call] + calls)[1..] == calls;
  }

  // i is the first position from p on that holds one of the separators, |s| when there is none.
  ghost predicate IsNextSeparator(s: seq<byte>, seps: set<byte>, p: nat, i: nat) {
    && p <= i <= |s|
    && (forall k :: p <= k < i ==> s[k] !in seps)
    && (i < |s| ==> s[i] in seps)
  }

  lemma {:induction false} SeparatorExists(s: seq<byte>, seps: set<byte>, p: nat) returns (i: nat)
    requires p <= |s|
    ensures IsNextSeparator(s, seps, p, i)
    decreases |s| - p
  {
    if p == |s| || s[p] in seps {
      i := p;
    } else {
      i := SeparatorExists(s, seps, p + 1);
    }
  }

  ghost function NextSeparator(s: seq<byte>, seps: set<byte>, p: nat): (i: nat)
    requires p <= |s|
    ensures p <= i <= |s|
  {
    assert exists i: nat :: IsNextSeparator(s, seps, p, i) by {
      var i := SeparatorExists(s, seps, p);
    }
    var i: nat :| IsNextSeparator(s, seps, p, i);
    i
  }

  lemma SeparatorIs(s: seq<byte>, seps: set<byte>, p: nat, i: nat)
    requires p <= |s| && IsNextSeparator(s, seps, p, i)
    ensures NextSeparator(s, seps, p) == i
  {
    var j := NextSeparator(s, seps, p);
    assert IsNextSeparator(s, seps, p, j);
  }

  // Every separator ends an entry; what follows the last one, if only the empty string, is the last entry.
  ghost function Cuts(s: seq<byte>, seps: set<byte>, p: nat): (r: seq<Call>)
    requires p <= |s|
    ensures r != []
    decreases |s| - p
  {
    var i := NextSeparator(s, seps, p);
    [Call(p, s[p..i])] + if i < |s| then Cuts(s, seps, i + 1) else []
  }

  ghost function CutEntries(s: seq<byte>, seps: set<byte>, p: nat): seq<seq<byte>>
    requires p <= |s|
  {
    Entries(Cuts(s, seps, p))
  }

  lemma CutsStep(s: seq<byte>, seps: set<byte>, p: nat) returns (i: nat)
    requires p <= |s|
    ensures IsNextSeparator(s, seps, p, i)
    ensures if i < |s| then Cuts(s, seps, p) == [Call(p, s[p..i])] + Cuts(s, seps, i + 1)
            else Cuts(s, seps, p) == [Call(p, s[p..])]
    ensures if i < |s| then CutEntries(s, seps, p) == [s[p..i]] + CutEntries(s, seps, i + 1)
            else CutEntries(s, seps, p) == [s[p..]]
  {
    i := NextSeparator(s, seps, p);
    if i < |s| {
      EntriesCons(Call(p, s[p..i]), Cuts(s, seps, i + 1));
    } else {
      assert s[p..i] == s[p..];
      assert Cuts(s, seps, p) == [Call(p, s[p..])];
      assert Entries([Call(p, s[p..])]) == [s[p..]];
    }
  }

  function Count(s: seq<byte>, c: byte): nat {
    if s == [] then 0 else Count(s[..|s| - 1], c) + if s[|s| - 1] == c then 1 else 0
  }

  lemma {:induction false} CountIsMultiplicity(s: seq<byte>, c: byte)
    ensures Count(s, c) == multiset(s)[c]
  {
    if s != [] {
      CountIsMultiplicity(s[..|s| - 1], c);
      assert s == s[..|s| - 1] + [s[|s| - 1]];
    }
  }

  /** What call number k is: its entry is the text from where it starts, and holds no separator; the first one starts
      at p; behind an entry that is not the last there is a separator, and behind that the next one starts; the last
      one ends the text. */
  lemma {:induction false} CutIs(s: seq<byte>, seps: set<byte>, p: nat, k: nat)
    requires p <= |s| && k < |Cuts(s, seps, p)|
    ensures var calls := Cuts(s, seps, p);
      var end := calls[k].ofs + |calls[k].entry|;
      && end <= |s| && calls[k].entry == s[calls[k].ofs..end]
      && (forall c :: c in calls[k].entry ==> c !in seps)
      && (k == 0 ==> calls[k].ofs == p)
      && (if k + 1 < |calls| then end < |s| && s[end] in seps && calls[k + 1].ofs == end + 1 else end == |s|)
    decreases |s| - p
  {
    hide Cuts, CutEntries, Entries, NextSeparator;
    var i := CutsStep(s, seps, p);
    if i < |s| {
      var calls, rest := Cuts(s, seps, p), Cuts(s, seps, i + 1);
      CutIs(s, seps, i + 1, if k == 0 then 0 else k - 1);
      assert calls == [Call(p, s[p..i])] + rest;
      if k == 0 {
        assert calls[0].entry == s[p..i] && calls[1] == rest[0];
      } else {
        assert calls[k] == rest[k - 1];
        assert k + 1 < |calls| ==> calls[k + 1] == rest[k];
      }
    } else {
      assert Cuts(s, seps, p)[0].entry == s[p..i];
    }
  }

  // ---------------------------------------------------------------- one character

  /** Splitting at a character and joining with it is the identity. */
  lemma {:induction false} CutsRejoin(s: seq<byte>, c: byte, p: nat)
    requires p <= |s|
    ensures Joined(CutEntries(s, {c}, p), [c]) == s[p..]
    decreases |s| - p
  {
    var i := CutsStep(s, {c}, p);
    if i < |s| {
      CutsRejoin(s, c, i + 1);
      JoinedCons(s[p..i], CutEntries(s, {c}, i + 1), [c]);
      Unsplit(s, p, i);
    }
  }

  lemma Unsplit(s: seq<byte>, p: nat, i: nat)
    requires p <= i < |s|
    ensures s[p..] == s[p..i] + [s[i]] + s[i + 1..]
  {
  }

  lemma {:induction false} CountSplit(s: seq<byte>, c: byte, i: nat)
    requires i <= |s|
    ensures Count(s, c) == Count(s[..i], c) + Count(s[i..], c)
    decreases |s|
  {
    if i < |s| {
      var k := |s| - 1;
      CountSplit(s[..k], c, i);
      assert s[..k][..i] == s[..i];
      assert s[..k][i..] == s[i..][..k - i];
    } else {
      assert s[..i] == s && s[i..] == [];
    }
  }

  lemma {:induction false} CountNone(s: seq<byte>, c: byte)
    requires c !in s
    ensures Count(s, c) == 0
  {
    if s != [] {
      CountNone(s[..|s| - 1], c);
    }
  }

  lemma CountParts(s: seq<byte>, c: byte, p: nat, i: nat)
    requires p <= i < |s| && s[i] == c && c !in s[p..i]
    ensures Count(s[p..], c) == 1 + Count(s[i + 1..], c)
  {
    var t := s[p..i] + [c];
    Unsplit(s, p, i);
    CountSplit(s[p..], c, |t|);
    assert s[p..][..|t|] == t && s[p..][|t|..] == s[i + 1..];
    assert t[..|t| - 1] == s[p..i];
    CountNone(s[p..i], c);
  }

  /** There is one entry more than there are separators, and no entry contains the separator. */
  lemma {:induction false} CutsAreClean(s: seq<byte>, c: byte, p: nat)
    requires p <= |s|
    ensures |Cuts(s, {c}, p)| == Count(s[p..], c) + 1
    ensures forall call :: call in Cuts(s, {c}, p) ==> c !in call.entry
    decreases |s| - p
  {
    var i := CutsStep(s, {c}, p);
    assert c !in s[p..i];
    if i < |s| {
      CutsAreClean(s, c, i + 1);
      CountParts(s, c, p, i);
    } else {
      CountNone(s[p..], c);
    }
  }

  lemma CutHere(s: seq<byte>, seps: set<byte>, p: nat, i: nat)
    requires p <= |s| && IsNextSeparator(s, seps, p, i)
    ensures if i < |s| then CutEntries(s, seps, p) == [s[p..i]] + CutEntries(s, seps, i + 1)
            else CutEntries(s, seps, p) == [s[p..]]
  {
    var j := CutsStep(s, seps, p);
    SeparatorIs(s, seps, p, i);
    SeparatorIs(s, seps, p, j);
  }

  lemma FirstEntry(s: seq<byte>, p: nat, first: seq<byte>, c: byte, tail: seq<byte>)
    requires p <= |s| && s[p..] == first + [c] + tail && c !in first
    ensures p + |first| < |s| && s[p + |first| + 1..] == tail
    ensures CutEntries(s, {c}, p) == [first] + CutEntries(s, {c}, p + |first| + 1)
  {
    var t := s[p..];
    assert forall k :: p <= k < |s| ==> s[k] == t[k - p];
    assert s[p..p + |first|] == first;
    CutHere(s, {c}, p, p + |first|);
  }

  lemma LastEntry(s: seq<byte>, p: nat, c: byte)
    requires p <= |s| && c !in s[p..]
    ensures CutEntries(s, {c}, p) == [s[p..]]
  {
    assert forall k :: p <= k < |s| ==> s[k] == s[p..][k - p];
    CutHere(s, {c}, p, |s|);
  }

  /** Entries without the character in them, joined with it, are what splitting gives back. */
  lemma {:induction false} CutsAreUnique(s: seq<byte>, c: byte, p: nat, entries: seq<seq<byte>>)
    requires entries != [] && forall e :: e in entries ==> c !in e
    requires p <= |s| && Joined(entries, [c]) == s[p..]
    ensures CutEntries(s, {c}, p) == entries
    decreases |entries|
  {
    hide CutEntries;
    var first := entries[0];
    assert first in entries;
    if |entries| == 1 {
      LastEntry(s, p, c);
    } else {
      var rest := entries[1..];
      FirstEntry(s, p, first, c, Joined(rest, [c]));
      CutsAreUnique(s, c, p + |first| + 1, rest);
      assert entries == [first] + rest;
    }
  }

  // The calls made up to here, with those for the text from p on, are all the calls to make.
  ghost predicate Ahead(all: seq<Call>, calls: seq<Call>, s: seq<byte>, seps: set<byte>, p: nat) {
    if p <= |s| then all == calls + Cuts(s, seps, p) else all == calls
  }

  lemma OneCallMore(all: seq<Call>, calls: seq<Call>, s: seq<byte>, seps: set<byte>, p: nat, i: nat, entry: seq<byte>)
    requires p <= |s| && IsNextSeparator(s, seps, p, i) && entry == s[p..i]
    requires Ahead(all, calls, s, seps, p)
    ensures Ahead(all, calls + [Call(p, entry)], s, seps, i + 1)
  {
    var j := CutsStep(s, seps, p);
    SeparatorIs(s, seps, p, i);
    SeparatorIs(s, seps, p, j);
    if i < |s| {
      Reassociate(calls, Call(p, entry), Cuts(s, seps, i + 1));
    } else {
      assert s[p..i] == s[p..];
    }
  }

  // The calls made while going from start to p: each ends where the next separator is, one short of where the
  // one after it starts.
  ghost predicate Made(calls: seq<Call>, s: seq<byte>, seps: set<byte>, start: nat, p: nat)
    decreases |calls|
  {
    if calls == [] then p == start
    else
      var last := calls[|calls| - 1];
      && last.ofs < p && last.ofs <= |s| && IsNextSeparator(s, seps, last.ofs, p - 1)
      && last.entry == s[last.ofs..p - 1]
      && Made(calls[..|calls| - 1], s, seps, start, last.ofs)
  }

  lemma MadeOneMore(calls: seq<Call>, s: seq<byte>, seps: set<byte>, start: nat, p: nat, i: nat, entry: seq<byte>)
    requires p <= |s| && IsNextSeparator(s, seps, p, i) && entry == s[p..i]
    requires Made(calls, s, seps, start, p)
    ensures Made(calls + [Call(p, entry)], s, seps, start, i + 1)
  {
    assert (calls + [Call(p, entry)])[..|calls|] == calls;
  }

  lemma {:induction false} MadeAhead(calls: seq<Call>, s: seq<byte>, seps: set<byte>, start: nat, p: nat)
    requires start <= |s| && Made(calls, s, seps, start, p)
    ensures Ahead(Cuts(s, seps, start), calls, s, seps, p)
    decreases |calls|
  {
    if calls != [] {
      var k := |calls| - 1;
      MadeAhead(calls[..k], s, seps, start, calls[k].ofs);
      OneCallMore(Cuts(s, seps, start), calls[..k], s, seps, calls[k].ofs, p - 1, calls[k].entry);
      assert calls == calls[..k] + [calls[k]];
    }
  }

  /** Once the end is passed, the calls made are all there are to make. */
  lemma MadeAll(calls: seq<Call>, s: seq<byte>, seps: set<byte>, start: nat)
    requires start <= |s| && Made(calls, s, seps, start, |s| + 1)
    ensures calls == Cuts(s, seps, start)
  {
    MadeAhead(calls, s, seps, start, |s| + 1);
  }

  lemma Reassociate<T>(a: seq<T>, x: T, b: seq<T>)
    ensures a + ([x] + b) == a + [x] + b
  {
  }

  // ---------------------------------------------------------------- a substring

  // The entries of bsplitstrcb, the current one starting at p and the search for its end at i: after an
  // occurrence the search goes on one position beyond the start of the next entry.
  ghost function StringCuts(s: seq<byte>, sep: seq<byte>, p: nat, i: nat): (r: seq<Call>)
    requires p <= |s| && p <= i && sep != []
    ensures r != []
    decreases |s| + 1 - i
  {
    var m := FirstFrom(s, i, sep);
    if m == ERR then [Call(p, s[p..])]
    else [Call(p, s[p..m])] + StringCuts(s, sep, m + |sep|, m + |sep| + 1)
  }

  ghost function StringEntries(s: seq<byte>, sep: seq<byte>, p: nat, i: nat): seq<seq<byte>>
    requires p <= |s| && p <= i && sep != []
  {
    Entries(StringCuts(s, sep, p, i))
  }

  lemma StringEntriesStep(s: seq<byte>, sep: seq<byte>, p: nat, i: nat)
    requires p <= |s| && p <= i && sep != []
    ensures StringEntries(s, sep, p, i) == (var m := FirstFrom(s, i, sep);
      if m == ERR then [s[p..]] else [s[p..m]] + StringEntries(s, sep, m + |sep|, m + |sep| + 1))
  {
    var m := FirstFrom(s, i, sep);
    if m == ERR {
      assert Entries([Call(p, s[p..])]) == [s[p..]];
    } else {
      EntriesCons(Call(p, s[p..m]), StringCuts(s, sep, m + |sep|, m + |sep| + 1));
    }
  }

  ghost predicate StringAhead(all: seq<Call>, calls: seq<Call>, s: seq<byte>, sep: seq<byte>, p: nat, from: nat) {
    sep != [] && p <= |s| && p <= from && all == calls + StringCuts(s, sep, p, from)
  }

  lemma NoneMadeYet(s: seq<byte>, sep: seq<byte>, p: nat)
    requires p <= |s| && sep != []
    ensures StringAhead(StringCuts(s, sep, p, p), [], s, sep, p, p)
  {
  }

  lemma OneStringCallMore(all: seq<Call>, calls: seq<Call>, s: seq<byte>, sep: seq<byte>, p: nat, from: nat, m: nat,
                          entry: seq<byte>)
    requires StringAhead(all, calls, s, sep, p, from) && IsFirstMatch(s, from, sep, m) && entry == s[p..m]
    ensures StringAhead(all, calls + [Call(p, entry)], s, sep, m + |sep|, m + |sep| + 1)
  {
    FirstMatchIsUnique(s, from, sep, m);
    Reassociate(calls, Call(p, entry), StringCuts(s, sep, m + |sep|, m + |sep| + 1));
  }

  lemma LastStringCall(
      all: seq<Call>, calls: seq<Call>, s: seq<byte>, sep: seq<byte>, p: nat, from: nat, entry: seq<byte>)
    requires StringAhead(all, calls, s, sep, p, from) && IsFirstMatch(s, from, sep, ERR) && entry == s[p..]
    ensures all == calls + [Call(p, entry)]
  {
    FirstMatchIsUnique(s, from, sep, ERR);
  }

  // Call number k is a stretch of s, with sep and the next call behind it, or the end.
  ghost predicate Stands(calls: seq<Call>, s: seq<byte>, sep: seq<byte>, k: nat)
    requires k < |calls|
  {
    var end := calls[k].ofs + |calls[k].entry|;
    && end <= |s| && calls[k].entry == s[calls[k].ofs..end]
    && (if k + 1 < |calls| then end + |sep| <= |s| && s[end..end + |sep|] == sep && calls[k + 1].ofs == end + |sep|
        else end == |s|)
  }

  lemma StandsBehind(call: Call, rest: seq<Call>, s: seq<byte>, sep: seq<byte>, k: nat)
    requires k < |rest| && Stands(rest, s, sep, k)
    ensures Stands([call] + rest, s, sep, k + 1)
  {
    var calls := [call] + rest;
    assert calls[k + 1] == rest[k];
    assert k + 1 < |rest| ==> calls[k + 2] == rest[k + 1];
  }

  lemma {:induction false} StringCutStands(s: seq<byte>, sep: seq<byte>, p: nat, i: nat, k: nat)
    requires p <= |s| && p <= i && sep != [] && k < |StringCuts(s, sep, p, i)|
    ensures Stands(StringCuts(s, sep, p, i), s, sep, k)
    decreases k
  {
    hide StringCuts, FirstFrom, Stands;
    FirstStringCut(s, sep, p, i);
    if k > 0 {
      StringCutsStep(s, sep, p, i);
      var m := FirstFrom(s, i, sep);
      StringCutStands(s, sep, m + |sep|, m + |sep| + 1, k - 1);
      StandsBehind(Call(p, s[p..m]), StringCuts(s, sep, m + |sep|, m + |sep| + 1), s, sep, k - 1);
    }
  }

  /** What call number k for a substring is: its entry is the text from where it starts; the first one starts at p;
      behind an entry that is not the last the substring stands, and behind that the next one starts; the last one ends
      the text. */
  lemma StringCutIs(s: seq<byte>, sep: seq<byte>, p: nat, i: nat, k: nat)
    requires p <= |s| && p <= i && sep != [] && k < |StringCuts(s, sep, p, i)|
    ensures var calls := StringCuts(s, sep, p, i);
      var end := calls[k].ofs + |calls[k].entry|;
      && end <= |s| && calls[k].entry == s[calls[k].ofs..end]
      && (k == 0 ==> calls[k].ofs == p)
      && (if k + 1 < |calls| then end + |sep| <= |s| && s[end..end + |sep|] == sep && calls[k + 1].ofs == end + |sep|
          else end == |s|)
  {
    StringCutStands(s, sep, p, i, k);
    FirstStringCut(s, sep, p, i);
    hide StringCuts;
  }

  lemma FirstStringCut(s: seq<byte>, sep: seq<byte>, p: nat, i: nat)
    requires p <= |s| && p <= i && sep != []
    ensures var calls := StringCuts(s, sep, p, i);
      var end := p + |calls[0].entry|;
      && calls[0].ofs == p && end <= |s| && calls[0].entry == s[p..end] && Stands(calls, s, sep, 0)
      && (if 1 < |calls| then end + |sep| <= |s| && s[end..end + |sep|] == sep && calls[1].ofs == end + |sep|
          else end == |s|)
  {
    hide FirstFrom;
    StringCutsStep(s, sep, p, i);
    var m := FirstFrom(s, i, sep);
    if m != ERR {
      StringCutsStep(s, sep, m + |sep|, m + |sep| + 1);
    }
  }

  lemma StringCutsStep(s: seq<byte>, sep: seq<byte>, p: nat, i: nat)
    requires p <= |s| && p <= i && sep != []
    ensures var m := FirstFrom(s, i, sep);
      StringCuts(s, sep, p, i) ==
      if m == ERR then [Call(p, s[p..])] else [Call(p, s[p..m])] + StringCuts(s, sep, m + |sep|, m + |sep| + 1)
    ensures var m := FirstFrom(s, i, sep);
      m != ERR ==> i <= m && m + |sep| <= |s| && s[m..m + |sep|] == sep
  {
    FirstFromIsFirst(s, i, sep);
  }

  /** Before the end of entry number k, or up to the end of the text for the last one, the substring stands nowhere from
      where the search began: at i for the first entry, and one position beyond the start of every other. */
  lemma {:induction false} NothingMissed(s: seq<byte>, sep: seq<byte>, p: nat, i: nat, k: nat, q: nat)
    requires p <= |s| && p <= i && sep != [] && k < |StringCuts(s, sep, p, i)| && q + |sep| <= |s|
    requires var calls := StringCuts(s, sep, p, i);
      && (if k == 0 then i else calls[k].ofs + 1) <= q
      && (k + 1 < |calls| ==> q < calls[k].ofs + |calls[k].entry|)
    ensures s[q..q + |sep|] != sep
    decreases k
  {
    var m := FirstFrom(s, i, sep);
    FirstFromIsFirst(s, i, sep);
    if k == 0 {
      assert !MatchAt(s, q, sep);
    } else {
      var rest := StringCuts(s, sep, m + |sep|, m + |sep| + 1);
      assert rest[0].ofs == m + |sep|;
      NothingMissed(s, sep, m + |sep|, m + |sep| + 1, k - 1, q);
    }
  }

  // With no separator every character is an entry.
  function Singles(s: seq<byte>, p: nat): (calls: seq<Call>)
    requires p <= |s|
    ensures |calls| == |s| - p && forall k :: 0 <= k < |calls| ==> calls[k] == Call(p + k, [s[p + k]])
    decreases |s| - p
  {
    if p == |s| then [] else [Call(p, [s[p]])] + Singles(s, p + 1)
  }

  /** Splitting at a substring and joining with it is the identity. */
  lemma CutSplits(s: seq<byte>, sep: seq<byte>, p: nat, i: nat, m: int)
    requires p <= i && IsFirstMatch(s, i, sep, m) && m != ERR
    ensures i <= m && m + |sep| <= |s| && s[p..] == s[p..m] + sep + s[m + |sep|..]
  {
  }

  lemma {:induction false} StringCutsRejoin(s: seq<byte>, sep: seq<byte>, p: nat, i: nat)
    requires p <= |s| && p <= i && sep != []
    ensures Joined(StringEntries(s, sep, p, i), sep) == s[p..]
    decreases |s| + 1 - i
  {
    StringEntriesStep(s, sep, p, i);
    var m := FirstFrom(s, i, sep);
    if m == ERR {
      assert Joined([s[p..]], sep) == s[p..];
    } else {
      FirstFromIsFirst(s, i, sep);
      CutSplits(s, sep, p, i, m);
      hide Joined, StringEntries, IsFirstMatch;
      StringCutsRejoin(s, sep, m + |sep|, m + |sep| + 1);
      JoinedCons(s[p..m], StringEntries(s, sep, m + |sep|, m + |sep| + 1), sep);
    }
  }

  lemma {:induction false} SinglesRejoin(s: seq<byte>, p: nat)
    requires p <= |s|
    ensures Joined(Entries(Singles(s, p)), []) == s[p..]
    decreases |s| - p
  {
    if p < |s| {
      var rest := Singles(s, p + 1);
      SinglesRejoin(s, p + 1);
      EntriesCons(Call(p, [s[p]]), rest);
      assert s[p..] == [s[p]] + s[p + 1..];
      if rest == [] {
        assert s[p + 1..] == [];
        assert Entries([Call(p, [s[p]])]) == [[s[p]]];
      } else {
        JoinedCons([s[p]], Entries(rest), []);
        assert [s[p]] + [] == [s[p]];
      }
    }
  }

  // What bsplitstrcb calls back with: single characters when there is no separator.
  ghost function AllStringCuts(s: seq<byte>, sep: seq<byte>, p: nat): seq<Call>
    requires p <= |s|
  {
    if sep == [] then Singles(s, p)
    else if |sep| == 1 then Cuts(s, {sep[0]}, p)
    else StringCuts(s, sep, p, p)
  }

  /** What call number k is, for every separator that is not empty. */
  lemma AllStringCutIs(s: seq<byte>, sep: seq<byte>, p: nat, k: nat)
    requires p <= |s| && sep != [] && k < |AllStringCuts(s, sep, p)|
    ensures var calls := AllStringCuts(s, sep, p);
      var end := calls[k].ofs + |calls[k].entry|;
      && end <= |s| && calls[k].entry == s[calls[k].ofs..end]
      && (|sep| == 1 ==> sep[0] !in calls[k].entry)
      && (k == 0 ==> calls[k].ofs == p)
      && (if k + 1 < |calls| then end + |sep| <= |s| && s[end..end + |sep|] == sep && calls[k + 1].ofs == end + |sep|
          else end == |s|)
  {
    hide Cuts, StringCuts;
    if |sep| == 1 {
      assert sep == [sep[0]];
      CutIs(s, {sep[0]}, p, k);
    } else {
      StringCutIs(s, sep, p, p, k);
    }
  }

  lemma LongSeparatorNotMissed(s: seq<byte>, sep: seq<byte>, p: nat, k: nat, q: nat)
    requires p <= |s| && |sep| > 1 && k < |AllStringCuts(s, sep, p)| && q + |sep| <= |s|
    requires var calls := AllStringCuts(s, sep, p);
      && (if k == 0 then p else calls[k].ofs + 1) <= q
      && (k + 1 < |calls| ==> q < calls[k].ofs + |calls[k].entry|)
    ensures s[q..q + |sep|] != sep
  {
    NothingMissed(s, sep, p, p, k, q);
  }

  ghost function AllStringEntries(s: seq<byte>, sep: seq<byte>): seq<seq<byte>> {
    Entries(AllStringCuts(s, sep, 0))
  }
}
