/** Sets of characters as 256 bits in 32 bytes, and the searches by character set that use them. */
module CharFields {
  import opened BStrings

  const CFCLEN := 32

  // 1 << k, in a byte
  function Bit(k: nat): bv8
    requires k < 8
  {
    if k == 0 then 1 else if k == 1 then 2 else if k == 2 then 4 else if k == 3 then 8
    else if k == 4 then 16 else if k == 5 then 32 else if k == 6 then 64 else 128
  }

  // Character c has bit c % 8 of byte c / 8.
  lemma BitIsShift(content: seq<bv8>, c: byte)
    requires |content| == CFCLEN
    ensures TestInCharField(content, c) <==> content[c / 8] & (1 << (c % 8)) != 0
  {
  }

  lemma BitOr(x: bv8, k: nat, j: nat)
    requires k < 8 && j < 8
    ensures (x | Bit(k)) & Bit(j) != 0 <==> j == k || x & Bit(j) != 0
  {
  }

  lemma BitNot(x: bv8, j: nat)
    requires j < 8
    ensures !x & Bit(j) != 0 <==> x & Bit(j) == 0
  {
  }

  predicate TestInCharField(content: seq<bv8>, c: byte)
    requires |content| == CFCLEN
  {
    content[c / 8] & Bit(c % 8) != 0
  }

  // The bits set in content are those of the characters in cs.
  ghost predicate Holds(content: seq<bv8>, cs: set<byte>) {
    |content| == CFCLEN && forall c: byte {:trigger TestInCharField(content, c)} ::
      TestInCharField(content, c) <==> c in cs
  }

  function CharSet(s: seq<byte>): (cs: set<byte>)
    ensures forall c :: c in cs <==> c in s
  {
    set c | c in s
  }

  function Others(cs: set<byte>): (r: set<byte>)
    ensures forall c: byte :: c in r <==> c !in cs
  {
    set c: byte | 0 <= c < 256 && c !in cs
  }

  lemma SetsOne(content: seq<bv8>, cs: set<byte>, b: byte)
    requires Holds(content, cs)
    ensures Holds(content[b / 8 := content[b / 8] | Bit(b % 8)], cs + {b})
  {
    var next := content[b / 8 := content[b / 8] | Bit(b % 8)];
    forall c: byte ensures TestInCharField(next, c) <==> c in cs + {b} {
      assert TestInCharField(content, c) <==> c in cs;
      if c / 8 == b / 8 {
        BitOr(content[b / 8], b % 8, c % 8);
      }
    }
  }

  method BuildCharField(cf: array<bv8>, b: ConstString) returns (rc: int)
    requires cf.Length == CFCLEN && b.slen <= b.data.Length
    requires cf as object != b.data
    modifies cf
    ensures rc == if b.slen <= 0 then ERR else OK
    ensures rc == ERR ==> cf[..] == old(cf[..])
    ensures rc == OK ==> Holds(cf[..], CharSet(Chars(b)))
  {
    if b.slen <= 0 {
      return ERR;
    }
    forall i | 0 <= i < cf.Length {
      cf[i] := 0;
    }
    ghost var done, s: seq<byte> := {}, Chars(b);
    for i := 0 to b.slen
      invariant Holds(cf[..], done) && done == CharSet(s[..i]) && s == Chars(b)
    {
      var c := b.data[i];
      SetsOne(cf[..], done, c);
      done := done + {c};
      ghost var was := cf[..];
      cf[c / 8] := cf[c / 8] | Bit(c % 8);
      assert cf[..] == was[c / 8 := was[c / 8] | Bit(c % 8)];
      assert s[..i + 1] == s[..i] + [c];
    }
    return OK;
  }

  method InvertCharField(cf: array<bv8>, ghost cs: set<byte>)
    requires Holds(cf[..], cs)
    modifies cf
    ensures Holds(cf[..], Others(cs))
  {
    ghost var was := cf[..];
    for i := 0 to cf.Length
      invariant forall k :: 0 <= k < i ==> cf[k] == !was[k]
      invariant forall k :: i <= k < cf.Length ==> cf[k] == was[k]
    {
      cf[i] := !cf[i];
    }
    forall c: byte ensures TestInCharField(cf[..], c) <==> c in Others(cs) {
      assert TestInCharField(was, c) <==> c in cs;
      BitNot(was[c / 8], c % 8);
    }
  }

  // ---------------------------------------------------------------- searching

  // i is the first position from pos on that holds a character of cs, ERR when there is none.
  ghost predicate IsFirstOf(s: seq<byte>, cs: set<byte>, pos: nat, i: int) {
    if i == ERR then forall k :: pos <= k < |s| ==> s[k] !in cs
    else pos <= i < |s| && s[i] in cs && forall k :: pos <= k < i ==> s[k] !in cs
  }

  // i is the last position up to pos that holds a character of cs, ERR when there is none.
  ghost predicate IsLastOf(s: seq<byte>, cs: set<byte>, pos: int, i: int) {
    if i == ERR then forall k :: 0 <= k <= pos && k < |s| ==> s[k] !in cs
    else 0 <= i <= pos && i < |s| && s[i] in cs && forall k :: i < k <= pos && k < |s| ==> s[k] !in cs
  }

  /** The first position that holds one of the characters, and an error exactly when there is none. */
  lemma FirstOfMeans(s: seq<byte>, cs: set<byte>, pos: nat, i: int)
    requires IsFirstOf(s, cs, pos, i)
    ensures i == -1 <==> forall k :: pos <= k < |s| ==> s[k] !in cs
    ensures i != -1 ==> pos <= i < |s| && s[i] in cs && forall k :: pos <= k < |s| && s[k] in cs ==> i <= k
  {
  }

  /** The same for the last position up to pos. */
  lemma LastOfMeans(s: seq<byte>, cs: set<byte>, pos: int, i: int)
    requires IsLastOf(s, cs, pos, i)
    ensures i == -1 <==> forall k :: 0 <= k <= pos && k < |s| ==> s[k] !in cs
    ensures i != -1 ==> 0 <= i <= pos && i < |s| && s[i] in cs
    ensures i != -1 ==> forall k :: 0 <= k <= pos && k < |s| && s[k] in cs ==> k <= i
  {
  }

  method BStrChrP(b: ConstString, c: byte, pos: int) returns (i: int)
    requires 0 <= b.slen <= b.data.Length
    ensures 0 <= pos < b.slen ==> IsFirstOf(Chars(b), {c}, pos, i)
    ensures !(0 <= pos < b.slen) ==> i == ERR
  {
    if b.slen <= pos || pos < 0 {
      return ERR;
    }
    for k := pos to b.slen
      invariant forall j :: pos <= j < k ==> b.data[j] != c
    {
      if b.data[k] == c {
        return k;
      }
    }
    return ERR;
  }

  method BStrRChrP(b: ConstString, c: byte, pos: int) returns (i: int)
    requires 0 <= b.slen <= b.data.Length
    ensures 0 <= pos < b.slen ==> IsLastOf(Chars(b), {c}, pos, i)
    ensures !(0 <= pos < b.slen) ==> i == ERR
  {
    if b.slen <= pos || pos < 0 {
      return ERR;
    }
    i := pos;
    while i >= 0
      invariant -1 <= i <= pos && forall j :: i < j <= pos ==> b.data[j] != c
    {
      if b.data[i] == c {
        return i;
      }
      i := i - 1;
    }
  }

  method BInChrCF(b: ConstString, pos: nat, cf: array<bv8>, ghost cs: set<byte>) returns (i: int)
    requires 0 <= b.slen <= b.data.Length && Holds(cf[..], cs)
    ensures IsFirstOf(Chars(b), cs, pos, i)
  {
    i := pos;
    while i < b.slen
      invariant pos <= i && forall j :: pos <= j < i && j < b.slen ==> b.data[j] !in cs
    {
      var c := b.data[i];
      if TestInCharField(cf[..], c) {
        return i;
      }
      i := i + 1;
    }
    return ERR;
  }

  method BInChrRCF(b: ConstString, pos: int, cf: array<bv8>, ghost cs: set<byte>) returns (i: int)
    requires 0 <= b.slen <= b.data.Length && pos < b.slen && Holds(cf[..], cs)
    ensures IsLastOf(Chars(b), cs, pos, i)
  {
    i := pos;
    while i >= 0
      invariant i <= pos && forall j :: i < j <= pos && 0 <= j ==> b.data[j] !in cs
    {
      var c := b.data[i];
      if TestInCharField(cf[..], c) {
        return i;
      }
      i := i - 1;
    }
    return ERR;
  }

  /** The first position from pos on with a character of b1; ERR too when pos is outside b0, and when b1 is
      empty. */
  method BInChr(b0: ConstString, pos: int, b1: ConstString) returns (i: int)
    requires 0 <= b0.slen <= b0.data.Length && 0 <= b1.slen <= b1.data.Length
    ensures 0 <= pos ==> IsFirstOf(Chars(b0), CharSet(Chars(b1)), pos, i)
    ensures pos < 0 ==> i == ERR
  {
    if pos < 0 || b0.slen <= pos {
      return ERR;
    }
    if b1.slen == 1 {
      assert CharSet(Chars(b1)) == {b1.data[0]};
      i := BStrChrP(b0, b1.data[0], pos);
      return;
    }
    var cf := new bv8[CFCLEN];
    var rc := BuildCharField(cf, b1);
    if 0 > rc {
      return ERR;
    }
    i := BInChrCF(b0, pos, cf, CharSet(Chars(b1)));
  }

  /** The last position up to pos with a character of b1. */
  method BInChrR(b0: ConstString, pos: int, b1: ConstString) returns (i: int)
    requires 0 <= b0.slen <= b0.data.Length && 0 <= b1.slen <= b1.data.Length
    ensures 0 <= pos <= b0.slen ==> IsLastOf(Chars(b0), CharSet(Chars(b1)), pos, i)
    ensures !(0 <= pos <= b0.slen) ==> i == ERR
  {
    if pos < 0 || b0.slen < pos {
      return ERR;
    }
    var p := if pos == b0.slen then pos - 1 else pos;
    if b1.slen == 1 {
      assert CharSet(Chars(b1)) == {b1.data[0]};
      i := BStrRChrP(b0, b1.data[0], p);
      return;
    }
    var cf := new bv8[CFCLEN];
    var rc := BuildCharField(cf, b1);
    if 0 > rc {
      return ERR;
    }
    i := BInChrRCF(b0, p, cf, CharSet(Chars(b1)));
  }

  /** The first position from pos on with a character that is not in b1. An empty b1 finds nothing, though
      every character is outside it. */
  method BNInChr(b0: ConstString, pos: int, b1: ConstString) returns (i: int)
    requires 0 <= b0.slen <= b0.data.Length && 0 <= b1.slen <= b1.data.Length
    ensures 0 <= pos && b1.slen > 0 ==> IsFirstOf(Chars(b0), Others(CharSet(Chars(b1))), pos, i)
    ensures pos < 0 || b1.slen == 0 ==> i == ERR
  {
    if pos < 0 || b0.slen <= pos {
      return ERR;
    }
    var cf := new bv8[CFCLEN];
    var rc := BuildCharField(cf, b1);
    if rc < 0 {
      return ERR;
    }
    InvertCharField(cf, CharSet(Chars(b1)));
    i := BInChrCF(b0, pos, cf, Others(CharSet(Chars(b1))));
  }

  /** The last position up to pos with a character that is not in b1. */
  method BNInChrR(b0: ConstString, pos: int, b1: ConstString) returns (i: int)
    requires 0 <= b0.slen <= b0.data.Length && 0 <= b1.slen <= b1.data.Length
    ensures 0 <= pos <= b0.slen && b1.slen > 0 ==> IsLastOf(Chars(b0), Others(CharSet(Chars(b1))), pos, i)
    ensures !(0 <= pos <= b0.slen) || b1.slen == 0 ==> i == ERR
  {
    if pos < 0 || b0.slen < pos {
      return ERR;
    }
    var p := if pos == b0.slen then pos - 1 else pos;
    var cf := new bv8[CFCLEN];
    var rc := BuildCharField(cf, b1);
    if rc < 0 {
      return ERR;
    }
    InvertCharField(cf, CharSet(Chars(b1)));
    i := BInChrRCF(b0, p, cf, Others(CharSet(Chars(b1))));
  }

  /** What an empty b1 costs the searches for a character outside it: the answer ERR is wrong whenever there is
      a character at all in the range searched. */
  lemma EmptySetMisses(s: seq<byte>, pos: nat)
    ensures IsFirstOf(s, Others(CharSet([])), pos, ERR) <==> |s| <= pos
    ensures IsLastOf(s, Others(CharSet([])), pos, ERR) <==> s == []
  {
    assert forall k :: 0 <= k < |s| ==> s[k] in Others(CharSet([]));
    assert s != [] ==> s[0] in Others(CharSet([]));
    assert pos < |s| ==> s[pos] in Others(CharSet([]));
  }
}
