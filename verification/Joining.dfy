/** bjoinblk: the entries of a list, with a separator between them, as one string. */
module Joining {
  import opened Common
  import opened Capacity
  import opened BStrings
  import opened Replace
  import opened Cutting
  import opened Splitting

  function Total(entries: seq<seq<byte>>): nat {
    if entries == [] then 0 else Total(entries[..|entries| - 1]) + |entries[|entries| - 1]|
  }

  lemma {:induction false} JoinedSnoc(entries: seq<seq<byte>>, x: seq<byte>, sep: seq<byte>)
    requires entries != []
    ensures Joined(entries + [x], sep) == Joined(entries, sep) + sep + x
    decreases |entries|
  {
    var all := entries + [x];
    if |entries| == 1 {
      assert all[1..] == [x];
    } else {
      JoinedSnoc(entries[1..], x, sep);
      assert all[1..] == entries[1..] + [x];
      var a, b := entries[0] + sep, Joined(entries[1..], sep);
      assert a + (b + sep + x) == a + b + sep + x;
    }
  }

  lemma {:induction false} JoinedLength(entries: seq<seq<byte>>, sep: seq<byte>)
    requires entries != []
    ensures |Joined(entries, sep)| == Total(entries) + (|entries| - 1) * |sep|
    decreases |entries|
  {
    var k := |entries| - 1;
    if k == 0 {
      assert Total(entries[..0]) == 0;
    } else {
      JoinedLength(entries[..k], sep);
      assert entries == entries[..k] + [entries[k]];
      JoinedSnoc(entries[..k], entries[k], sep);
      assert k * |sep| == (k - 1) * |sep| + |sep|;
    }
  }

  lemma TotalSnoc(entries: seq<seq<byte>>, i: nat)
    requires i < |entries|
    ensures Total(entries[..i + 1]) == Total(entries[..i]) + |entries[i]|
  {
    assert entries[..i + 1][..i] == entries[..i];
  }

  lemma {:induction false} TotalOfMore(entries: seq<seq<byte>>, k: nat)
    requires k <= |entries|
    ensures Total(entries[..k]) <= Total(entries)
    decreases |entries|
  {
    if k < |entries| {
      var most := entries[..|entries| - 1];
      assert most[..k] == entries[..k];
      TotalOfMore(most, k);
    } else {
      assert entries[..k] == entries;
    }
  }

  // int division truncates toward zero
  function Quotient(x: int, d: nat): int
    requires d > 0
  {
    if x >= 0 then x / d else -((-x) / d)
  }

  /** The test made only when there are many entries or a long separator tells exactly when the product does
      not fit, and without it the product fits. */
  lemma ProductCheckIsExact(x: nat, a: nat, b: nat)
    requires x == a * b && 0 < b <= INT_MAX
    ensures (a + 1 > 512 || b > 127) && Quotient(Wrap(x), b) != a <==> x > INT_MAX
    ensures x <= INT_MAX ==> Wrap(x) == x
  {
    if x <= INT_MAX {
      QuotientOfProduct(x, a, b);
    } else {
      LargeFactor(x, a, b);
      WrapQuotient(x, a, b);
    }
  }

  lemma LargeFactor(x: nat, a: nat, b: nat)
    requires x == a * b > INT_MAX
    ensures a + 1 > 512 || b > 127
  {
    if a + 1 <= 512 && b <= 127 {
      SmallProduct(a, b);
    }
  }

  // A product that wraps around does not divide back to its factor.
  lemma WrapQuotient(x: nat, a: nat, b: nat)
    requires b > 0 && x == a * b > INT_MAX
    ensures Quotient(Wrap(x), b) != a
  {
    var v: int := Wrap(x);
    if v >= 0 {
      QuotientBelow(v, a, b);
    } else {
      QuotientNotNegative(-v, b);
      PositiveFactor(a, b);
    }
  }

  lemma QuotientNotNegative(v: nat, b: nat)
    requires b > 0
    ensures v / b >= 0
  {
  }

  lemma PositiveFactor(a: nat, b: nat)
    requires a * b > 0
    ensures a > 0
  {
  }

  lemma Cancel(q: int, a: int, b: nat)
    requires q * b < a * b
    ensures q < a
  {
    assert (a - q) * b > 0;
  }

  lemma QuotientOfProduct(x: nat, a: nat, b: nat)
    requires b > 0 && x == a * b
    ensures x / b == a
  {
    var q := x / b;
    Cancel(q, a + 1, b);
    Cancel(a, q + 1, b);
  }

  lemma QuotientBelow(v: nat, a: nat, b: nat)
    requires b > 0 && v < a * b
    ensures v / b < a
  {
    Cancel(v / b, a, b);
  }

  lemma SmallProduct(a: nat, b: nat)
    requires a <= 511 && b <= 127
    ensures a * b <= 511 * 127
  {
    assert a * b <= 511 * b;
  }

  // memcpy of an entry to where the text ends
  method Put(a: array<byte>, v: nat, t: seq<byte>, ghost done: seq<byte>)
    requires v + |t| <= a.Length && a[..v] == done
    modifies a
    ensures a[..v + |t|] == done + t
  {
    forall k | 0 <= k < |t| {
      a[v + k] := t[k];
    }
  }

  /** None exactly when the joined text does not fit a string; the text itself otherwise. */
  method BJoinBlk(bl: BStrList, blk: array<byte>, len: CInt) returns (r: Option<BString>)
    requires bl.Valid() && len <= blk.Length
    ensures len < 0 ==> r.None?
    ensures len >= 0 ==>
      (r.Some? <==> bl.qty == 0 || |Joined(bl.Texts(), blk[..len])| < INT_MAX)
    ensures r.Some? ==> fresh(r.value) && r.value.Backed() && r.value.Terminated()
    ensures len >= 0 && r.Some? ==> r.value.Text() == Joined(bl.Texts(), blk[..len])
  {
    if len < 0 {
      return None;
    }
    if bl.qty < 1 {
      var none := new BString.Empty();
      return Some(none);
    }
    var c := JoinedSize(bl, len);
    JoinedLength(bl.Texts(), blk[..len]);
    if c > INT_MAX {
      return None;
    }
    var data := JoinInto(bl, blk, len, c);
    var b := new BString.Empty();
    data[c - 1] := 0;
    b.data, b.mlen, b.slen := data, c, c - 1;
    return Some(b);
  }

  // The room that the text and its terminator take; more than INT_MAX when that is certain.
  method JoinedSize(bl: BStrList, len: nat) returns (c: nat)
    requires bl.Valid() && 0 < bl.qty <= INT_MAX && len <= INT_MAX
    ensures c > INT_MAX <==> 1 + Total(bl.Texts()) + (bl.qty - 1) * len > INT_MAX
    ensures c <= INT_MAX ==> c == 1 + Total(bl.Texts()) + (bl.qty - 1) * len
  {
    c := SumLengths(bl);
    if c > INT_MAX {
      assert (bl.qty - 1) * len >= 0;
      return;
    }
    if len > 0 {
      var v := Wrap((bl.qty - 1) * len);
      ProductCheckIsExact((bl.qty - 1) * len, bl.qty - 1, len);
      if (bl.qty > 512 || len > 127) && Quotient(v, len) != bl.qty - 1 {
        return INT_MAX + 1;
      }
      if v > INT_MAX - c {
        return INT_MAX + 1;
      }
      c := c + v;
    }
  }

  // 1 more than the lengths of the entries, or more than INT_MAX as soon as that is certain
  method SumLengths(bl: BStrList) returns (c: nat)
    requires bl.Valid()
    ensures c > INT_MAX <==> 1 + Total(bl.Texts()) > INT_MAX
    ensures c <= INT_MAX ==> c == 1 + Total(bl.Texts())
  {
    ghost var texts := bl.Texts();
    c := 1;
    for i := 0 to bl.qty
      invariant c == 1 + Total(texts[..i]) <= INT_MAX
    {
      var v := |bl.entry[i]|;
      TotalSnoc(texts, i);
      if v > INT_MAX - c {
        TotalOfMore(texts, i + 1);
        return INT_MAX + 1;
      }
      c := c + v;
    }
    assert texts[..bl.qty] == texts;
  }

  // With a separator of length 0 the copy between two entries copies nothing.
  method JoinInto(bl: BStrList, blk: array<byte>, len: nat, c: nat) returns (data: array<byte>)
    requires bl.Valid() && bl.qty > 0 && len <= blk.Length
    requires c == |Joined(bl.Texts(), blk[..len])| + 1
    ensures fresh(data) && data.Length == c && data[..c - 1] == Joined(bl.Texts(), blk[..len])
  {
    ghost var texts, sep := bl.Texts(), blk[..len];
    data := new byte[c];
    var v := |bl.entry[0]|;
    JoinedPrefix(texts, sep, 1);
    assert texts[..1] == [texts[0]];
    Put(data, 0, bl.entry[0], []);
    for i := 1 to bl.qty
      invariant v == |Joined(texts[..i], sep)| < c
      invariant data[..v] == Joined(texts[..i], sep)
      invariant texts == bl.Texts() && sep == blk[..len]
    {
      JoinedPrefix(texts, sep, i + 1);
      assert texts[..i + 1] == texts[..i] + [texts[i]];
      JoinedSnoc(texts[..i], texts[i], sep);
      ghost var done := data[..v];
      Put(data, v, blk[..len], done);
      Put(data, v + len, bl.entry[i], done + sep);
      v := v + len + |bl.entry[i]|;
    }
    assert texts[..bl.qty] == texts;
  }

  lemma {:induction false} JoinedPrefix(entries: seq<seq<byte>>, sep: seq<byte>, k: nat)
    requires 0 < k <= |entries|
    ensures |Joined(entries[..k], sep)| <= |Joined(entries, sep)|
    decreases |entries|
  {
    if k < |entries| {
      var n := |entries| - 1;
      JoinedPrefix(entries[..n], sep, k);
      assert entries[..n][..k] == entries[..k];
      assert entries == entries[..n] + [entries[n]];
      JoinedSnoc(entries[..n], entries[n], sep);
    } else {
      assert entries[..k] == entries;
    }
  }

  /** Splitting at a character and joining with it gives the string back, unless the split already fails. The
      join never does, being as long as the string. */
  method SplitThenJoin(str: ConstString, splitChar: byte) returns (r: Option<BString>)
    requires 0 <= str.slen <= str.data.Length
    ensures r.Some? <==> Count(Chars(str), splitChar) < HALF_RANGE && str.slen < INT_MAX
    ensures r.Some? ==> r.value.Backed() && r.value.Terminated() && r.value.Text() == Chars(str)
  {
    var rc, bl := BSplit(str, splitChar);
    if rc != OK {
      return None;
    }
    var blk := new byte[1](_ => splitChar);
    assert blk[..1] == [splitChar];
    r := BJoinBlk(bl.value, blk, 1);
  }

  /** The same for a substring. */
  method SplitStrThenJoin(str: ConstString, splitStr: ConstString) returns (r: Option<BString>)
    requires 0 <= str.slen <= str.data.Length && 0 <= splitStr.slen <= splitStr.data.Length
    ensures r.Some? <==> |AllStringCuts(Chars(str), Chars(splitStr), 0)| <= HALF_RANGE && str.slen < INT_MAX
    ensures r.Some? ==> r.value.Backed() && r.value.Terminated() && r.value.Text() == Chars(str)
  {
    var rc, bl := BSplitStr(str, splitStr);
    if rc != OK {
      return None;
    }
    r := BJoinBlk(bl.value, splitStr.data, splitStr.slen);
  }
}
