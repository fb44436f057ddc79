// The two text orders the repository sorts by: Rust compares strings by their
// UTF-8 bytes, which is the order of their code points, and JavaScript compares
// them by their UTF-16 code units.

module TextOrder {

  /** Dictionary order on number sequences. */
  predicate LexLess(a: seq<int>, b: seq<int>) {
    if b == [] then false
    else if a == [] then true
    else a[0] < b[0] || (a[0] == b[0] && LexLess(a[1..], b[1..]))
  }

  lemma {:induction false} LexTrichotomy(a: seq<int>, b: seq<int>)
    ensures LexLess(a, b) || LexLess(b, a) || a == b
    ensures !(LexLess(a, b) && LexLess(b, a))
    ensures a == b ==> !LexLess(a, b)
  {
    if a != [] && b != [] {
      LexTrichotomy(a[1..], b[1..]);
      if a[0] == b[0] && a[1..] == b[1..] {
        assert a == [a[0]] + a[1..] == [b[0]] + b[1..] == b;
      }
    }
  }

  lemma {:induction false} LexTransitive(a: seq<int>, b: seq<int>, c: seq<int>)
    requires LexLess(a, b) && LexLess(b, c)
    ensures LexLess(a, c)
  {
    if a != [] && a[0] == b[0] == c[0] {
      LexTransitive(a[1..], b[1..], c[1..]);
    }
  }

  /** The code points of a text. */
  function Codes(text: string): (codes: seq<int>)
    ensures |codes| == |text|
    ensures forall i :: 0 <= i < |text| ==> codes[i] == text[i] as int
  {
    seq(|text|, i requires 0 <= i < |text| => text[i] as int)
  }

  /** Rust's string order. */
  predicate Before(a: string, b: string) {
    LexLess(Codes(a), Codes(b))
  }

  lemma CodesInjective(a: string, b: string)
    requires Codes(a) == Codes(b)
    ensures a == b
  {
    forall i | 0 <= i < |a|
      ensures a[i] == b[i]
    {
      assert Codes(a)[i] == Codes(b)[i];
    }
  }

  lemma BeforeTrichotomy(a: string, b: string)
    ensures Before(a, b) || Before(b, a) || a == b
    ensures !(Before(a, b) && Before(b, a))
    ensures a == b ==> !Before(a, b)
  {
    LexTrichotomy(Codes(a), Codes(b));
    if Codes(a) == Codes(b) {
      CodesInjective(a, b);
    }
  }

  lemma BeforeTransitive(a: string, b: string, c: string)
    requires Before(a, b) && Before(b, c)
    ensures Before(a, c)
  {
    LexTransitive(Codes(a), Codes(b), Codes(c));
  }

  /** The texts agree up to `k`, where the first ends, or has a character that comes first. */
  ghost predicate PartAt(a: string, b: string, k: nat, comesFirst: (char, char) -> bool) {
    && k <= |a| && k < |b| && a[..k] == b[..k]
    && (k == |a| || comesFirst(a[k], b[k]))
  }

  lemma {:induction false} PartLater(a: string, b: string, comesFirst: (char, char) -> bool)
    requires a != [] && b != [] && a[0] == b[0] && !comesFirst(a[0], b[0])
    ensures (exists k: nat :: PartAt(a, b, k, comesFirst)) <==> exists k: nat :: PartAt(a[1..], b[1..], k, comesFirst)
  {
    if k: nat :| PartAt(a, b, k, comesFirst) {
      assert k > 0;
      assert a[1..][..k - 1] == a[..k][1..] == b[..k][1..] == b[1..][..k - 1];
      assert PartAt(a[1..], b[1..], k - 1, comesFirst);
    }
    if k: nat :| PartAt(a[1..], b[1..], k, comesFirst) {
      assert a[..k + 1] == [a[0]] + a[1..][..k] && b[..k + 1] == [b[0]] + b[1..][..k];
      assert PartAt(a, b, k + 1, comesFirst);
    }
  }

  lemma PartShares(a: string, b: string, k: nat, comesFirst: (char, char) -> bool)
    requires PartAt(a, b, k, comesFirst)
    ensures k > 0 ==> a != [] && b != [] && a[0] == b[0]
  {
    if k > 0 {
      assert a[..k][0] == b[..k][0];
    }
  }

  lemma PartHere(a: string, b: string, comesFirst: (char, char) -> bool)
    requires a == [] || b == [] || a[0] != b[0]
    ensures (exists k: nat :: PartAt(a, b, k, comesFirst)) <==> b != [] && (a == [] || comesFirst(a[0], b[0]))
  {
    if k: nat :| PartAt(a, b, k, comesFirst) {
      PartShares(a, b, k, comesFirst);
    }
    if b != [] && (a == [] || comesFirst(a[0], b[0])) {
      assert PartAt(a, b, 0, comesFirst);
    }
  }

  predicate IsSmaller(c: char, d: char) {
    c < d
  }

  /** Rust's order: the text that ends first, or has the smaller character where the two first differ. */
  lemma {:induction false} BeforeMeans(a: string, b: string)
    ensures Before(a, b) <==> exists k: nat :: PartAt(a, b, k, IsSmaller)
    decreases |a|
  {
    if a != [] && b != [] && a[0] == b[0] {
      assert Codes(a)[1..] == Codes(a[1..]) && Codes(b)[1..] == Codes(b[1..]);
      BeforeMeans(a[1..], b[1..]);
      PartLater(a, b, IsSmaller);
    } else {
      PartHere(a, b, IsSmaller);
    }
  }

  /** The UTF-16 code units of one character. */
  function Utf16Units(c: char): (units: seq<int>)
    ensures 1 <= |units| <= 2
    ensures |units| == 2 <==> c as int >= 0x1_0000
  {
    var code := c as int;
    if code < 0x1_0000 then [code]
    else [0xD800 + (code - 0x1_0000) / 0x400, 0xDC00 + (code - 0x1_0000) % 0x400]
  }

  function Utf16(text: string): seq<int> {
    if text == [] then [] else Utf16Units(text[0]) + Utf16(text[1..])
  }

  lemma Utf16UnitsPrefixFree(c: char, d: char, afterC: seq<int>, afterD: seq<int>)
    requires Utf16Units(c) + afterC == Utf16Units(d) + afterD
    ensures c == d && afterC == afterD
  {
    var left, right := Utf16Units(c) + afterC, Utf16Units(d) + afterD;
    assert left[0] == Utf16Units(c)[0] && right[0] == Utf16Units(d)[0];
    if |Utf16Units(c)| == 2 && |Utf16Units(d)| == 2 {
      assert left[1] == Utf16Units(c)[1] && right[1] == Utf16Units(d)[1];
      assert c as int == d as int;
    }
    assert afterC == left[|Utf16Units(c)|..];
    assert afterD == right[|Utf16Units(d)|..];
  }

  lemma {:induction false} Utf16Injective(a: string, b: string)
    requires Utf16(a) == Utf16(b)
    ensures a == b
  {
    if a != [] && b != [] {
      Utf16UnitsPrefixFree(a[0], b[0], Utf16(a[1..]), Utf16(b[1..]));
      Utf16Injective(a[1..], b[1..]);
      assert a == [a[0]] + a[1..] == [b[0]] + b[1..] == b;
    }
  }

  /** JavaScript's default sort order on strings. */
  predicate UnitsBefore(a: string, b: string) {
    LexLess(Utf16(a), Utf16(b))
  }

  /** Where a character stands among UTF-16 units: those beyond 16 bits between the others below and above the surrogates. */
  function UnitGroup(c: char): int {
    if c as int >= 0x1_0000 then 1 else if c as int >= 0xE000 then 2 else 0
  }

  predicate FirstInUnits(c: char, d: char) {
    UnitGroup(c) < UnitGroup(d) || (UnitGroup(c) == UnitGroup(d) && c < d)
  }

  lemma UnitsDiffer(c: char, d: char, afterC: seq<int>, afterD: seq<int>)
    requires c != d
    ensures LexLess(Utf16Units(c) + afterC, Utf16Units(d) + afterD) <==> FirstInUnits(c, d)
  {
    var left, right := Utf16Units(c) + afterC, Utf16Units(d) + afterD;
    assert left[0] == Utf16Units(c)[0] && right[0] == Utf16Units(d)[0];
    if left[0] == right[0] {
      assert |Utf16Units(c)| == 2 && |Utf16Units(d)| == 2;
      assert left[1..][0] == Utf16Units(c)[1] && right[1..][0] == Utf16Units(d)[1];
      assert LexLess(left, right) == LexLess(left[1..], right[1..]);
    }
  }

  lemma {:induction false} SamePrefix(prefix: seq<int>, a: seq<int>, b: seq<int>)
    ensures LexLess(prefix + a, prefix + b) <==> LexLess(a, b)
  {
    if prefix == [] {
      assert prefix + a == a && prefix + b == b;
    } else {
      assert (prefix + a)[1..] == prefix[1..] + a && (prefix + b)[1..] == prefix[1..] + b;
      SamePrefix(prefix[1..], a, b);
    }
  }

  /** JavaScript's order: characters beyond 16 bits sort as their surrogates, so before those from U+E000 on. */
  lemma {:induction false} UnitsBeforeMeans(a: string, b: string)
    ensures UnitsBefore(a, b) <==> exists k: nat :: PartAt(a, b, k, FirstInUnits)
    decreases |a|
  {
    if a != [] && b != [] && a[0] == b[0] {
      SamePrefix(Utf16Units(a[0]), Utf16(a[1..]), Utf16(b[1..]));
      UnitsBeforeMeans(a[1..], b[1..]);
      PartLater(a, b, FirstInUnits);
    } else {
      PartHere(a, b, FirstInUnits);
      if a != [] && b != [] {
        UnitsDiffer(a[0], b[0], Utf16(a[1..]), Utf16(b[1..]));
      }
    }
  }

  lemma UnitsBeforeTrichotomy(a: string, b: string)
    ensures UnitsBefore(a, b) || UnitsBefore(b, a) || a == b
    ensures !(UnitsBefore(a, b) && UnitsBefore(b, a))
    ensures a == b ==> !UnitsBefore(a, b)
  {
    LexTrichotomy(Utf16(a), Utf16(b));
    if Utf16(a) == Utf16(b) {
      Utf16Injective(a, b);
    }
  }

  lemma UnitsBeforeTransitive(a: string, b: string, c: string)
    requires UnitsBefore(a, b) && UnitsBefore(b, c)
    ensures UnitsBefore(a, c)
  {
    LexTransitive(Utf16(a), Utf16(b), Utf16(c));
  }

  ghost predicate IsAscending(texts: seq<string>) {
    forall i, j :: 0 <= i < j < |texts| ==> Before(texts[i], texts[j])
  }

  predicate IsLeast(least: string, texts: set<string>) {
    least in texts && forall other :: other in texts && other != least ==> Before(least, other)
  }

  /** Every non-empty set of texts has a least one. */
  lemma {:induction false} LeastExists(texts: set<string>)
    requires texts != {}
    ensures exists least :: IsLeast(least, texts)
  {
    var some :| some in texts;
    if texts == {some} {
      assert IsLeast(some, texts);
    } else {
      var rest := texts - {some};
      LeastExists(rest);
      var least :| IsLeast(least, rest);
      BeforeTrichotomy(some, least);
      var winner := if Before(some, least) then some else least;
      forall other | other in texts && other != winner
        ensures Before(winner, other)
      {
        if winner == some && other != least {
          BeforeTransitive(some, least, other);
        }
      }
      assert IsLeast(winner, texts);
    }
  }

  function Least(texts: set<string>): (least: string)
    requires texts != {}
    ensures IsLeast(least, texts)
  {
    LeastExists(texts);
    assert forall x, y :: IsLeast(x, texts) && IsLeast(y, texts) ==> x == y by {
      forall x, y | IsLeast(x, texts) && IsLeast(y, texts)
        ensures x == y
      {
        BeforeTrichotomy(x, y);
      }
    }
    var least :| least in texts && IsLeast(least, texts);
    least
  }

  /** A `BTreeSet`'s members in the order it iterates them. */
  function Ascending(texts: set<string>): (ordered: seq<string>)
    ensures IsAscending(ordered)
    ensures forall text :: text in ordered <==> text in texts
    ensures |ordered| == |texts|
  {
    if texts == {} then []
    else
      var least := Least(texts);
      var rest := Ascending(texts - {least});
      assert forall i :: 0 <= i < |rest| ==> rest[i] in texts - {least};
      [least] + rest
  }

  lemma AscendingDistinct(ordered: seq<string>, i: nat, j: nat)
    requires IsAscending(ordered) && i < j < |ordered|
    ensures ordered[i] != ordered[j]
  {
    BeforeTrichotomy(ordered[i], ordered[j]);
  }
}
